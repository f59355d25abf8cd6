/**
 * Python values as the graph utilities see them: hashable dictionary keys
 * (strings, integers, None and flat tuples of those), attribute values that
 * may themselves be dictionaries, and dictionaries as insertion-ordered
 * association lists, since CPython dicts remember insertion order and the
 * key normaliser's result depends on it.
 */
module PyValues {
  import opened Wrappers

  /** A tuple element: a string, an integer or None. */
  datatype Atom = AStr(s: string) | AInt(i: int) | ANone

  /** A dictionary key or node identifier. */
  datatype Key = KStr(s: string) | KInt(i: int) | KNone | KTuple(elems: seq<Atom>)

  /** An attribute value: a leaf, a non-dict container (a list, never
      descended into by the normaliser) or a nested dictionary. */
  datatype Val = Leaf(a: Atom) | List(items: seq<Val>) | Dict(entries: seq<(Key, Val)>)

  /** A dictionary: its entries in insertion order. */
  type Entries = seq<(Key, Val)>

  /** The separator the graph utilities place between tuple elements. */
  const TupleSep: string := ",\n"

  // ---------------------------------------------------------------------
  // str() of keys

  function DigitChar(d: nat): (c: char)
    requires d < 10
    ensures '0' <= c <= '9'
  {
    "0123456789"[d]
  }

  /** Decimal text of a natural number, as Python's str prints it. */
  function NatText(n: nat): (s: string)
    ensures |s| > 0
    ensures forall i :: 0 <= i < |s| ==> '0' <= s[i] <= '9'
    decreases n
  {
    if n < 10 then [DigitChar(n)] else NatText(n / 10) + [DigitChar(n % 10)]
  }

  /** str(i) for an integer. */
  function IntText(i: int): (r: string)
  {
    if i < 0 then "-" + NatText(-i) else NatText(i)
  }

  /** str(x) for a tuple element. */
  function AtomText(a: Atom): (r: string)
  {
    match a
    case AStr(s) => s
    case AInt(i) => IntText(i)
    case ANone => "None"
  }

  /** sep.join(parts). */
  function Join(parts: seq<string>, sep: string): (s: string)
    ensures parts == [] ==> s == ""
    ensures |parts| == 1 ==> s == parts[0]
    decreases |parts|
  {
    if parts == [] then ""
    else if |parts| == 1 then parts[0]
    else parts[0] + sep + Join(parts[1..], sep)
  }

  /** ",\n".join(str(x) for x in t) for a tuple t. */
  function TupleText(elems: seq<Atom>): (r: string)
  {
    Join(seq(|elems|, i requires 0 <= i < |elems| => AtomText(elems[i])), TupleSep)
  }

  /** The text a key is turned into: a string stays itself, a tuple is joined
      with TupleSep, anything else goes through str(). */
  function KeyText(k: Key): (r: string)
  {
    match k
    case KStr(s) => s
    case KInt(i) => IntText(i)
    case KNone => "None"
    case KTuple(elems) => TupleText(elems)
  }

  /** The string key that replaces k; a string key is its own replacement. */
  function Renamed(k: Key): (r: Key)
    ensures r.KStr?
    ensures k.KStr? ==> r == k
  {
    KStr(KeyText(k))
  }

  // ---------------------------------------------------------------------
  // dictionaries as association lists

  function KeySet(e: Entries): (r: set<Key>)
  {
    set p | p in e :: p.0
  }

  /** Every key occurs once, as in any Python dict. */
  predicate DistinctKeys(e: Entries)
  {
    forall i, j :: 0 <= i < j < |e| ==> e[i].0 != e[j].0
  }

  /** How key sets and distinctness split over a first entry. */
  lemma ConsKeys(p: (Key, Val), e: Entries)
    ensures KeySet([p] + e) == {p.0} + KeySet(e)
    ensures DistinctKeys([p] + e) <==> p.0 !in KeySet(e) && DistinctKeys(e)
  {
    var c := [p] + e;
    assert c[1..] == e;
  }

  /** How key sets, distinctness and membership split over the first entry. */
  lemma Uncons(e: Entries)
    requires e != []
    ensures KeySet(e) == {e[0].0} + KeySet(e[1..])
    ensures DistinctKeys(e) <==> e[0].0 !in KeySet(e[1..]) && DistinctKeys(e[1..])
    ensures forall p :: p in e <==> p == e[0] || p in e[1..]
    ensures forall x :: e + [x] == [e[0]] + (e[1..] + [x])
  {
    ConsKeys(e[0], e[1..]);
    assert e == [e[0]] + e[1..];
  }

  /** d.get(k), as an option. */
  function Lookup(e: Entries, k: Key): (r: Option<Val>)
    ensures r.Some? <==> k in KeySet(e)
    ensures r.Some? ==> (k, r.value) in e
  {
    if e == [] then None
    else if e[0].0 == k then Some(e[0].1)
    else Lookup(e[1..], k)
  }

  /** d[k] = v: overwrites in place an existing key, appends a new one. */
  function Store(e: Entries, k: Key, v: Val): (r: Entries)
    ensures KeySet(r) == KeySet(e) + {k}
    ensures DistinctKeys(e) ==> DistinctKeys(r)
    ensures forall p :: p in r ==> p in e || p == (k, v)
    ensures k !in KeySet(e) ==> r == e + [(k, v)]
  {
    if e == [] then [(k, v)]
    else
      Uncons(e);
      if e[0].0 == k then ConsKeys((k, v), e[1..]); [(k, v)] + e[1..]
      else ConsKeys(e[0], Store(e[1..], k, v)); [e[0]] + Store(e[1..], k, v)
  }

  /** del d[k] (a key that is absent leaves the dictionary as it is). */
  function Delete(e: Entries, k: Key): (r: Entries)
    ensures KeySet(r) == KeySet(e) - {k}
    ensures DistinctKeys(e) ==> DistinctKeys(r)
    ensures forall p :: p in r ==> p in e
  {
    if e == [] then []
    else
      Uncons(e);
      if e[0].0 == k then Delete(e[1..], k)
      else ConsKeys(e[0], Delete(e[1..], k)); [e[0]] + Delete(e[1..], k)
  }

  /** After d[k] = v, k holds v and every other key what it held. */
  lemma {:induction false} StoreLookup(e: Entries, k: Key, v: Val, x: Key)
    ensures Lookup(Store(e, k, v), x) == if x == k then Some(v) else Lookup(e, x)
    decreases |e|
  {
    if e != [] && e[0].0 != k {
      StoreLookup(e[1..], k, v, x);
    }
  }

  /** After del d[k], k is absent and every other key holds what it held. */
  lemma {:induction false} DeleteLookup(e: Entries, k: Key, x: Key)
    ensures Lookup(Delete(e, k), x) == if x == k then None else Lookup(e, x)
    decreases |e|
  {
    if e != [] {
      DeleteLookup(e[1..], k, x);
    }
  }

  /** Updating an empty dictionary with one whose keys are distinct copies it. */
  lemma {:induction false} UpdateEmpty(e: Entries)
    requires DistinctKeys(e)
    ensures Update([], e) == e
  {
    UpdateAppends([], e);
  }

  /** Updating with fresh distinct keys appends them in order. */
  lemma {:induction false} UpdateAppends(e: Entries, other: Entries)
    requires DistinctKeys(e + other)
    ensures Update(e, other) == e + other
    decreases |other|
  {
    if other != [] {
      forall p | p in e ensures p.0 != other[0].0 {
        var i :| 0 <= i < |e| && e[i] == p;
        assert (e + other)[i] == p && (e + other)[|e|] == other[0];
      }
      assert e + other == (e + [other[0]]) + other[1..];
      UpdateAppends(e + [other[0]], other[1..]);
    }
  }

  /** Updating a string-keyed dictionary with a string-keyed one keeps every
      key a string. */
  lemma {:induction false} UpdateStrKeys(e: Entries, other: Entries)
    requires StrKeys(e) && StrKeys(other)
    ensures StrKeys(Update(e, other))
    decreases |other|
  {
    if other != [] {
      var e1 := Store(e, other[0].0, other[0].1);
      assert StrKeys(e1) by {
        forall i | 0 <= i < |e1| ensures e1[i].0.KStr? {
          assert e1[i] in e1;
          if e1[i] in e { var j :| 0 <= j < |e| && e[j] == e1[i]; }
        }
      }
      UpdateStrKeys(e1, other[1..]);
    }
  }

  /** d.update(other): every entry of other stored in order. */
  function Update(e: Entries, other: Entries): (r: Entries)
    ensures KeySet(r) == KeySet(e) + KeySet(other)
    ensures DistinctKeys(e) ==> DistinctKeys(r)
    decreases |other|
  {
    if other == [] then e
    else
      assert KeySet(other) == {other[0].0} + KeySet(other[1..]);
      Update(Store(e, other[0].0, other[0].1), other[1..])
  }

  /** After d.update(other), each key of other holds other's value and every
      other key holds what it held in d. */
  lemma {:induction false} UpdateLookup(e: Entries, other: Entries, k: Key)
    requires DistinctKeys(other)
    ensures Lookup(Update(e, other), k) == if k in KeySet(other) then Lookup(other, k) else Lookup(e, k)
    decreases |other|
  {
    if other != [] {
      Uncons(other);
      UpdateLookup(Store(e, other[0].0, other[0].1), other[1..], k);
      StoreLookup(e, other[0].0, other[0].1, k);
    }
  }

  /** Every key of a dictionary is a string (top level only). */
  predicate StrKeys(e: Entries)
  {
    forall i :: 0 <= i < |e| ==> e[i].0.KStr?
  }

  /** The entries whose key is a string, in their order: the attribute
      dictionary rebuilt by keeping only string keys. */
  function StringKeyed(e: Entries): (r: Entries)
    ensures forall p :: p in r <==> p in e && p.0.KStr?
    ensures StrKeys(r)
    ensures DistinctKeys(e) ==> DistinctKeys(r)
    ensures StrKeys(e) ==> r == e
    decreases |e|
  {
    if e == [] then []
    else
      var init, last := e[..|e| - 1], e[|e| - 1];
      assert e == init + [last];
      StringKeyed(init) + (if last.0.KStr? then [last] else [])
  }
}
