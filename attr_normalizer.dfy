/**
 * The attribute-key normaliser of graph_utils.py: every non-string key of a
 * (nested) attribute dictionary is replaced by its text, in place, at every
 * depth reached through dictionary values.
 *
 * One level is handled as the source does it: first the renames are listed
 * in the dictionary's order (old key, new key, value), then each is applied
 * as `del d[old]; d[new] = value`, which appends the new key or overwrites an
 * existing one. Only then are dictionary values normalised recursively.
 */
module AttrNormalizer {
  import opened Wrappers
  import opened PyValues
  import opened NxGraph

  /** A pending rename: old key, new key, value. */
  type Rename = (Key, Key, Val)

  /** The renames one pass over a dictionary collects, in its order, when
      `ren` gives the new key of a non-string key. */
  function RenamesBy(e: Entries, ren: Key -> Key): (reps: seq<Rename>)
    ensures forall t :: 0 <= t < |reps| ==>
              !reps[t].0.KStr? && reps[t].1 == ren(reps[t].0) && (reps[t].0, reps[t].2) in e
    decreases |e|
  {
    if e == [] then []
    else
      var last := e[|e| - 1];
      RenamesBy(e[..|e| - 1], ren) + (if last.0.KStr? then [] else [(last.0, ren(last.0), last.1)])
  }

  /** Applies the renames one after the other: delete the old key, store the
      value under the new one. */
  function ApplyRenames(e: Entries, reps: seq<Rename>): (r: Entries)
    decreases |reps|
  {
    if reps == [] then e
    else ApplyRenames(Store(Delete(e, reps[0].0), reps[0].1, reps[0].2), reps[1..])
  }

  /** One level of _fix_dict_recursively, before the recursion. */
  function FixLevel(e: Entries): (r: Entries)
    ensures DistinctKeys(e) ==> DistinctKeys(r)
    ensures forall p :: p in r ==> exists t :: 0 <= t < |e| && e[t].1 == p.1
  {
    var reps := RenamesBy(e, Renamed);
    var r := ApplyRenames(e, reps);
    ApplyRenamesEntries(e, reps);
    assert forall p :: p in r ==> exists t :: 0 <= t < |e| && e[t].1 == p.1 by {
      forall p | p in r ensures exists t :: 0 <= t < |e| && e[t].1 == p.1 {
        if p !in e {
          var t :| 0 <= t < |reps| && p == (reps[t].1, reps[t].2);
          assert (reps[t].0, reps[t].2) in e;
        }
      }
    }
    r
  }

  // ---------------------------------------------------------------------
  // The specification: normalise the values, then fix the level.

  /** The value a dictionary value becomes: dictionaries are normalised,
      anything else (a leaf, a list) is left alone. */
  function NormalizeVal(v: Val): (r: Val)
    decreases v, 3
  {
    match v
    case Dict(e) => Dict(NormalizeEntries(e))
    case _ => v
  }

  /** Every value of a dictionary normalised, keys left as they are. */
  function NormValues(e: Entries): (r: Entries)
    ensures |r| == |e|
    ensures forall i :: 0 <= i < |e| ==> r[i].0 == e[i].0
    decreases Dict(e), 1
  {
    seq(|e|, i requires 0 <= i < |e| => (e[i].0, NormalizeVal(e[i].1)))
  }

  /** The dictionary _fix_dict_recursively leaves behind. */
  function NormalizeEntries(e: Entries): (r: Entries)
    decreases Dict(e), 2
  {
    FixLevel(NormValues(e))
  }

  /** Every key of every dictionary reachable through dictionary values is
      a string. */
  predicate StrKeysDeep(v: Val)
    decreases v
  {
    match v
    case Dict(e) => forall i :: 0 <= i < |e| ==> e[i].0.KStr? && StrKeysDeep(e[i].1)
    case _ => true
  }

  // ---------------------------------------------------------------------
  // Renames, for any renaming that sends every key to a string key and
  // leaves string keys alone

  ghost predicate StringRenaming(ren: Key -> Key)
  {
    forall k :: ren(k).KStr? && (k.KStr? ==> ren(k) == k)
  }

  lemma RenamedIsStringRenaming()
    ensures StringRenaming(Renamed)
  {
  }

  /** No two keys of the set are renamed to the same key. */
  ghost predicate InjectiveOn(ren: Key -> Key, ks: set<Key>)
  {
    forall k1, k2 :: k1 in ks && k2 in ks && ren(k1) == ren(k2) ==> k1 == k2
  }

  /** Renames keep keys distinct, and every entry they leave is an old entry
      or a renamed one. */
  lemma {:induction false} ApplyRenamesEntries(e: Entries, reps: seq<Rename>)
    ensures DistinctKeys(e) ==> DistinctKeys(ApplyRenames(e, reps))
    ensures forall p :: p in ApplyRenames(e, reps) ==>
              p in e || exists t :: 0 <= t < |reps| && p == (reps[t].1, reps[t].2)
    decreases |reps|
  {
    if reps != [] {
      var e1 := Store(Delete(e, reps[0].0), reps[0].1, reps[0].2);
      ApplyRenamesEntries(e1, reps[1..]);
      forall p | p in ApplyRenames(e, reps)
        ensures p in e || exists t :: 0 <= t < |reps| && p == (reps[t].1, reps[t].2)
      {
        if p !in e1 {
          var t :| 0 <= t < |reps[1..]| && p == (reps[1..][t].1, reps[1..][t].2);
          assert p == (reps[t + 1].1, reps[t + 1].2);
        } else if p !in e {
          assert p == (reps[0].1, reps[0].2);
        }
      }
    }
  }

  function OldKeys(reps: seq<Rename>): (r: set<Key>)
  {
    set t | t in reps :: t.0
  }

  function NewKeys(reps: seq<Rename>): (r: set<Key>)
  {
    set t | t in reps :: t.1
  }

  lemma RenameKeysSplit(a: seq<Rename>, b: seq<Rename>)
    ensures OldKeys(a + b) == OldKeys(a) + OldKeys(b)
    ensures NewKeys(a + b) == NewKeys(a) + NewKeys(b)
  {
    assert forall t :: t in a + b <==> t in a || t in b;
  }

  lemma KeySetSplit(a: Entries, b: Entries)
    ensures KeySet(a + b) == KeySet(a) + KeySet(b)
  {
    assert forall p :: p in a + b <==> p in a || p in b;
  }

  /** Renaming non-string keys to string keys removes the old keys and adds
      the new ones. */
  lemma {:induction false} ApplyRenamesKeys(e: Entries, reps: seq<Rename>)
    requires forall t :: 0 <= t < |reps| ==> !reps[t].0.KStr? && reps[t].1.KStr?
    ensures KeySet(ApplyRenames(e, reps)) == KeySet(e) - OldKeys(reps) + NewKeys(reps)
    decreases |reps|
  {
    if reps != [] {
      ApplyRenamesKeys(Store(Delete(e, reps[0].0), reps[0].1, reps[0].2), reps[1..]);
      FirstRenameKeys(reps);
    }
  }

  /** The keys a list of renames removes and adds: those of its first
      rename and those of the rest. */
  lemma FirstRenameKeys(reps: seq<Rename>)
    requires reps != []
    requires forall t :: 0 <= t < |reps| ==> !reps[t].0.KStr? && reps[t].1.KStr?
    ensures OldKeys(reps) == {reps[0].0} + OldKeys(reps[1..])
    ensures NewKeys(reps) == {reps[0].1} + NewKeys(reps[1..])
    ensures reps[0].1 !in OldKeys(reps[1..])
  {
    assert reps == [reps[0]] + reps[1..];
    RenameKeysSplit([reps[0]], reps[1..]);
    assert OldKeys([reps[0]]) == {reps[0].0} && NewKeys([reps[0]]) == {reps[0].1};
  }

  /** The renames of a dictionary cover exactly its non-string keys. */
  lemma {:induction false} RenamesKeys(e: Entries, ren: Key -> Key)
    ensures OldKeys(RenamesBy(e, ren)) == set k | k in KeySet(e) && !k.KStr?
    ensures NewKeys(RenamesBy(e, ren)) == set k | k in KeySet(e) && !k.KStr? :: ren(k)
    decreases |e|
  {
    if e != [] {
      var init := e[..|e| - 1];
      var last := e[|e| - 1];
      RenamesKeys(init, ren);
      assert e == init + [last];
      KeySetSplit(init, [last]);
      assert KeySet([last]) == {last.0};
      var extra: seq<Rename> := if last.0.KStr? then [] else [(last.0, ren(last.0), last.1)];
      RenameKeysSplit(RenamesBy(init, ren), extra);
      assert OldKeys(extra) == if last.0.KStr? then {} else {last.0};
      assert NewKeys(extra) == if last.0.KStr? then {} else {ren(last.0)};
    }
  }

  /** A dictionary whose keys are already strings has nothing to rename. */
  lemma {:induction false} NothingToRename(e: Entries, ren: Key -> Key)
    requires StrKeys(e)
    ensures RenamesBy(e, ren) == []
    decreases |e|
  {
    if e != [] {
      NothingToRename(e[..|e| - 1], ren);
    }
  }

  /** Applying renames moves each value to its new key, provided no rename
      lands on a key that is still in use. */
  lemma {:induction false} ApplyRenamesLookup(e: Entries, reps: seq<Rename>, ren: Key -> Key)
    requires StringRenaming(ren)
    requires DistinctKeys(e)
    requires InjectiveOn(ren, KeySet(e))
    requires forall t :: 0 <= t < |reps| ==>
               !reps[t].0.KStr? && reps[t].1 == ren(reps[t].0) && Lookup(e, reps[t].0) == Some(reps[t].2)
    requires forall s, t :: 0 <= s < t < |reps| ==> reps[s].0 != reps[t].0
    requires forall k :: k in KeySet(e) && !k.KStr? ==> k in OldKeys(reps)
    ensures forall k :: k in KeySet(e) ==> Lookup(ApplyRenames(e, reps), ren(k)) == Lookup(e, k)
    decreases |reps|
  {
    if reps != [] {
      var o, n, v := reps[0].0, reps[0].1, reps[0].2;
      var e1 := Store(Delete(e, o), n, v);
      var rest := reps[1..];
      assert o in KeySet(e);
      assert n !in KeySet(e) - {o};
      assert KeySet(e1) == KeySet(e) - {o} + {n};
      forall x ensures Lookup(e1, x) == if x == n then Some(v) else if x == o then None else Lookup(e, x) {
        StoreLookup(Delete(e, o), n, v, x);
        DeleteLookup(e, o, x);
      }
      forall k1, k2 | k1 in KeySet(e1) && k2 in KeySet(e1) && ren(k1) == ren(k2)
        ensures k1 == k2
      {
      }
      forall t | 0 <= t < |rest|
        ensures Lookup(e1, rest[t].0) == Some(rest[t].2)
      {
        assert rest[t] == reps[t + 1];
      }
      forall s, t | 0 <= s < t < |rest| ensures rest[s].0 != rest[t].0 {
        assert rest[s] == reps[s + 1] && rest[t] == reps[t + 1];
      }
      forall k | k in KeySet(e1) && !k.KStr? ensures k in OldKeys(rest) {
        assert k in KeySet(e) && k != o;
        var t :| t in reps && t.0 == k;
        var i :| 0 <= i < |reps| && reps[i] == t;
        assert i != 0;
        assert rest[i - 1] == t;
      }
      ApplyRenamesLookup(e1, rest, ren);
      assert ApplyRenames(e, reps) == ApplyRenames(e1, rest);
      forall k | k in KeySet(e) ensures Lookup(ApplyRenames(e, reps), ren(k)) == Lookup(e, k) {
        if k != o {
          assert k in KeySet(e1);
          assert k != n;
        } else {
          assert ren(n) == n;
        }
      }
    }
  }

  /** Looking up in a dictionary extended by a fresh key. */
  lemma {:induction false} LookupAppend(e: Entries, p: (Key, Val))
    requires p.0 !in KeySet(e)
    ensures forall k :: k in KeySet(e) ==> Lookup(e + [p], k) == Lookup(e, k)
    ensures Lookup(e + [p], p.0) == Some(p.1)
    decreases |e|
  {
    if e != [] {
      assert (e + [p])[1..] == e[1..] + [p];
      LookupAppend(e[1..], p);
      assert KeySet(e) == {e[0].0} + KeySet(e[1..]);
    }
  }

  /** The renames of a dictionary with distinct keys name each of its
      non-string keys once, with the value it holds. */
  lemma {:induction false} RenamesOfDistinct(e: Entries, ren: Key -> Key)
    requires DistinctKeys(e)
    ensures forall t :: 0 <= t < |RenamesBy(e, ren)| ==>
              Lookup(e, RenamesBy(e, ren)[t].0) == Some(RenamesBy(e, ren)[t].2)
    ensures forall s, t :: 0 <= s < t < |RenamesBy(e, ren)| ==>
              RenamesBy(e, ren)[s].0 != RenamesBy(e, ren)[t].0
    decreases |e|
  {
    if e != [] {
      var init := e[..|e| - 1];
      DistinctInit(e);
      RenamesOfDistinct(init, ren);
      RenamesKeys(init, ren);
      var reps := RenamesBy(e, ren);
      var ri := RenamesBy(init, ren);
      forall t | 0 <= t < |reps| ensures Lookup(e, reps[t].0) == Some(reps[t].2) {
        if t < |ri| {
          assert reps[t] == ri[t];
          assert ri[t].0 in KeySet(init);
        }
      }
      forall s, t | 0 <= s < t < |reps| ensures reps[s].0 != reps[t].0 {
        if t >= |ri| {
          assert reps[s] == ri[s];
          assert ri[s] in ri;
          assert ri[s].0 in OldKeys(ri);
        }
      }
    }
  }

  /** A dictionary with distinct keys is its last entry appended to the
      others, under a key they do not hold. */
  lemma DistinctInit(e: Entries)
    requires e != [] && DistinctKeys(e)
    ensures DistinctKeys(e[..|e| - 1]) && e[|e| - 1].0 !in KeySet(e[..|e| - 1])
    ensures forall k :: k in KeySet(e[..|e| - 1]) ==> Lookup(e, k) == Lookup(e[..|e| - 1], k)
    ensures Lookup(e, e[|e| - 1].0) == Some(e[|e| - 1].1)
  {
    assert e == e[..|e| - 1] + [e[|e| - 1]];
    assert DistinctKeys(e[..|e| - 1]);
    LookupAppend(e[..|e| - 1], e[|e| - 1]);
  }

  /** In a dictionary with distinct keys, looking up the i-th key gives the
      i-th value. */
  lemma {:induction false} DistinctLookup(e: Entries, i: nat)
    requires DistinctKeys(e)
    requires i < |e|
    ensures Lookup(e, e[i].0) == Some(e[i].1)
    decreases i
  {
    if i > 0 {
      assert e[0].0 != e[i].0;
      assert e[1..][i - 1] == e[i];
      DistinctLookup(e[1..], i - 1);
    }
  }

  // ---------------------------------------------------------------------
  // One level

  /** After one level every key is a string, and the key set is the image of
      the old one under renaming. */
  lemma FixLevelKeys(e: Entries)
    ensures KeySet(FixLevel(e)) == set k | k in KeySet(e) :: Renamed(k)
    ensures StrKeys(FixLevel(e))
  {
    var reps := RenamesBy(e, Renamed);
    RenamesKeys(e, Renamed);
    ApplyRenamesKeys(e, reps);
    var r := FixLevel(e);
    assert KeySet(r) == set k | k in KeySet(e) :: Renamed(k) by {
      forall k | k in KeySet(e) ensures Renamed(k) in KeySet(r) {
        if k.KStr? { assert k !in OldKeys(reps); }
      }
    }
    forall i | 0 <= i < |r| ensures r[i].0.KStr? {
      assert r[i].0 in KeySet(r);
    }
  }

  /** A dictionary whose keys are already strings is left as it is. */
  lemma FixLevelOfStrKeys(e: Entries)
    requires StrKeys(e)
    ensures FixLevel(e) == e
  {
    NothingToRename(e, Renamed);
  }

  /** When no two keys share a text, every entry survives one level under
      its new key with its value. */
  lemma FixLevelLookup(e: Entries)
    requires DistinctKeys(e)
    requires InjectiveOn(Renamed, KeySet(e))
    ensures forall k :: k in KeySet(e) ==> Lookup(FixLevel(e), Renamed(k)) == Lookup(e, k)
  {
    RenamedIsStringRenaming();
    RenamesOfDistinct(e, Renamed);
    RenamesKeys(e, Renamed);
    ApplyRenamesLookup(e, RenamesBy(e, Renamed), Renamed);
  }

  // ---------------------------------------------------------------------
  // Renaming commutes with any change of values

  function MapValues(e: Entries, f: Val -> Val): (r: Entries)
    ensures |r| == |e|
  {
    seq(|e|, i requires 0 <= i < |e| => (e[i].0, f(e[i].1)))
  }

  function MapRenames(reps: seq<Rename>, f: Val -> Val): (r: seq<Rename>)
    ensures |r| == |reps|
  {
    seq(|reps|, t requires 0 <= t < |reps| => (reps[t].0, reps[t].1, f(reps[t].2)))
  }

  lemma {:induction false} MapValuesCons(p: (Key, Val), e: Entries, f: Val -> Val)
    ensures MapValues([p] + e, f) == [(p.0, f(p.1))] + MapValues(e, f)
  {
  }

  lemma {:induction false} DeleteMap(e: Entries, k: Key, f: Val -> Val)
    ensures Delete(MapValues(e, f), k) == MapValues(Delete(e, k), f)
    decreases |e|
  {
    if e != [] {
      assert e == [e[0]] + e[1..];
      MapValuesCons(e[0], e[1..], f);
      DeleteMap(e[1..], k, f);
      if e[0].0 != k {
        MapValuesCons(e[0], Delete(e[1..], k), f);
      }
    }
  }

  lemma {:induction false} StoreMap(e: Entries, k: Key, v: Val, f: Val -> Val)
    ensures Store(MapValues(e, f), k, f(v)) == MapValues(Store(e, k, v), f)
    decreases |e|
  {
    if e == [] {
      assert MapValues([(k, v)], f) == [(k, f(v))];
    } else {
      assert e == [e[0]] + e[1..];
      MapValuesCons(e[0], e[1..], f);
      if e[0].0 == k {
        MapValuesCons((k, v), e[1..], f);
      } else {
        StoreMap(e[1..], k, v, f);
        MapValuesCons(e[0], Store(e[1..], k, v), f);
      }
    }
  }

  lemma {:induction false} ApplyRenamesMap(e: Entries, reps: seq<Rename>, f: Val -> Val)
    ensures ApplyRenames(MapValues(e, f), MapRenames(reps, f)) == MapValues(ApplyRenames(e, reps), f)
    decreases |reps|
  {
    if reps != [] {
      var mr := MapRenames(reps, f);
      var o, n, v := reps[0].0, reps[0].1, reps[0].2;
      var e1 := Store(Delete(e, o), n, v);
      DeleteMap(e, o, f);
      StoreMap(Delete(e, o), n, v, f);
      assert mr[0] == (o, n, f(v));
      assert mr[1..] == MapRenames(reps[1..], f);
      ApplyRenamesMap(e1, reps[1..], f);
    }
  }

  lemma {:induction false} RenamesMap(e: Entries, ren: Key -> Key, f: Val -> Val)
    ensures RenamesBy(MapValues(e, f), ren) == MapRenames(RenamesBy(e, ren), f)
    decreases |e|
  {
    if e != [] {
      var init := e[..|e| - 1];
      assert MapValues(e, f)[..|e| - 1] == MapValues(init, f);
      RenamesMap(init, ren, f);
    }
  }

  /** Fixing one level and normalising the values may be done in either
      order: the source renames first and recurses afterwards. */
  lemma FixLevelCommutes(e: Entries)
    ensures FixLevel(NormValues(e)) == NormValues(FixLevel(e))
  {
    assert NormValues(e) == MapValues(e, NormalizeVal);
    assert NormValues(FixLevel(e)) == MapValues(FixLevel(e), NormalizeVal);
    RenamesMap(e, Renamed, NormalizeVal);
    ApplyRenamesMap(e, RenamesBy(e, Renamed), NormalizeVal);
  }

  // ---------------------------------------------------------------------
  // Properties of the normaliser

  /** After normalisation every key of every dict reached through dict
      values is a string. */
  lemma {:induction false} NormalizedKeysAreStrings(v: Val)
    ensures StrKeysDeep(NormalizeVal(v))
    decreases v
  {
    match v
    case Dict(e) =>
      var nv := NormValues(e);
      forall i | 0 <= i < |e| ensures StrKeysDeep(nv[i].1) {
        NormalizedKeysAreStrings(e[i].1);
      }
      var r := FixLevel(nv);
      FixLevelKeys(nv);
      forall i | 0 <= i < |r| ensures r[i].0.KStr? && StrKeysDeep(r[i].1) {
        assert r[i] in r;
      }
    case _ =>
  }

  /** A value whose keys are all strings already is left unchanged. */
  lemma {:induction false} NormalizeKeepsNormal(v: Val)
    requires StrKeysDeep(v)
    ensures NormalizeVal(v) == v
    decreases v
  {
    match v
    case Dict(e) =>
      forall i | 0 <= i < |e| ensures NormalizeVal(e[i].1) == e[i].1 {
        NormalizeKeepsNormal(e[i].1);
      }
      assert NormValues(e) == e;
      FixLevelOfStrKeys(e);
    case _ =>
  }

  /** Normalising twice is normalising once. */
  lemma NormalizeIdempotent(v: Val)
    ensures NormalizeVal(NormalizeVal(v)) == NormalizeVal(v)
  {
    NormalizedKeysAreStrings(v);
    NormalizeKeepsNormal(NormalizeVal(v));
  }

  /** The keys of a normalised dictionary are the texts of its old keys. */
  lemma NormalizeKeys(e: Entries)
    ensures KeySet(NormalizeEntries(e)) == set k | k in KeySet(e) :: Renamed(k)
  {
    var nv := NormValues(e);
    assert KeySet(nv) == KeySet(e) by {
      forall k | k in KeySet(e) ensures k in KeySet(nv) {
        var p :| p in e && p.0 == k;
        var i :| 0 <= i < |e| && e[i] == p;
        assert nv[i].0 == k;
      }
    }
    FixLevelKeys(nv);
  }

  /** When no two keys share a text, every entry keeps its (normalised)
      value under its new key; a string key keeps its own key. */
  lemma NormalizeKeepsEntries(e: Entries)
    requires DistinctKeys(e)
    requires InjectiveOn(Renamed, KeySet(e))
    ensures forall i :: 0 <= i < |e| ==>
              Lookup(NormalizeEntries(e), Renamed(e[i].0)) == Some(NormalizeVal(e[i].1))
  {
    var nv := NormValues(e);
    assert KeySet(nv) == KeySet(e) by {
      forall k | k in KeySet(e) ensures k in KeySet(nv) {
        var p :| p in e && p.0 == k;
        var i :| 0 <= i < |e| && e[i] == p;
        assert nv[i].0 == k;
      }
    }
    assert DistinctKeys(nv);
    FixLevelLookup(nv);
    forall i | 0 <= i < |e| ensures Lookup(nv, e[i].0) == Some(NormalizeVal(e[i].1)) {
      DistinctLookup(nv, i);
    }
  }

  /** A non-string key whose text equals an existing string key overwrites
      that entry: {"1": a, 1: b} becomes {"1": b}. */
  lemma RenamedKeyOverwrites(a: Val, b: Val)
    requires a.Leaf? && b.Leaf?
    ensures NormalizeEntries([(KStr("1"), a), (KInt(1), b)]) == [(KStr("1"), b)]
  {
    var e := [(KStr("1"), a), (KInt(1), b)];
    assert NormValues(e) == e;
    assert NatText(1) == "1";
    assert Renamed(KInt(1)) == KStr("1");
    assert RenamesBy(e, Renamed) == [(KInt(1), KStr("1"), b)] by {
      assert e[..1] == [(KStr("1"), a)];
      assert [(KStr("1"), a)][..0] == [];
      assert RenamesBy(e[..1], Renamed) == [];
    }
    assert e[1..] == [(KInt(1), b)] && e[1..][1..] == [];
    assert Delete(e[1..], KInt(1)) == [];
    assert Delete(e, KInt(1)) == [(KStr("1"), a)];
    assert Store([(KStr("1"), a)], KStr("1"), b) == [(KStr("1"), b)];
    assert ApplyRenames(e, [(KInt(1), KStr("1"), b)]) == ApplyRenames([(KStr("1"), b)], []);
  }

  // ---------------------------------------------------------------------
  // The operations

  /** _fix_dict_recursively(d): the dictionary d becomes afterwards. */
  method FixDictRecursively(d: Entries) returns (r: Entries)
    ensures r == NormalizeEntries(d)
    decreases Dict(d)
  {
    // collect the renames
    var replacements: seq<Rename> := [];
    var i := 0;
    while i < |d|
      invariant 0 <= i <= |d|
      invariant replacements == RenamesBy(d[..i], Renamed)
    {
      assert d[..i + 1][..i] == d[..i];
      if !d[i].0.KStr? {
        replacements := replacements + [(d[i].0, KStr(KeyText(d[i].0)), d[i].1)];
      }
      i := i + 1;
    }
    assert d[..|d|] == d;
    // perform them
    r := d;
    var j := 0;
    while j < |replacements|
      invariant 0 <= j <= |replacements|
      invariant ApplyRenames(r, replacements[j..]) == FixLevel(d)
    {
      var (oldKey, newKey, oldValue) := replacements[j];
      assert replacements[j..][1..] == replacements[j + 1..];
      r := Store(Delete(r, oldKey), newKey, oldValue);
      j := j + 1;
    }
    // recurse into dictionary values
    ghost var fixed := r;
    var k := 0;
    while k < |r|
      invariant 0 <= k <= |r| == |fixed|
      invariant forall t :: 0 <= t < k ==> r[t] == (fixed[t].0, NormalizeVal(fixed[t].1))
      invariant forall t :: k <= t < |r| ==> r[t] == fixed[t]
    {
      if r[k].1.Dict? {
        assert fixed[k] in fixed;
        ghost var t :| 0 <= t < |d| && d[t].1 == fixed[k].1;
        var sub := FixDictRecursively(r[k].1.entries);
        r := r[k := (r[k].0, Dict(sub))];
      }
      k := k + 1;
    }
    assert r == NormValues(fixed);
    FixLevelCommutes(d);
  }

  /** The edge attribute map after the dictionaries of es are normalised,
      one edge after the other. */
  ghost function FixEdges<N>(attrs: map<(N, N), Entries>, es: seq<(N, N)>): (r: map<(N, N), Entries>)
    ensures r.Keys == attrs.Keys
    decreases |es|
  {
    if es == [] then attrs
    else
      var m := FixEdges(attrs, es[..|es| - 1]);
      var e := es[|es| - 1];
      if e in m then m[e := NormalizeEntries(m[e])] else m
  }

  /** When no edge is listed twice, the listed edges have their dictionaries
      normalised once and every other edge keeps its dictionary. */
  lemma {:induction false} FixEdgesEach<N>(attrs: map<(N, N), Entries>, es: seq<(N, N)>)
    requires forall i, j :: 0 <= i < j < |es| ==> es[i] != es[j]
    ensures forall e :: e in attrs ==>
              FixEdges(attrs, es)[e] == if e in es then NormalizeEntries(attrs[e]) else attrs[e]
    decreases |es|
  {
    if es != [] {
      var init := es[..|es| - 1];
      var last := es[|es| - 1];
      FixEdgesEach(attrs, init);
      assert es == init + [last];
      assert last !in init by {
        forall j | 0 <= j < |init| ensures init[j] != last {
          assert init[j] == es[j];
        }
      }
    }
  }

  /** fix_nested_keys_in_edge_attrs(G): normalises every edge's attribute
      dictionary in place; nodes, node attributes and the edge list stay. */
  method FixNestedKeysInEdgeAttrs<N(==,!new)>(g: DiGraph<N>)
    requires g.Valid()
    modifies g
    ensures g.Valid()
    ensures g.nodes == old(g.nodes) && g.nodeAttrs == old(g.nodeAttrs) && g.edges == old(g.edges)
    ensures g.edgeAttrs.Keys == old(g.edgeAttrs.Keys)
    ensures forall e :: e in g.edgeAttrs ==> g.edgeAttrs[e] == NormalizeEntries(old(g.edgeAttrs)[e])
  {
    ghost var attrs0 := g.edgeAttrs;
    var edges := g.edges;
    for i := 0 to |edges|
      invariant g.nodes == old(g.nodes) && g.nodeAttrs == old(g.nodeAttrs) && g.edges == edges
      invariant g.edgeAttrs == FixEdges(attrs0, edges[..i])
    {
      var e := edges[i];
      assert e in attrs0;
      var fixed := FixDictRecursively(g.edgeAttrs[e]);
      g.edgeAttrs := g.edgeAttrs[e := fixed];
      assert edges[..i + 1][..i] == edges[..i];
    }
    assert edges[..|edges|] == edges;
    FixEdgesEach(attrs0, edges);
  }
}
