/**
 * to_pyvis_compatible: a copy of a DiGraph whose node ids are strings and
 * whose node and edge attribute dictionaries keep only their string keys,
 * so that the pyvis renderer accepts it.
 */
module GraphSanitizer {
  import opened Wrappers
  import opened PyValues
  import opened NxGraph

  /** The id a node gets in the copy: a string stays as it is, a tuple is
      joined with ",\n" over str() of its items. Any other key is not
      iterable, so the join raises TypeError: None. */
  function PyvisId(k: Key): (r: Option<string>)
    ensures r.Some? <==> k.KStr? || k.KTuple?
    ensures k.KStr? ==> r == Some(k.s)
  {
    match k
    case KStr(s) => Some(s)
    case KTuple(elems) => Some(TupleText(elems))
    case _ => None
  }

  /** A node id in the copy is the text the attribute normaliser gives the
      same key, so both utilities name a tuple node the same way. */
  lemma PyvisIdAgreesWithRenamed(k: Key)
    requires PyvisId(k).Some?
    ensures Renamed(k) == KStr(PyvisId(k).value)
  {
  }

  /** A pair of strings becomes one two-line label. */
  lemma PyvisIdOfPair()
    ensures PyvisId(KTuple([AStr("X"), AStr("Y")])) == Some("X,\nY")
  {
    var es := [AStr("X"), AStr("Y")];
    var parts := seq(|es|, i requires 0 <= i < |es| => AtomText(es[i]));
    assert parts[0] == "X" && parts[1] == "Y";
    assert parts == ["X", "Y"];
    assert TupleText(es) == Join(parts, TupleSep);
    assert parts[1..] == ["Y"];
    assert Join(parts, TupleSep) == "X" + TupleSep + Join(["Y"], TupleSep);
    assert TupleText(es) == "X,\nY";
  }

  /** The new attribute dictionary: the items whose key is a string, in
      their original order. */
  method KeepStringKeys(d: Entries) returns (r: Entries)
    requires DistinctKeys(d)
    ensures r == StringKeyed(d)
  {
    r := [];
    for i := 0 to |d|
      invariant r == StringKeyed(d[..i])
    {
      KeepStep(d, i);
      if d[i].0.KStr? {
        r := Store(r, d[i].0, d[i].1);
      }
    }
    assert d[..|d|] == d;
  }

  /** One more entry of a dictionary with distinct keys: a string key is
      stored as a new key, any other key is skipped. */
  lemma KeepStep(d: Entries, i: nat)
    requires DistinctKeys(d) && i < |d|
    ensures StringKeyed(d[..i + 1]) ==
      if d[i].0.KStr? then Store(StringKeyed(d[..i]), d[i].0, d[i].1) else StringKeyed(d[..i])
  {
    assert d[..i + 1] == d[..i] + [d[i]];
    assert d[..i + 1][..i] == d[..i];
    if d[i].0.KStr? {
      assert d[i].0 !in KeySet(StringKeyed(d[..i])) by {
        forall p | p in d[..i] ensures p.0 != d[i].0 {
          var j :| 0 <= j < i && d[..i][j] == p;
        }
      }
    }
  }

  /** The ids of an edge's endpoints, when both have one. */
  function EdgeId(e: (Key, Key)): (r: Option<(string, string)>)
    ensures r.Some? <==> PyvisId(e.0).Some? && PyvisId(e.1).Some?
    ensures r.Some? ==> Some(r.value.0) == PyvisId(e.0) && Some(r.value.1) == PyvisId(e.1)
  {
    if PyvisId(e.0).Some? && PyvisId(e.1).Some? then Some((PyvisId(e.0).value, PyvisId(e.1).value)) else None
  }

  /** The first i items of xs all convert, to keys of attrs. */
  ghost predicate Covered<A, B>(xs: seq<A>, i: nat, conv: A -> Option<B>, attrs: map<B, Entries>)
  {
    i <= |xs| && forall j :: 0 <= j < i ==> conv(xs[j]).Some? && conv(xs[j]).value in attrs
  }

  /** Every key of attrs is the conversion of one of the first i items of xs. */
  ghost predicate Sourced<A, B>(xs: seq<A>, i: nat, conv: A -> Option<B>, attrs: map<B, Entries>)
  {
    i <= |xs| && forall y :: y in attrs ==> exists j :: 0 <= j < i && conv(xs[j]) == Some(y)
  }

  /** Every attribute dictionary of the copy has only string keys. */
  ghost predicate StrKeyed<B>(attrs: map<B, Entries>)
  {
    forall y :: y in attrs ==> StrKeys(attrs[y])
  }

  /** No two items of xs convert to the same value. */
  ghost predicate Injective<A, B>(xs: seq<A>, conv: A -> Option<B>)
  {
    forall j1, j2 :: 0 <= j1 < j2 < |xs| ==> conv(xs[j1]) != conv(xs[j2])
  }

  /** ys is the conversion of the first i items of xs, item by item, and
      each carries the string-keyed part of its original attributes. */
  ghost predicate Mirrors<A, B>(xs: seq<A>, i: nat, conv: A -> Option<B>, src: map<A, Entries>,
                                        ys: seq<B>, attrs: map<B, Entries>)
  {
    && i <= |xs| && |ys| == i
    && forall j :: 0 <= j < i ==>
         && conv(xs[j]) == Some(ys[j])
         && xs[j] in src && ys[j] in attrs
         && attrs[ys[j]] == StringKeyed(src[xs[j]])
  }

  /** Merging the next converted item into the copy keeps it covered,
      sourced and string-keyed. */
  lemma CopyStep<A, B>(xs: seq<A>, i: nat, conv: A -> Option<B>, attrs: map<B, Entries>, y: B, data: Entries)
    requires i < |xs| && conv(xs[i]) == Some(y) && StrKeys(data)
    requires Covered(xs, i, conv, attrs) && Sourced(xs, i, conv, attrs) && StrKeyed(attrs)
    ensures var attrs' := attrs[y := Update(if y in attrs then attrs[y] else [], data)];
      Covered(xs, i + 1, conv, attrs') && Sourced(xs, i + 1, conv, attrs') && StrKeyed(attrs')
  {
    var old' := if y in attrs then attrs[y] else [];
    var v := Update(old', data);
    UpdateStrKeys(old', data);
    CoveredStep(xs, i, conv, attrs, y, v);
    SourcedStep(xs, i, conv, attrs, y, v);
  }

  lemma CoveredStep<A, B>(xs: seq<A>, i: nat, conv: A -> Option<B>, attrs: map<B, Entries>, y: B, v: Entries)
    requires i < |xs| && conv(xs[i]) == Some(y) && Covered(xs, i, conv, attrs)
    ensures Covered(xs, i + 1, conv, attrs[y := v])
  {
  }

  lemma SourcedStep<A, B>(xs: seq<A>, i: nat, conv: A -> Option<B>, attrs: map<B, Entries>, y: B, v: Entries)
    requires i < |xs| && conv(xs[i]) == Some(y) && Sourced(xs, i, conv, attrs)
    ensures Sourced(xs, i + 1, conv, attrs[y := v])
  {
    forall z | z in attrs[y := v] ensures exists j :: 0 <= j < i + 1 && conv(xs[j]) == Some(z) {
      if z == y {
        assert conv(xs[i]) == Some(z);
      } else {
        var j :| 0 <= j < i && conv(xs[j]) == Some(z);
        assert 0 <= j < i + 1;
      }
    }
  }

  /** Under injectivity the next item's conversion is not in the copy yet. */
  lemma FreshId<A, B>(xs: seq<A>, i: nat, conv: A -> Option<B>, attrs: map<B, Entries>, y: B)
    requires i < |xs| && conv(xs[i]) == Some(y)
    requires Sourced(xs, i, conv, attrs) && Injective(xs, conv)
    ensures y !in attrs
  {
    forall z | z in attrs ensures z != y {
      var j :| 0 <= j < i && conv(xs[j]) == Some(z);
      assert conv(xs[j]) != conv(xs[i]);
    }
  }

  /** A new conversion is appended with exactly its string-keyed attributes. */
  lemma MirrorStep<A, B>(xs: seq<A>, i: nat, conv: A -> Option<B>, src: map<A, Entries>,
                         ys: seq<B>, attrs: map<B, Entries>, y: B)
    requires i < |xs| && conv(xs[i]) == Some(y) && xs[i] in src && y !in attrs
    requires Mirrors(xs, i, conv, src, ys, attrs)
    ensures Mirrors(xs, i + 1, conv, src, ys + [y], attrs[y := StringKeyed(src[xs[i]])])
  {
    var ys', attrs' := ys + [y], attrs[y := StringKeyed(src[xs[i]])];
    forall j | 0 <= j < i + 1
      ensures conv(xs[j]) == Some(ys'[j]) && xs[j] in src && ys'[j] in attrs'
      ensures attrs'[ys'[j]] == StringKeyed(src[xs[j]])
    {
      if j < i {
        assert ys'[j] == ys[j] && ys[j] in attrs;
      }
    }
  }

  /** The first i items of xs are copied: each converts to a key of attrs,
      every key of attrs comes from one of them, every copied dictionary has
      string keys, and when no two items collide the copy mirrors them. */
  ghost predicate CopiedSoFar<A, B>(xs: seq<A>, i: nat, conv: A -> Option<B>, src: map<A, Entries>,
                                    ys: seq<B>, attrs: map<B, Entries>)
  {
    && Covered(xs, i, conv, attrs) && Sourced(xs, i, conv, attrs) && StrKeyed(attrs)
    && (Injective(xs, conv) ==> Mirrors(xs, i, conv, src, ys, attrs))
  }

  /** Merging the string-keyed attributes of the next item into the copy
      (adding its id to ys when it is new) copies one more item. */
  lemma CopyNext<A, B>(xs: seq<A>, i: nat, conv: A -> Option<B>, src: map<A, Entries>,
                       ys: seq<B>, attrs: map<B, Entries>, y: B, data: Entries,
                       ys': seq<B>, attrs': map<B, Entries>)
    requires i < |xs| && conv(xs[i]) == Some(y) && xs[i] in src && DistinctKeys(src[xs[i]])
    requires data == StringKeyed(src[xs[i]])
    requires CopiedSoFar(xs, i, conv, src, ys, attrs)
    requires ys' == if y in attrs then ys else ys + [y]
    requires attrs' == attrs[y := Update(if y in attrs then attrs[y] else [], data)]
    ensures CopiedSoFar(xs, i + 1, conv, src, ys', attrs')
  {
    CopyStep(xs, i, conv, attrs, y, data);
    if Injective(xs, conv) {
      FreshId(xs, i, conv, attrs, y);
      MirrorStep(xs, i, conv, src, ys, attrs, y);
      UpdateEmpty(data);
    }
  }

  /** The parameter names of add_node and add_edge (the bound graph
      included): a keyword argument with one of these names clashes with the
      positional argument of that name, and the call raises TypeError. */
  const NodeParams: set<string> := {"self", "node_for_adding"}
  const EdgeParams: set<string> := {"self", "u_of_edge", "v_of_edge"}

  /** Passing d as **kwargs binds no string key to one of params. */
  predicate KwargsFit(d: Entries, params: set<string>)
  {
    forall p :: p in d && p.0.KStr? ==> p.0.s !in params
  }

  /** Keeping only the string keys does not change whether a dict fits. */
  lemma KwargsFitKept(d: Entries, params: set<string>)
    ensures KwargsFit(StringKeyed(d), params) <==> KwargsFit(d, params)
  {
  }

  /** The call add_node("a", **{"self": 1}) raises TypeError. */
  lemma SelfKwargClashes()
    ensures !KwargsFit([(KStr("self"), Leaf(AInt(1)))], NodeParams)
    ensures KwargsFit([(KStr("label"), Leaf(AInt(1)))], NodeParams)
  {
    var p := (KStr("self"), Leaf(AInt(1)));
    assert p in [p];
  }

  /** Every node of g has a pyvis id. */
  ghost predicate IdsConvert(g: DiGraph<Key>)
    reads g
  {
    forall k :: k in g.nodeAttrs ==> PyvisId(k).Some?
  }

  /** Every node's attributes can be passed to add_node as keyword arguments. */
  ghost predicate NodeKwargsFit(g: DiGraph<Key>)
    reads g
  {
    forall k :: k in g.nodeAttrs ==> KwargsFit(g.nodeAttrs[k], NodeParams)
  }

  /** Every edge's attributes can be passed to add_edge as keyword arguments. */
  ghost predicate EdgeKwargsFit(g: DiGraph<Key>)
    reads g
  {
    forall e :: e in g.edgeAttrs ==> KwargsFit(g.edgeAttrs[e], EdgeParams)
  }

  /** to_pyvis_compatible(g) raises no TypeError: every node has a pyvis id
      and no kept attribute key clashes with a parameter name. */
  ghost predicate Convertible(g: DiGraph<Key>)
    reads g
  {
    IdsConvert(g) && NodeKwargsFit(g) && EdgeKwargsFit(g)
  }

  /** The first i nodes of g are nodes whose attributes fit add_node. */
  ghost predicate NodesFit(g: DiGraph<Key>, i: nat)
    reads g
  {
    i <= |g.nodes| && forall j :: 0 <= j < i ==> g.nodes[j] in g.nodeAttrs && KwargsFit(g.nodeAttrs[g.nodes[j]], NodeParams)
  }

  /** The first i edges of g are edges whose attributes fit add_edge. */
  ghost predicate EdgesFit(g: DiGraph<Key>, i: nat)
    reads g
  {
    i <= |g.edges| && forall j :: 0 <= j < i ==> g.edges[j] in g.edgeAttrs && KwargsFit(g.edgeAttrs[g.edges[j]], EdgeParams)
  }

  /** No two nodes of g get the same pyvis id. */
  ghost predicate CollisionFree(g: DiGraph<Key>)
    reads g
  {
    Injective(g.nodes, PyvisId)
  }

  /** h holds the converted nodes and edges of g and nothing else, and
      every attribute key in h is a string. */
  ghost predicate SanitizedCopy(g: DiGraph<Key>, h: DiGraph<string>)
    reads g, h
  {
    && Covered(g.nodes, |g.nodes|, PyvisId, h.nodeAttrs) && Sourced(g.nodes, |g.nodes|, PyvisId, h.nodeAttrs)
    && Covered(g.edges, |g.edges|, EdgeId, h.edgeAttrs) && Sourced(g.edges, |g.edges|, EdgeId, h.edgeAttrs)
    && StrKeyed(h.nodeAttrs) && StrKeyed(h.edgeAttrs)
  }

  /** h lists the nodes and edges of g in the same order, each under its
      pyvis id and with the string-keyed part of its attributes. */
  ghost predicate OrderedCopy(g: DiGraph<Key>, h: DiGraph<string>)
    reads g, h
  {
    && Mirrors(g.nodes, |g.nodes|, PyvisId, g.nodeAttrs, h.nodes, h.nodeAttrs)
    && Mirrors(g.edges, |g.edges|, EdgeId, g.edgeAttrs, h.edges, h.edgeAttrs)
  }

  /** Distinct edges between collision-free nodes keep distinct ids. */
  lemma EdgeIdsInjective(g: DiGraph<Key>)
    requires g.Valid() && IdsConvert(g) && CollisionFree(g)
    ensures Injective(g.edges, EdgeId)
  {
    forall j1, j2 | 0 <= j1 < j2 < |g.edges| ensures EdgeId(g.edges[j1]) != EdgeId(g.edges[j2]) {
      var e1, e2 := g.edges[j1], g.edges[j2];
      assert e1 in g.edgeAttrs && e2 in g.edgeAttrs;
      if e1.0 != e2.0 {
        DistinctIds(g, e1.0, e2.0);
      } else {
        DistinctIds(g, e1.1, e2.1);
      }
    }
  }

  /** Under collision freedom, distinct nodes have distinct pyvis ids. */
  lemma DistinctIds(g: DiGraph<Key>, k1: Key, k2: Key)
    requires g.Valid() && CollisionFree(g)
    requires k1 in g.nodeAttrs && k2 in g.nodeAttrs && k1 != k2
    ensures PyvisId(k1) != PyvisId(k2)
  {
    var j1 :| 0 <= j1 < |g.nodes| && g.nodes[j1] == k1;
    var j2 :| 0 <= j2 < |g.nodes| && g.nodes[j2] == k2;
    if j1 < j2 {
      assert PyvisId(g.nodes[j1]) != PyvisId(g.nodes[j2]);
    } else {
      assert PyvisId(g.nodes[j2]) != PyvisId(g.nodes[j1]);
    }
  }

  /** to_pyvis_compatible(G). Fails (TypeError) exactly when some node is
      neither a string nor a tuple, or some kept attribute key is a parameter
      name of add_node or add_edge. */
  method ToPyvisCompatible(g: DiGraph<Key>) returns (res: Option<DiGraph<string>>)
    requires g.Valid() && g.AttrsAreDicts()
    ensures res.None? <==> !Convertible(g)
    ensures res.Some? ==> fresh(res.value) && res.value.Valid() && SanitizedCopy(g, res.value)
    ensures res.Some? && CollisionFree(g) ==> OrderedCopy(g, res.value)
  {
    var h := new DiGraph<string>();
    var ok := CopyNodes(g, h);
    if !ok {
      return None;
    }
    ok := CopyEdges(g, h);
    if !ok {
      return None;
    }
    return Some(h);
  }

  /** Step 1 of to_pyvis_compatible: every node with its string-keyed
      attributes, under its pyvis id. */
  method CopyNodes(g: DiGraph<Key>, h: DiGraph<string>) returns (ok: bool)
    requires g.Valid() && g.AttrsAreDicts()
    requires h.Valid() && h.nodes == [] && h.nodeAttrs == map[] && h.edges == [] && h.edgeAttrs == map[]
    modifies h
    ensures ok <==> IdsConvert(g) && NodeKwargsFit(g)
    ensures h.Valid() && h.edges == [] && h.edgeAttrs == map[]
    ensures ok ==> CopiedSoFar(g.nodes, |g.nodes|, PyvisId, g.nodeAttrs, h.nodes, h.nodeAttrs)
  {
    for i := 0 to |g.nodes|
      invariant h.Valid() && h.edges == [] && h.edgeAttrs == map[]
      invariant CopiedSoFar(g.nodes, i, PyvisId, g.nodeAttrs, h.nodes, h.nodeAttrs)
      invariant NodesFit(g, i)
    {
      ok := CopyNode(g, h, i);
      if !ok {
        NodeBlocks(g, i);
        return;
      }
      NodesFitStep(g, i);
    }
    ok := true;
    CoveredConvertible(g, h.nodeAttrs);
  }

  /** One pass of the node loop of to_pyvis_compatible. */
  method CopyNode(g: DiGraph<Key>, h: DiGraph<string>, i: nat) returns (ok: bool)
    requires g.Valid() && g.AttrsAreDicts() && i < |g.nodes|
    requires h.Valid() && h.edges == [] && h.edgeAttrs == map[]
    requires CopiedSoFar(g.nodes, i, PyvisId, g.nodeAttrs, h.nodes, h.nodeAttrs)
    modifies h
    ensures g.nodes[i] in g.nodeAttrs
    ensures ok <==> PyvisId(g.nodes[i]).Some? && KwargsFit(g.nodeAttrs[g.nodes[i]], NodeParams)
    ensures h.Valid() && h.edges == [] && h.edgeAttrs == map[]
    ensures ok ==> CopiedSoFar(g.nodes, i + 1, PyvisId, g.nodeAttrs, h.nodes, h.nodeAttrs)
  {
    assert g as object != h as object;
    var k := g.nodes[i];
    assert k in g.nodeAttrs;
    var id := PyvisId(k);
    if id.None? {
      return false;
    }
    var data := KeepStringKeys(g.nodeAttrs[k]);
    KwargsFitKept(g.nodeAttrs[k], NodeParams);
    if !KwargsFit(data, NodeParams) {
      return false;
    }
    ghost var ys, attrs := h.nodes, h.nodeAttrs;
    h.AddNode(id.value, data);
    CopyNext(g.nodes, i, PyvisId, g.nodeAttrs, ys, attrs, id.value, data, h.nodes, h.nodeAttrs);
    ok := true;
  }

  /** When every node in the list converts and fits add_node, every node
      of the graph does. */
  lemma CoveredConvertible(g: DiGraph<Key>, attrs: map<string, Entries>)
    requires g.Valid() && Covered(g.nodes, |g.nodes|, PyvisId, attrs) && NodesFit(g, |g.nodes|)
    ensures IdsConvert(g) && NodeKwargsFit(g)
  {
    forall k | k in g.nodeAttrs ensures PyvisId(k).Some? && KwargsFit(g.nodeAttrs[k], NodeParams) {
      var j :| 0 <= j < |g.nodes| && g.nodes[j] == k;
    }
  }

  /** A listed node without an id, or whose attributes clash with add_node's
      parameters, makes the graph inconvertible. */
  lemma NodeBlocks(g: DiGraph<Key>, i: nat)
    requires i < |g.nodes| && g.nodes[i] in g.nodeAttrs
    requires !(PyvisId(g.nodes[i]).Some? && KwargsFit(g.nodeAttrs[g.nodes[i]], NodeParams))
    ensures !(IdsConvert(g) && NodeKwargsFit(g))
  {
  }

  lemma NodesFitStep(g: DiGraph<Key>, i: nat)
    requires NodesFit(g, i) && i < |g.nodes| && g.nodes[i] in g.nodeAttrs
    requires KwargsFit(g.nodeAttrs[g.nodes[i]], NodeParams)
    ensures NodesFit(g, i + 1)
  {
  }

  /** A listed edge whose attributes clash with add_edge's parameters makes
      the graph inconvertible. */
  lemma EdgeBlocks(g: DiGraph<Key>, i: nat)
    requires i < |g.edges| && g.edges[i] in g.edgeAttrs
    requires !KwargsFit(g.edgeAttrs[g.edges[i]], EdgeParams)
    ensures !EdgeKwargsFit(g)
  {
  }

  lemma EdgesFitStep(g: DiGraph<Key>, i: nat)
    requires EdgesFit(g, i) && i < |g.edges| && g.edges[i] in g.edgeAttrs
    requires KwargsFit(g.edgeAttrs[g.edges[i]], EdgeParams)
    ensures EdgesFit(g, i + 1)
  {
  }

  /** When every edge in the list fits add_edge, every edge of the graph does. */
  lemma ListedEdgesFit(g: DiGraph<Key>)
    requires g.Valid() && EdgesFit(g, |g.edges|)
    ensures EdgeKwargsFit(g)
  {
    forall e | e in g.edgeAttrs ensures KwargsFit(g.edgeAttrs[e], EdgeParams) {
      var j :| 0 <= j < |g.edges| && g.edges[j] == e;
    }
  }

  /** Step 2 of to_pyvis_compatible: every edge between the converted
      endpoints, with its string-keyed attributes. */
  method CopyEdges(g: DiGraph<Key>, h: DiGraph<string>) returns (ok: bool)
    requires g.Valid() && g.AttrsAreDicts()
    requires h.Valid() && h.edges == [] && h.edgeAttrs == map[]
    requires IdsConvert(g) && Covered(g.nodes, |g.nodes|, PyvisId, h.nodeAttrs)
    modifies h
    ensures ok <==> EdgeKwargsFit(g)
    ensures h.Valid()
    ensures h.nodes == old(h.nodes) && h.nodeAttrs == old(h.nodeAttrs)
    ensures ok ==> CopiedSoFar(g.edges, |g.edges|, EdgeId, g.edgeAttrs, h.edges, h.edgeAttrs)
    ensures CollisionFree(g) ==> Injective(g.edges, EdgeId)
  {
    assert g as object != h as object;
    if CollisionFree(g) {
      EdgeIdsInjective(g);
    }
    for i := 0 to |g.edges|
      invariant h.Valid()
      invariant h.nodes == old(h.nodes) && h.nodeAttrs == old(h.nodeAttrs)
      invariant CopiedSoFar(g.edges, i, EdgeId, g.edgeAttrs, h.edges, h.edgeAttrs)
      invariant EdgesFit(g, i)
    {
      ok := CopyEdge(g, h, i);
      if !ok {
        EdgeBlocks(g, i);
        return;
      }
      EdgesFitStep(g, i);
    }
    ok := true;
    ListedEdgesFit(g);
  }

  /** One pass of the edge loop of to_pyvis_compatible. */
  method CopyEdge(g: DiGraph<Key>, h: DiGraph<string>, i: nat) returns (ok: bool)
    requires g.Valid() && g.AttrsAreDicts() && i < |g.edges|
    requires IdsConvert(g) && Covered(g.nodes, |g.nodes|, PyvisId, h.nodeAttrs)
    requires h.Valid() && CopiedSoFar(g.edges, i, EdgeId, g.edgeAttrs, h.edges, h.edgeAttrs)
    modifies h
    ensures g.edges[i] in g.edgeAttrs
    ensures ok <==> KwargsFit(g.edgeAttrs[g.edges[i]], EdgeParams)
    ensures h.Valid()
    ensures h.nodes == old(h.nodes) && h.nodeAttrs == old(h.nodeAttrs)
    ensures ok ==> CopiedSoFar(g.edges, i + 1, EdgeId, g.edgeAttrs, h.edges, h.edgeAttrs)
  {
    assert g as object != h as object;
    var e := g.edges[i];
    EdgeEnds(g, h.nodeAttrs, i);
    var id := EdgeId(e).value;
    var data := KeepStringKeys(g.edgeAttrs[e]);
    KwargsFitKept(g.edgeAttrs[e], EdgeParams);
    if !KwargsFit(data, EdgeParams) {
      return false;
    }
    ghost var ys, attrs := h.edges, h.edgeAttrs;
    h.AddEdge(id.0, id.1, data);
    CopyNext(g.edges, i, EdgeId, g.edgeAttrs, ys, attrs, id, data, h.edges, h.edgeAttrs);
    ok := true;
  }

  /** Every edge of a convertible graph has an id, whose ends are nodes of
      a copy that covers the graph's nodes. */
  lemma EdgeEnds(g: DiGraph<Key>, attrs: map<string, Entries>, i: nat)
    requires g.Valid() && IdsConvert(g) && Covered(g.nodes, |g.nodes|, PyvisId, attrs)
    requires i < |g.edges|
    ensures g.edges[i] in g.edgeAttrs && EdgeId(g.edges[i]).Some?
    ensures EdgeId(g.edges[i]).value.0 in attrs && EdgeId(g.edges[i]).value.1 in attrs
  {
    var e := g.edges[i];
    assert e in g.edgeAttrs;
    var j0 :| 0 <= j0 < |g.nodes| && g.nodes[j0] == e.0;
    var j1 :| 0 <= j1 < |g.nodes| && g.nodes[j1] == e.1;
  }
}
