/**
 * cluster_by_similarity: a single greedy pass over the similarity table's
 * keys. Each key joins the first cluster whose representative (its first
 * member) it scores at least the threshold against, and otherwise starts a
 * cluster of its own.
 */
module Clustering {
  import opened Wrappers
  import opened SemanticMatrix

  type Clusters = seq<seq<string>>

  /** No cluster is empty. */
  ghost predicate NonEmpty(cs: Clusters)
  {
    forall k :: 0 <= k < |cs| ==> cs[k] != []
  }

  /** The representatives: the first member of each cluster. */
  function Heads(cs: Clusters): (r: seq<string>)
    requires NonEmpty(cs)
    ensures |r| == |cs| && forall k :: 0 <= k < |cs| ==> r[k] == cs[k][0]
  {
    seq(|cs|, k requires 0 <= k < |cs| => cs[k][0])
  }

  /** The inner for loop from position from of reps on: the index of the
      first representative that node scores at least th against, |reps| if
      there is none, and None when a score it reads is missing (KeyError). */
  function FirstFit(node: string, reps: seq<string>, score: map<(string, string), real>, th: real, from: nat)
    : (r: Option<nat>)
    requires from <= |reps|
    ensures r.Some? ==> from <= r.value <= |reps|
    decreases |reps| - from
  {
    if from == |reps| then Some(from)
    else if (node, reps[from]) !in score then None
    else if score[(node, reps[from])] >= th then Some(from)
    else FirstFit(node, reps, score, th, from + 1)
  }

  /** node scores below th against every representative before k. */
  ghost predicate BelowBefore(node: string, reps: seq<string>, score: map<(string, string), real>, th: real, k: nat)
    requires k <= |reps|
  {
    forall j :: 0 <= j < k ==> (node, reps[j]) in score && score[(node, reps[j])] < th
  }

  /** The first-fit rule: node goes to cluster k exactly when it scores below
      th against every earlier representative and, unless k is a new
      cluster, at least th against representative k. */
  lemma {:induction false} FirstFitIsFirst(node: string, reps: seq<string>, score: map<(string, string), real>, th: real,
                                           from: nat, k: nat)
    requires from <= k <= |reps|
    requires BelowBefore(node, reps, score, th, from)
    ensures FirstFit(node, reps, score, th, from) == Some(k) <==>
              && BelowBefore(node, reps, score, th, k)
              && (k < |reps| ==> (node, reps[k]) in score && score[(node, reps[k])] >= th)
    decreases |reps| - from
  {
    if from < |reps| && (node, reps[from]) in score && score[(node, reps[from])] < th {
      assert BelowBefore(node, reps, score, th, from + 1);
      if from < k {
        FirstFitIsFirst(node, reps, score, th, from + 1, k);
      }
    }
  }

  /** The scan fails exactly when, before any representative reaches th, it
      meets one whose score is missing. */
  lemma {:induction false} FirstFitFails(node: string, reps: seq<string>, score: map<(string, string), real>, th: real,
                                         from: nat)
    requires from <= |reps|
    requires BelowBefore(node, reps, score, th, from)
    ensures FirstFit(node, reps, score, th, from).None? <==>
              exists j :: from <= j < |reps| && BelowBefore(node, reps, score, th, j) && (node, reps[j]) !in score
    decreases |reps| - from
  {
    if from < |reps| {
      if (node, reps[from]) !in score {
      } else if score[(node, reps[from])] >= th {
        forall j | from <= j < |reps| ensures (node, reps[j]) in score || !BelowBefore(node, reps, score, th, j) {
          if j > from {
            assert !(score[(node, reps[from])] < th);
          }
        }
      } else {
        assert BelowBefore(node, reps, score, th, from + 1);
        FirstFitFails(node, reps, score, th, from + 1);
      }
    }
  }

  /** Puts node into cluster k, or into a new cluster when k == |cs|. */
  function Place(cs: Clusters, k: nat, node: string): (r: Clusters)
    requires k <= |cs|
  {
    if k == |cs| then cs + [[node]] else cs[k := cs[k] + [node]]
  }

  /** The clusters of the first |keys| keys, or None if a lookup failed. */
  function ClusterKeys(keys: seq<string>, score: map<(string, string), real>, th: real): (r: Option<Clusters>)
    ensures r.Some? ==> NonEmpty(r.value)
    decreases |keys|
  {
    if keys == [] then Some([])
    else
      match ClusterKeys(keys[..|keys| - 1], score, th)
      case None => None
      case Some(cs) =>
        var node := keys[|keys| - 1];
        match FirstFit(node, Heads(cs), score, th, 0)
        case None => None
        case Some(k) => Some(Place(cs, k, node))
  }

  /** cluster_by_similarity(similarity, threshold). */
  function Cluster(m: Similarity, th: real): (r: Option<Clusters>)
  {
    ClusterKeys(m.keys, m.score, th)
  }

  /** Once a lookup fails, no longer key list recovers. */
  lemma {:induction false} FailurePersists(keys: seq<string>, i: nat, score: map<(string, string), real>, th: real)
    requires i <= |keys| && ClusterKeys(keys[..i], score, th).None?
    ensures ClusterKeys(keys, score, th).None?
    decreases |keys| - i
  {
    if i < |keys| {
      assert keys[..i + 1][..i] == keys[..i];
      FailurePersists(keys, i + 1, score, th);
    } else {
      assert keys[..i] == keys;
    }
  }

  /** The inner loop of cluster_by_similarity for one node: the index of
      the cluster it joins, found with an early exit, or |reps| when the
      placed flag stays down and a new cluster is due; None when a score it
      reads is missing. */
  method ScanReps(node: string, reps: seq<string>, score: map<(string, string), real>, th: real)
    returns (res: Option<nat>)
    ensures res == FirstFit(node, reps, score, th, 0)
  {
    var placed := false;
    var idx := 0;
    while idx < |reps|
      invariant idx <= |reps| && !placed
      invariant FirstFit(node, reps, score, th, idx) == FirstFit(node, reps, score, th, 0)
    {
      var repNode := reps[idx];
      if (node, repNode) !in score {
        return None;
      }
      if score[(node, repNode)] >= th {
        placed := true;
        break;
      }
      idx := idx + 1;
    }
    if placed {
      res := Some(idx);
    } else {
      res := Some(|reps|);
    }
  }

  /** The clustering pass: clusters and reps grow node by node. */
  method ClusterBySimilarity(m: Similarity, th: real) returns (r: Option<Clusters>)
    ensures r == Cluster(m, th)
  {
    var clusters: Clusters := [];
    var reps: seq<string> := [];
    var allNodes := m.keys;
    for i := 0 to |allNodes|
      invariant ClusterKeys(allNodes[..i], m.score, th) == Some(clusters)
      invariant reps == Heads(clusters)
    {
      var node := allNodes[i];
      assert allNodes[..i + 1][..i] == allNodes[..i];
      var k := ScanReps(node, reps, m.score, th);
      if k.None? {
        FailurePersists(allNodes, i + 1, m.score, th);
        return None;
      }
      clusters := Place(clusters, k.value, node);
      if k.value == |reps| {
        reps := reps + [node];
      }
    }
    assert allNodes[..|allNodes|] == allNodes;
    r := Some(clusters);
  }

  /** The members of the clusters, with multiplicity. */
  function Members(cs: Clusters): (r: multiset<string>)
    decreases |cs|
  {
    if cs == [] then multiset{} else Members(cs[..|cs| - 1]) + multiset(cs[|cs| - 1])
  }

  lemma {:induction false} MembersPlace(cs: Clusters, k: nat, node: string)
    requires k <= |cs|
    ensures Members(Place(cs, k, node)) == Members(cs) + multiset{node}
    decreases |cs|
  {
    var r := Place(cs, k, node);
    if k == |cs| {
      assert r[..|r| - 1] == cs;
      assert Members(r) == Members(cs) + multiset([node]);
    } else if k == |cs| - 1 {
      assert r[..|r| - 1] == cs[..|cs| - 1];
      assert r[|r| - 1] == cs[k] + [node];
      assert multiset(cs[k] + [node]) == multiset(cs[k]) + multiset{node};
    } else {
      var init := cs[..|cs| - 1];
      assert r[..|r| - 1] == Place(init, k, node);
      assert r[|r| - 1] == cs[|cs| - 1];
      MembersPlace(init, k, node);
    }
  }

  /** Clustering partitions the keys: every key lands in the clusters once
      per occurrence, and nothing else does. */
  lemma {:induction false} ClustersPartition(keys: seq<string>, score: map<(string, string), real>, th: real)
    requires ClusterKeys(keys, score, th).Some?
    ensures Members(ClusterKeys(keys, score, th).value) == multiset(keys)
    decreases |keys|
  {
    if keys != [] {
      var cs, k := ClusterKeysStep(keys, score, th);
      ClustersPartition(keys[..|keys| - 1], score, th);
      PartitionStep(cs, k, keys);
    }
  }

  /** A successful run on keys extends a successful run on all but the
      last key by placing that key at position k. */
  lemma ClusterKeysStep(keys: seq<string>, score: map<(string, string), real>, th: real) returns (cs: Clusters, k: nat)
    requires keys != [] && ClusterKeys(keys, score, th).Some?
    ensures ClusterKeys(keys[..|keys| - 1], score, th) == Some(cs)
    ensures k <= |cs| && ClusterKeys(keys, score, th).value == Place(cs, k, keys[|keys| - 1])
  {
    cs := ClusterKeys(keys[..|keys| - 1], score, th).value;
    k := FirstFit(keys[|keys| - 1], Heads(cs), score, th, 0).value;
  }

  lemma PartitionStep(cs: Clusters, k: nat, keys: seq<string>)
    requires keys != [] && k <= |cs| && Members(cs) == multiset(keys[..|keys| - 1])
    ensures Members(Place(cs, k, keys[|keys| - 1])) == multiset(keys)
  {
    MembersPlace(cs, k, keys[|keys| - 1]);
    assert keys == keys[..|keys| - 1] + [keys[|keys| - 1]];
  }

  /** Position of the first occurrence of x in xs, |xs| if there is none. */
  function Pos(xs: seq<string>, x: string): (r: nat)
    ensures r <= |xs| && (r < |xs| <==> x in xs) && (r < |xs| ==> xs[r] == x)
    decreases |xs|
  {
    if xs == [] then 0
    else if x in xs[..|xs| - 1] then Pos(xs[..|xs| - 1], x)
    else if xs[|xs| - 1] == x then |xs| - 1
    else |xs|
  }

  /** Every cluster lists its members in key order, and the clusters come
      in the key order of their representatives. */
  ghost predicate InKeyOrder(cs: Clusters, keys: seq<string>)
    requires NonEmpty(cs)
  {
    MembersInOrder(cs, keys) && RepsInOrder(cs, keys)
  }

  ghost predicate MembersInOrder(cs: Clusters, keys: seq<string>)
  {
    forall k, a, b :: 0 <= k < |cs| && 0 <= a < b < |cs[k]| ==> Pos(keys, cs[k][a]) < Pos(keys, cs[k][b])
  }

  ghost predicate RepsInOrder(cs: Clusters, keys: seq<string>)
    requires NonEmpty(cs)
  {
    forall k, l :: 0 <= k < l < |cs| ==> Pos(keys, cs[k][0]) < Pos(keys, cs[l][0])
  }

  /** Every member of cs is in keys. */
  ghost predicate Within(cs: Clusters, keys: seq<string>)
  {
    forall k, a :: 0 <= k < |cs| && 0 <= a < |cs[k]| ==> cs[k][a] in keys
  }

  lemma WithinMembers(cs: Clusters, keys: seq<string>)
    requires Members(cs) <= multiset(keys)
    ensures Within(cs, keys)
  {
    forall k, a | 0 <= k < |cs| && 0 <= a < |cs[k]| ensures cs[k][a] in keys {
      MemberIn(cs, k, a);
    }
  }

  lemma {:induction false} MemberIn(cs: Clusters, k: nat, a: nat)
    requires k < |cs| && a < |cs[k]|
    ensures cs[k][a] in Members(cs)
    decreases |cs|
  {
    if k < |cs| - 1 {
      MemberIn(cs[..|cs| - 1], k, a);
    }
  }

  /** Positions in keys of earlier keys do not move when a key is added. */
  lemma PosExtend(p: seq<string>, node: string, x: string)
    requires x in p
    ensures Pos(p + [node], x) == Pos(p, x)
  {
    assert (p + [node])[..|p|] == p;
  }

  /** Adding a key after the members of cs keeps their order. */
  lemma OrderExtend(cs: Clusters, p: seq<string>, node: string)
    requires NonEmpty(cs) && Within(cs, p) && InKeyOrder(cs, p)
    ensures InKeyOrder(cs, p + [node])
    ensures forall k, a :: 0 <= k < |cs| && 0 <= a < |cs[k]| ==> Pos(p + [node], cs[k][a]) < |p|
  {
    forall k, a | 0 <= k < |cs| && 0 <= a < |cs[k]| ensures Pos(p + [node], cs[k][a]) == Pos(p, cs[k][a]) < |p| {
      PosExtend(p, node, cs[k][a]);
    }
  }

  /** Placing a key that comes after every member keeps the order. */
  lemma PlaceInOrder(cs: Clusters, k: nat, node: string, keys: seq<string>)
    requires NonEmpty(cs) && k <= |cs| && InKeyOrder(cs, keys)
    requires forall k', a :: 0 <= k' < |cs| && 0 <= a < |cs[k']| ==> Pos(keys, cs[k'][a]) < Pos(keys, node)
    ensures NonEmpty(Place(cs, k, node)) && InKeyOrder(Place(cs, k, node), keys)
  {
    PlaceMembersInOrder(cs, k, node, keys);
    PlaceRepsInOrder(cs, k, node, keys);
  }

  lemma PlaceMembersInOrder(cs: Clusters, k: nat, node: string, keys: seq<string>)
    requires k <= |cs| && MembersInOrder(cs, keys)
    requires forall k', a :: 0 <= k' < |cs| && 0 <= a < |cs[k']| ==> Pos(keys, cs[k'][a]) < Pos(keys, node)
    ensures MembersInOrder(Place(cs, k, node), keys)
  {
    var r := Place(cs, k, node);
    forall k', a, b | 0 <= k' < |r| && 0 <= a < b < |r[k']| ensures Pos(keys, r[k'][a]) < Pos(keys, r[k'][b]) {
      if k' == k {
        if k < |cs| {
          assert r[k'][a] == cs[k'][a];
          if b < |cs[k']| {
            assert r[k'][b] == cs[k'][b];
          }
        }
      } else {
        assert r[k'] == cs[k'];
      }
    }
  }

  lemma PlaceRepsInOrder(cs: Clusters, k: nat, node: string, keys: seq<string>)
    requires NonEmpty(cs) && k <= |cs| && RepsInOrder(cs, keys)
    requires forall k' :: 0 <= k' < |cs| ==> Pos(keys, cs[k'][0]) < Pos(keys, node)
    ensures NonEmpty(Place(cs, k, node)) && RepsInOrder(Place(cs, k, node), keys)
  {
    var r := Place(cs, k, node);
    forall k', l | 0 <= k' < l < |r| ensures Pos(keys, r[k'][0]) < Pos(keys, r[l][0]) {
      assert r[k'][0] == cs[k'][0];
      if l < |cs| {
        assert r[l][0] == cs[l][0];
      }
    }
  }

  /** No element of s occurs twice. */
  ghost predicate Distinct(s: seq<string>)
  {
    forall a, b :: 0 <= a < b < |s| ==> s[a] != s[b]
  }

  /** The last of distinct keys is not among the earlier ones. */
  lemma LastIsNew(keys: seq<string>)
    requires keys != [] && forall i, j :: 0 <= i < j < |keys| ==> keys[i] != keys[j]
    ensures keys[|keys| - 1] !in keys[..|keys| - 1]
    ensures Distinct(keys[..|keys| - 1])
  {
    var p := keys[..|keys| - 1];
    forall j | 0 <= j < |p| ensures p[j] != keys[|keys| - 1] {
      assert p[j] == keys[j];
    }
  }

  /** Placing a new key keeps clusters in key order. */
  lemma KeyOrderStep(cs: Clusters, p: seq<string>, node: string, k: nat)
    requires NonEmpty(cs) && Within(cs, p) && InKeyOrder(cs, p)
    requires node !in p && k <= |cs|
    ensures NonEmpty(Place(cs, k, node)) && InKeyOrder(Place(cs, k, node), p + [node])
  {
    var keys := p + [node];
    assert keys[..|p|] == p;
    assert Pos(keys, node) == |p|;
    OrderExtend(cs, p, node);
    PlaceInOrder(cs, k, node, keys);
  }

  /** For distinct keys, the clusters list their members in key order. */
  lemma {:induction false} ClustersInKeyOrder(keys: seq<string>, score: map<(string, string), real>, th: real)
    requires forall i, j :: 0 <= i < j < |keys| ==> keys[i] != keys[j]
    requires ClusterKeys(keys, score, th).Some?
    ensures InKeyOrder(ClusterKeys(keys, score, th).value, keys)
    decreases |keys|
  {
    if keys != [] {
      var p := keys[..|keys| - 1];
      var node := keys[|keys| - 1];
      assert keys == p + [node];
      LastIsNew(keys);
      ClustersInKeyOrder(p, score, th);
      var cs := ClusterKeys(p, score, th).value;
      ClustersPartition(p, score, th);
      WithinMembers(cs, p);
      var k := FirstFit(node, Heads(cs), score, th, 0).value;
      KeyOrderStep(cs, p, node, k);
    }
  }

  /** The first-fit rule, over the whole result: every member scores at
      least th against its cluster's representative, and every member,
      representative or not, scores below th against the representative of
      every earlier cluster. */
  ghost predicate FirstFitHolds(cs: Clusters, score: map<(string, string), real>, th: real)
    requires NonEmpty(cs)
  {
    && (forall k, a :: 0 <= k < |cs| && 0 < a < |cs[k]| ==>
          (cs[k][a], cs[k][0]) in score && score[(cs[k][a], cs[k][0])] >= th)
    && (forall k, a, l :: 0 <= l < k < |cs| && 0 <= a < |cs[k]| ==>
          (cs[k][a], cs[l][0]) in score && score[(cs[k][a], cs[l][0])] < th)
  }

  lemma {:induction false} ClustersFirstFit(keys: seq<string>, score: map<(string, string), real>, th: real)
    requires ClusterKeys(keys, score, th).Some?
    ensures FirstFitHolds(ClusterKeys(keys, score, th).value, score, th)
    decreases |keys|
  {
    if keys != [] {
      var p := keys[..|keys| - 1];
      var node := keys[|keys| - 1];
      ClustersFirstFit(p, score, th);
      var cs := ClusterKeys(p, score, th).value;
      var reps := Heads(cs);
      var k := FirstFit(node, reps, score, th, 0).value;
      FirstFitIsFirst(node, reps, score, th, 0, k);
      var r := Place(cs, k, node);
      assert Heads(r)[..|cs|] == reps;
    }
  }

  /** The keys of category c, in key order. */
  function OfCategory(keys: seq<string>, cat: string -> Category, c: Category): (r: seq<string>)
    ensures forall x :: x in r ==> x in keys && cat(x) == c
    decreases |keys|
  {
    if keys == [] then []
    else
      var p := OfCategory(keys[..|keys| - 1], cat, c);
      if cat(keys[|keys| - 1]) == c then p + [keys[|keys| - 1]] else p
  }

  /** The categories present in keys, each once, in order of first appearance. */
  function CategoryOrder(keys: seq<string>, cat: string -> Category): (r: seq<Category>)
    ensures forall i, j :: 0 <= i < j < |r| ==> r[i] != r[j]
    ensures forall c :: c in r <==> OfCategory(keys, cat, c) != []
    decreases |keys|
  {
    if keys == [] then []
    else
      var p := CategoryOrder(keys[..|keys| - 1], cat);
      var c := cat(keys[|keys| - 1]);
      if c in p then p else p + [c]
  }

  /** The category groups of keys: one cluster per category present, in
      order of first appearance, holding that category's keys in key order. */
  function CategoryGroups(keys: seq<string>, cat: string -> Category): (r: Clusters)
    ensures NonEmpty(r)
  {
    var o := CategoryOrder(keys, cat);
    assert forall j :: 0 <= j < |o| ==> o[j] in o;
    seq(|o|, k requires 0 <= k < |o| => OfCategory(keys, cat, o[k]))
  }

  /** Where first-fit puts a key of category c: the group of c, or a new
      group at the end. */
  function GroupIndex(o: seq<Category>, c: Category): (k: nat)
    ensures k <= |o| && (k < |o| <==> c in o) && (k < |o| ==> o[k] == c)
    ensures forall j :: 0 <= j < k ==> o[j] != c
  {
    if o == [] then 0
    else if o[0] == c then 0
    else 1 + GroupIndex(o[1..], c)
  }

  /** Adding a key to the category groups is placing it at its GroupIndex. */
  lemma GroupsPlace(p: seq<string>, node: string, cat: string -> Category)
    ensures
      var o := CategoryOrder(p, cat);
      Place(CategoryGroups(p, cat), GroupIndex(o, cat(node)), node) == CategoryGroups(p + [node], cat)
  {
    var keys := p + [node];
    assert keys[..|keys| - 1] == p;
    var o := CategoryOrder(p, cat);
    var k := GroupIndex(o, cat(node));
    var g := CategoryGroups(p, cat);
    var r := Place(g, k, node);
    var g' := CategoryGroups(keys, cat);
    if k < |o| {
      assert |r| == |g'|;
      forall j | 0 <= j < |r| ensures r[j] == g'[j] {
        if j == k {
          assert o[j] == cat(node);
        } else {
          assert o[j] != cat(node);
        }
      }
    } else {
      assert cat(node) !in o;
      assert OfCategory(p, cat, cat(node)) == [];
      assert |r| == |g'|;
      forall j | 0 <= j < |r| ensures r[j] == g'[j] {
        if j < |o| {
          assert o[j] != cat(node);
        }
      }
    }
  }

  /** The first member of each group is of the group's category. */
  lemma GroupHeads(p: seq<string>, cat: string -> Category)
    ensures forall j :: 0 <= j < |CategoryOrder(p, cat)| ==>
      CategoryGroups(p, cat)[j][0] in p && cat(CategoryGroups(p, cat)[j][0]) == CategoryOrder(p, cat)[j]
  {
    var o := CategoryOrder(p, cat);
    forall j | 0 <= j < |o| ensures CategoryGroups(p, cat)[j] != [] {
      assert o[j] in o;
    }
    forall j | 0 <= j < |o| ensures CategoryGroups(p, cat)[j][0] in OfCategory(p, cat, o[j]) {
      assert o[j] in o;
    }
  }

  /** Scores that separate the categories at th: two different keys reach
      th exactly when they share a category. */
  ghost predicate SeparatesAt(keys: seq<string>, score: map<(string, string), real>, th: real, cat: string -> Category)
  {
    forall a, b :: a in keys && b in keys && a != b ==>
      (a, b) in score && (score[(a, b)] >= th <==> cat(a) == cat(b))
  }

  /** A new key meets the representatives in order and stops at the one of
      its own category. */
  lemma FitsOwnGroup(p: seq<string>, node: string, score: map<(string, string), real>, th: real,
                     cat: string -> Category)
    requires node !in p && SeparatesAt(p + [node], score, th, cat)
    ensures FirstFit(node, Heads(CategoryGroups(p, cat)), score, th, 0)
              == Some(GroupIndex(CategoryOrder(p, cat), cat(node)))
  {
    GroupHeads(p, cat);
    var o := CategoryOrder(p, cat);
    var reps := Heads(CategoryGroups(p, cat));
    var k := GroupIndex(o, cat(node));
    var keys := p + [node];
    assert node in keys;
    forall j | 0 <= j < |reps| ensures (node, reps[j]) in score && (score[(node, reps[j])] >= th <==> o[j] == cat(node)) {
      var a := reps[j];
      assert a in p && cat(a) == o[j];
      assert a in keys && a != node;
    }
    FirstFitIsFirst(node, reps, score, th, 0, k);
  }

  /** With scores that separate the categories, clustering returns exactly
      the category groups, in order of first appearance. */
  lemma {:induction false} ClustersAreCategoryGroups(keys: seq<string>, score: map<(string, string), real>, th: real,
                                                     cat: string -> Category)
    requires forall i, j :: 0 <= i < j < |keys| ==> keys[i] != keys[j]
    requires SeparatesAt(keys, score, th, cat)
    ensures ClusterKeys(keys, score, th) == Some(CategoryGroups(keys, cat))
    decreases |keys|
  {
    if keys != [] {
      var p := keys[..|keys| - 1];
      var node := keys[|keys| - 1];
      assert keys == p + [node];
      assert SeparatesAt(p, score, th, cat) by {
        forall a, b | a in p && b in p && a != b ensures (a, b) in score && (score[(a, b)] >= th <==> cat(a) == cat(b)) {
          assert a in keys && b in keys;
        }
      }
      LastIsNew(keys);
      ClustersAreCategoryGroups(p, score, th, cat);
      FitsOwnGroup(p, node, score, th, cat);
      GroupsPlace(p, node, cat);
    } else {
      assert CategoryGroups(keys, cat) == [];
    }
  }

  /** Two grouped keys share a cluster exactly when they share a category. */
  lemma GroupsSeparateCategories(keys: seq<string>, cat: string -> Category)
    ensures var g := CategoryGroups(keys, cat);
      forall k, l, a, b :: 0 <= k < |g| && 0 <= l < |g| && 0 <= a < |g[k]| && 0 <= b < |g[l]| ==>
        (k == l <==> cat(g[k][a]) == cat(g[l][b]))
  {
    var g := CategoryGroups(keys, cat);
    var o := CategoryOrder(keys, cat);
    forall k, a | 0 <= k < |g| && 0 <= a < |g[k]| ensures cat(g[k][a]) == o[k] {
      assert g[k][a] in OfCategory(keys, cat, o[k]);
    }
  }

  lemma {:induction false} NoneOfCategory(keys: seq<string>, cat: string -> Category, c: Category)
    requires forall i :: 0 <= i < |keys| ==> cat(keys[i]) != c
    ensures OfCategory(keys, cat, c) == []
    decreases |keys|
  {
    if keys != [] {
      NoneOfCategory(keys[..|keys| - 1], cat, c);
    }
  }

  /** Keys of pairwise different categories each form a cluster of their own. */
  lemma {:induction false} DistinctCategoriesAreSingletons(keys: seq<string>, cat: string -> Category)
    requires forall i, j :: 0 <= i < j < |keys| ==> cat(keys[i]) != cat(keys[j])
    ensures CategoryGroups(keys, cat) == seq(|keys|, i requires 0 <= i < |keys| => [keys[i]])
    decreases |keys|
  {
    if keys == [] {
      assert CategoryGroups(keys, cat) == [];
    } else {
      var p := keys[..|keys| - 1];
      var node := keys[|keys| - 1];
      assert keys == p + [node];
      DistinctCategoriesAreSingletons(p, cat);
      var o := CategoryOrder(p, cat);
      forall i | 0 <= i < |p| ensures cat(p[i]) != cat(node) {
        assert p[i] == keys[i];
      }
      NoneOfCategory(p, cat, cat(node));
      assert GroupIndex(o, cat(node)) == |o|;
      GroupsPlace(p, node, cat);
    }
  }

  /** Clustering only fails on a missing score: with a score for every
      pair of keys it always returns clusters. */
  lemma {:induction false} CompleteScoresNeverFail(keys: seq<string>, score: map<(string, string), real>, th: real)
    requires forall a, b :: a in keys && b in keys ==> (a, b) in score
    ensures ClusterKeys(keys, score, th).Some?
    decreases |keys|
  {
    if keys != [] {
      var p := keys[..|keys| - 1];
      var node := keys[|keys| - 1];
      assert keys == p + [node];
      CompleteScoresNeverFail(p, score, th);
      var cs := ClusterKeys(p, score, th).value;
      ClustersPartition(p, score, th);
      WithinMembers(cs, p);
      var reps := Heads(cs);
      forall j | 0 <= j < |reps| ensures (node, reps[j]) in score {
        assert reps[j] == cs[j][0] && reps[j] in p;
      }
      FirstFitFails(node, reps, score, th, 0);
    }
  }

  /** On a table built by build_semantic_matrix, clustering at 0.7 returns
      exactly the category groups, in order of first appearance. */
  lemma SemanticClusters(m: Similarity, nodes: seq<string>)
    requires IsSemanticMatrix(m, nodes)
    ensures Cluster(m, 0.7) == Some(CategoryGroups(m.keys, CategoryOf))
  {
    forall a, b | a in m.keys && b in m.keys && a != b
      ensures (a, b) in m.score && (m.score[(a, b)] >= 0.7 <==> CategoryOf(a) == CategoryOf(b))
    {
      AboveThresholdIffSameCategory(m.score, a, b);
    }
    ClustersAreCategoryGroups(m.keys, m.score, 0.7, CategoryOf);
  }
}
