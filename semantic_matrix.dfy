/**
 * build_semantic_matrix: a symmetric table of similarity scores between
 * node labels, where a score depends only on whether the two labels share
 * one of the fixed metric categories.
 */
module SemanticMatrix {

  /** The categories get_category can return. */
  datatype Category = QueryMetrics | ResultMetrics | TimeMetrics | StructureMetrics | Other

  const QueryLabels: seq<string> := ["QueryTemplate"]
  const ResultLabels: seq<string> := ["ReturnedRows", "ReturnedBytes", "ResultCacheHit"]
  const TimeLabels: seq<string> := ["ExecTime", "CompileTime", "PlanTime", "LockWaitTime", "ElapsedTime"]
  const StructureLabels: seq<string> := ["NumJoins", "NumTables", "NumColumns"]

  /** get_category(n). */
  function CategoryOf(name: string): (r: Category)
  {
    if name in QueryLabels then QueryMetrics
    else if name in ResultLabels then ResultMetrics
    else if name in TimeLabels then TimeMetrics
    else if name in StructureLabels then StructureMetrics
    else Other
  }

  /** A label's category is the list it is in, whichever order the lists
      are searched (no label is in two lists), and Other for any label in
      none of them. */
  lemma CategoryTable(name: string)
    ensures CategoryOf(name) == QueryMetrics <==> name in QueryLabels
    ensures CategoryOf(name) == ResultMetrics <==> name in ResultLabels
    ensures CategoryOf(name) == TimeMetrics <==> name in TimeLabels
    ensures CategoryOf(name) == StructureMetrics <==> name in StructureLabels
    ensures CategoryOf(name) == Other <==> name !in QueryLabels + ResultLabels + TimeLabels + StructureLabels
  {
  }

  /** The similarity dict of dicts: the outer keys in insertion order, and
      similarity[a][b] as score[(a, b)] for every pair that has one. */
  datatype Similarity = Similarity(keys: seq<string>, score: map<(string, string), real>)

  /** keys lists the outer dict's keys once each. */
  ghost predicate IsDict(m: Similarity)
  {
    forall i, j :: 0 <= i < j < |m.keys| ==> m.keys[i] != m.keys[j]
  }

  /** A score between a and b is 1.0 on the diagonal, in [0.8, 1.0] for
      two labels of one category and in [0.0, 0.6] otherwise. */
  ghost predicate InRange(a: string, b: string, x: real)
  {
    InRangeFor(a, b, x, CategoryOf(a) == CategoryOf(b))
  }

  /** InRange, given whether a and b share a category. */
  ghost predicate InRangeFor(a: string, b: string, x: real, same: bool)
  {
    if a == b then x == 1.0
    else if same then 0.8 <= x <= 1.0
    else 0.0 <= x <= 0.6
  }

  /** Every score present is in range and mirrored across the diagonal. */
  ghost predicate Consistent(score: map<(string, string), real>)
  {
    forall p {:trigger score[p]} :: p in score ==>
      && (p.1, p.0) in score
      && score[(p.1, p.0)] == score[p]
      && InRange(p.0, p.1, score[p])
  }

  /** Every pair of keys has a score, and only pairs of keys do. */
  ghost predicate Complete(m: Similarity)
  {
    forall a, b :: (a, b) in m.score <==> a in m.keys && b in m.keys
  }

  /** The matrix build_semantic_matrix returns for nodes. */
  ghost predicate IsSemanticMatrix(m: Similarity, nodes: seq<string>)
  {
    && m.keys == Dedup(nodes)
    && IsDict(m)
    && Complete(m)
    && Consistent(m.score)
  }

  /** The keys of {node: ... for node in nodes}: first occurrences, in order. */
  function Dedup(xs: seq<string>): (r: seq<string>)
    ensures forall x :: x in r <==> x in xs
    ensures forall i, j :: 0 <= i < j < |r| ==> r[i] != r[j]
  {
    if xs == [] then []
    else
      var d := Dedup(xs[..|xs| - 1]);
      assert forall x :: x in xs <==> x in xs[..|xs| - 1] || x == xs[|xs| - 1];
      if xs[|xs| - 1] in d then d else d + [xs[|xs| - 1]]
  }

  /** random.uniform(lo, hi) for a draw x of random.random(). */
  function Uniform(lo: real, hi: real, x: real): (r: real)
    requires lo <= hi && 0.0 <= x <= 1.0
    ensures lo <= r <= hi
  {
    var w := hi - lo;
    ScaleWithin(w, x);
    lo + w * x
  }

  lemma ScaleWithin(w: real, x: real)
    requires 0.0 <= w && 0.0 <= x <= 1.0
    ensures 0.0 <= w * x <= w
  {
    assert w * (1.0 - x) == w - w * x;
    assert 0.0 <= w * (1.0 - x);
  }

  /** cats records the category of each of its keys. */
  ghost predicate CategoriesOf(cats: map<string, Category>)
  {
    forall n {:trigger CategoryOf(n)} :: n in cats ==> cats[n] == CategoryOf(n)
  }

  /** The category of each of nodes, computed once. */
  ghost function CategoryMap(nodes: seq<string>): (cats: map<string, Category>)
    ensures CategoriesOf(cats) && forall n :: n in cats <==> n in nodes
  {
    map n | n in nodes :: CategoryOf(n)
  }

  /** Consistent, with categories read from cats. */
  ghost predicate ScoredBy(score: map<(string, string), real>, cats: map<string, Category>)
  {
    forall p {:trigger score[p]} :: p in score ==>
      && p.0 in cats && p.1 in cats
      && (p.1, p.0) in score
      && score[(p.1, p.0)] == score[p]
      && InRangeFor(p.0, p.1, score[p], cats[p.0] == cats[p.1])
  }

  lemma ScoredIsConsistent(score: map<(string, string), real>, cats: map<string, Category>)
    requires ScoredBy(score, cats) && CategoriesOf(cats)
    ensures Consistent(score)
  {
    forall p | p in score ensures InRange(p.0, p.1, score[p]) {
      assert cats[p.0] == CategoryOf(p.0) && cats[p.1] == CategoryOf(p.1);
    }
  }

  /** build_semantic_matrix(nodes). The t-th call of random.uniform(lo, hi)
      returns lo + (hi - lo) * draw(t). */
  method BuildSemanticMatrix(nodes: seq<string>, draw: nat -> real) returns (m: Similarity)
    requires forall t :: 0.0 <= draw(t) <= 1.0
    ensures IsSemanticMatrix(m, nodes)
  {
    ghost var cats := CategoryMap(nodes);
    var score: map<(string, string), real> := map[];
    var t := 0;
    for i := 0 to |nodes|
      invariant ScoredBy(score, cats)
      invariant RowsFilled(nodes, score, i)
    {
      ghost var s0 := score;
      score, t := FillRow(nodes, i, score, t, draw, cats);
      NextRowFilled(nodes, s0, score, i);
    }
    m := Similarity(Dedup(nodes), score);
    AllPairsScored(nodes, score, cats);
  }

  /** Rows 0 .. rows - 1 of the table are filled from the diagonal on. */
  ghost predicate RowsFilled(nodes: seq<string>, score: map<(string, string), real>, rows: int)
  {
    forall p, q :: 0 <= p < rows && p <= q < |nodes| ==> (nodes[p], nodes[q]) in score
  }

  /** Filling row i after rows 0 .. i - 1 keeps those filled. */
  lemma NextRowFilled(nodes: seq<string>, s0: map<(string, string), real>, score: map<(string, string), real>, i: int)
    requires 0 <= i && RowsFilled(nodes, s0, i) && s0.Keys <= score.Keys
    requires forall q :: i <= q < |nodes| ==> (nodes[i], nodes[q]) in score
    ensures RowsFilled(nodes, score, i + 1)
  {
    forall p, q | 0 <= p < i + 1 && p <= q < |nodes| ensures (nodes[p], nodes[q]) in score {
      if p < i {
        assert (nodes[p], nodes[q]) in s0;
      }
    }
  }

  /** Once every row is filled from its diagonal on, the table is a
      semantic matrix for nodes. */
  lemma AllPairsScored(nodes: seq<string>, score: map<(string, string), real>, cats: map<string, Category>)
    requires CategoriesOf(cats) && forall n :: n in cats <==> n in nodes
    requires ScoredBy(score, cats)
    requires RowsFilled(nodes, score, |nodes|)
    ensures IsSemanticMatrix(Similarity(Dedup(nodes), score), nodes)
  {
    ScoredIsConsistent(score, cats);
    AllRowsFilled(nodes, score);
    forall a, b | (a, b) in score ensures a in nodes && b in nodes {
      assert score[(a, b)] == score[(a, b)];
    }
  }

  /** One pass of the inner loop of build_semantic_matrix: the scores of
      nodes[i] against nodes[i], nodes[i + 1], ..., written both ways. */
  method FillRow(nodes: seq<string>, i: nat, score: map<(string, string), real>, t: nat, draw: nat -> real,
                 ghost cats: map<string, Category>)
    returns (score': map<(string, string), real>, t': nat)
    requires i < |nodes| && forall t :: 0.0 <= draw(t) <= 1.0
    requires CategoriesOf(cats) && forall n :: n in cats <==> n in nodes
    requires ScoredBy(score, cats)
    ensures ScoredBy(score', cats)
    ensures score.Keys <= score'.Keys
    ensures forall q :: i <= q < |nodes| ==> (nodes[i], nodes[q]) in score'
  {
    score', t' := score, t;
    for j := i to |nodes|
      invariant ScoredBy(score', cats)
      invariant score.Keys <= score'.Keys
      invariant forall q :: i <= q < j ==> (nodes[i], nodes[q]) in score'
    {
      var ni, nj := nodes[i], nodes[j];
      var v: real;
      if ni == nj {
        v := 1.0;
      } else if CategoryOf(ni) == CategoryOf(nj) {
        v := Uniform(0.8, 1.0, draw(t'));
        t' := t' + 1;
      } else {
        v := Uniform(0.0, 0.6, draw(t'));
        t' := t' + 1;
      }
      assert cats[ni] == CategoryOf(ni) && cats[nj] == CategoryOf(nj);
      ghost var s0 := score';
      WritePair(score', cats, ni, nj, v);
      score' := score'[(ni, nj) := v][(nj, ni) := v];
      forall q | i <= q < j + 1 ensures (nodes[i], nodes[q]) in score' {
        if q < j {
          StillIn(s0, (nodes[i], nodes[q]), (ni, nj), (nj, ni), v);
        }
      }
    }
  }

  lemma StillIn<K, V>(m: map<K, V>, x: K, k1: K, k2: K, v: V)
    requires x in m
    ensures x in m[k1 := v][k2 := v]
  {
  }

  /** Writing an in-range score both ways keeps the table consistent. */
  lemma WritePair(score: map<(string, string), real>, cats: map<string, Category>, a: string, b: string, v: real)
    requires ScoredBy(score, cats) && a in cats && b in cats && InRangeFor(a, b, v, cats[a] == cats[b])
    ensures ScoredBy(score[(a, b) := v][(b, a) := v], cats)
  {
    assert InRangeFor(b, a, v, cats[b] == cats[a]);
  }

  /** Once every row is filled from its diagonal on, the table is complete. */
  lemma AllRowsFilled(nodes: seq<string>, score: map<(string, string), real>)
    requires forall p {:trigger score[p]} :: p in score ==> (p.1, p.0) in score
    requires forall p, q :: 0 <= p <= q < |nodes| ==> (nodes[p], nodes[q]) in score
    ensures forall a, b :: a in nodes && b in nodes ==> (a, b) in score
  {
    forall a, b | a in nodes && b in nodes ensures (a, b) in score {
      var p :| 0 <= p < |nodes| && nodes[p] == a;
      var q :| 0 <= q < |nodes| && nodes[q] == b;
      if p <= q {
      } else {
        assert (b, a) in score;
      }
    }
  }

  /** In a consistent table the 0.7 threshold separates the categories:
      two different labels score at least 0.7 exactly when they share one. */
  lemma AboveThresholdIffSameCategory(score: map<(string, string), real>, a: string, b: string)
    requires Consistent(score) && (a, b) in score && a != b
    ensures score[(a, b)] >= 0.7 <==> CategoryOf(a) == CategoryOf(b)
  {
    assert InRange(a, b, score[(a, b)]);
  }
}
