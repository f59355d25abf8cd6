/**
 * assign_colors_to_clusters and colorize_nodes_by_similarity: every
 * clustered node gets its cluster's base colour, darkened by 30 per
 * position in the cluster and clamped to [0, 255] per channel.
 */
module Coloring {
  import opened SemanticMatrix
  import opened Clustering

  /** An rgb(r,g,b) colour as its three integer channels. */
  datatype Rgb = Rgb(r: int, g: int, b: int)

  /** green, orangeRed, dodgerblue, purple, crimson, gold. */
  const BaseColors: seq<Rgb> :=
    [Rgb(0, 128, 0), Rgb(255, 69, 0), Rgb(30, 144, 255), Rgb(128, 0, 128), Rgb(220, 20, 60), Rgb(255, 215, 0)]

  /** How much each later member of a cluster is darkened. */
  const Step: int := 30

  /** min(max(x, 0), 255). */
  function Clamp(x: int): (c: int)
    ensures 0 <= c <= 255
    ensures 0 <= x <= 255 ==> c == x
    ensures x < 0 ==> c == 0
    ensures 255 < x ==> c == 255
  {
    var lo := if x > 0 then x else 0;
    if lo < 255 then lo else 255
  }

  /** The colour of the member at position pos of cluster i. */
  function Shade(i: nat, pos: nat): (c: Rgb)
    ensures 0 <= c.r <= 255 && 0 <= c.g <= 255 && 0 <= c.b <= 255
  {
    var base := BaseColors[i % |BaseColors|];
    Rgb(Clamp(base.r - Step * pos), Clamp(base.g - Step * pos), Clamp(base.b - Step * pos))
  }

  /** The first member of a cluster gets the exact base colour. */
  lemma FirstMemberGetsBase(i: nat)
    ensures Shade(i, 0) == BaseColors[i % 6]
  {
    var k := i % 6;
    assert 0 <= BaseColors[k].r <= 255 && 0 <= BaseColors[k].g <= 255 && 0 <= BaseColors[k].b <= 255 by {
      assert k in {0, 1, 2, 3, 4, 5};
    }
  }

  /** The six base colours are pairwise different, so the first members of
      two clusters whose numbers differ mod 6 get different colours. */
  lemma BasesDiffer(i: nat, j: nat)
    requires i % 6 != j % 6
    ensures Shade(i, 0) != Shade(j, 0)
  {
    FirstMemberGetsBase(i);
    FirstMemberGetsBase(j);
  }

  /** Colours repeat every six clusters. */
  lemma ColorsCycle(i: nat, pos: nat)
    ensures Shade(i + 6, pos) == Shade(i, pos)
  {
    assert (i + 6) % 6 == i % 6;
  }

  /** Later members of a cluster are never lighter, channel by channel. */
  lemma LaterIsDarker(i: nat, pos: nat, pos': nat)
    requires pos <= pos'
    ensures Shade(i, pos').r <= Shade(i, pos).r
    ensures Shade(i, pos').g <= Shade(i, pos).g
    ensures Shade(i, pos').b <= Shade(i, pos).b
  {
    assert Step * pos <= Step * pos';
  }

  /** The largest channel of a colour. */
  function Brightest(c: Rgb): (r: int)
  {
    if c.r >= c.g && c.r >= c.b then c.r else if c.g >= c.b then c.g else c.b
  }

  /** A member turns black exactly once 30 times its position reaches the
      brightest channel of its base colour. */
  lemma BlackFrom(i: nat, pos: nat)
    ensures Shade(i, pos) == Rgb(0, 0, 0) <==> Step * pos >= Brightest(BaseColors[i % 6])
  {
    var k := i % 6;
    assert k in {0, 1, 2, 3, 4, 5};
  }

  /** From the tenth member on, every member is black. */
  lemma BlackFromTenth(i: nat, pos: nat)
    requires 9 <= pos
    ensures Shade(i, pos) == Rgb(0, 0, 0)
  {
    BlackFrom(i, pos);
    var k := i % 6;
    assert k in {0, 1, 2, 3, 4, 5};
  }

  /** color_map after the members of row (cluster i) are written into m. */
  function PaintRow(m: map<string, Rgb>, row: seq<string>, i: nat): (r: map<string, Rgb>)
    decreases |row|
  {
    if row == [] then m
    else PaintRow(m, row[..|row| - 1], i)[row[|row| - 1] := Shade(i, |row| - 1)]
  }

  /** color_map after every cluster of cs is written, in order. */
  function Paint(cs: Clusters): (r: map<string, Rgb>)
    decreases |cs|
  {
    if cs == [] then map[] else PaintRow(Paint(cs[..|cs| - 1]), cs[|cs| - 1], |cs| - 1)
  }

  /** assign_colors_to_clusters(clusters). */
  method AssignColorsToClusters(clusters: Clusters) returns (colorMap: map<string, Rgb>)
    ensures colorMap == Paint(clusters)
  {
    colorMap := map[];
    for i := 0 to |clusters|
      invariant colorMap == Paint(clusters[..i])
    {
      ghost var before := colorMap;
      var base := BaseColors[i % |BaseColors|];
      var clusterNodes := clusters[i];
      for idx2 := 0 to |clusterNodes|
        invariant colorMap == PaintRow(before, clusterNodes[..idx2], i)
      {
        var node := clusterNodes[idx2];
        var r := Clamp(base.r - Step * idx2);
        var g := Clamp(base.g - Step * idx2);
        var b := Clamp(base.b - Step * idx2);
        assert Rgb(r, g, b) == Shade(i, idx2);
        var row := clusterNodes[..idx2 + 1];
        assert row[..idx2] == clusterNodes[..idx2] && row[idx2] == node;
        colorMap := colorMap[node := Rgb(r, g, b)];
      }
      assert clusters[..i + 1][..i] == clusters[..i];
      assert clusterNodes[..|clusterNodes|] == clusterNodes;
    }
    assert clusters[..|clusters|] == clusters;
  }

  /** Painting a row colours exactly its members and keeps the rest. */
  lemma {:induction false} PaintRowDomain(m: map<string, Rgb>, row: seq<string>, i: nat)
    ensures forall x :: x in PaintRow(m, row, i) <==> x in m || x in row
    ensures forall x :: x in m && x !in row ==> PaintRow(m, row, i)[x] == m[x]
    decreases |row|
  {
    if row != [] {
      var init := row[..|row| - 1];
      PaintRowDomain(m, init, i);
      assert row == init + [row[|row| - 1]];
    }
  }

  /** The member at position p of a row, not repeated after it, keeps the
      colour of that position. */
  lemma {:induction false} PaintRowLast(m: map<string, Rgb>, row: seq<string>, i: nat, p: nat)
    requires p < |row| && forall q :: p < q < |row| ==> row[q] != row[p]
    ensures row[p] in PaintRow(m, row, i) && PaintRow(m, row, i)[row[p]] == Shade(i, p)
    decreases |row|
  {
    if p < |row| - 1 {
      PaintRowLast(m, row[..|row| - 1], i, p);
    }
  }

  /** The nodes that get a colour are exactly the clustered ones. */
  lemma {:induction false} PaintDomain(cs: Clusters)
    ensures forall x :: x in Paint(cs) <==> x in Members(cs)
    decreases |cs|
  {
    if cs != [] {
      PaintDomain(cs[..|cs| - 1]);
      PaintRowDomain(Paint(cs[..|cs| - 1]), cs[|cs| - 1], |cs| - 1);
    }
  }

  /** The member at (i, p) does not occur again later in the clusters. */
  ghost predicate LastAt(cs: Clusters, i: nat, p: nat)
    requires i < |cs| && p < |cs[i]|
  {
    && (forall q :: p < q < |cs[i]| ==> cs[i][q] != cs[i][p])
    && (forall j, q :: i < j < |cs| && 0 <= q < |cs[j]| ==> cs[j][q] != cs[i][p])
  }

  /** Later writes win: a node's colour is the one for its last position. */
  lemma {:induction false} PaintLastWins(cs: Clusters, i: nat, p: nat)
    requires i < |cs| && p < |cs[i]| && LastAt(cs, i, p)
    ensures cs[i][p] in Paint(cs) && Paint(cs)[cs[i][p]] == Shade(i, p)
    decreases |cs|
  {
    var n := |cs| - 1;
    var init := cs[..n];
    if i == n {
      PaintRowLast(Paint(init), cs[n], n, p);
    } else {
      assert LastAt(init, i, p);
      PaintLastWins(init, i, p);
      PaintRowDomain(Paint(init), cs[n], n);
      forall q | 0 <= q < |cs[n]| ensures cs[n][q] != cs[i][p] {
      }
    }
  }

  /** No node occurs twice in the clusters. */
  ghost predicate NoRepeats(cs: Clusters)
  {
    forall i, p, j, q ::
      (0 <= i < |cs| && 0 <= p < |cs[i]| && 0 <= j < |cs| && 0 <= q < |cs[j]| && cs[i][p] == cs[j][q]) ==>
        i == j && p == q
  }

  /** When no node repeats, every node's colour is the one for its place. */
  lemma PaintEachPlace(cs: Clusters)
    requires NoRepeats(cs)
    ensures forall i, p :: 0 <= i < |cs| && 0 <= p < |cs[i]| ==> cs[i][p] in Paint(cs) && Paint(cs)[cs[i][p]] == Shade(i, p)
  {
    forall i, p | 0 <= i < |cs| && 0 <= p < |cs[i]| ensures cs[i][p] in Paint(cs) && Paint(cs)[cs[i][p]] == Shade(i, p) {
      PaintLastWins(cs, i, p);
    }
  }

  /** The category groups of distinct keys hold every key once. */
  lemma GroupsNoRepeats(keys: seq<string>, cat: string -> Category)
    requires Distinct(keys)
    ensures NoRepeats(CategoryGroups(keys, cat))
  {
    var g := CategoryGroups(keys, cat);
    var o := CategoryOrder(keys, cat);
    GroupsSeparateCategories(keys, cat);
    forall k | 0 <= k < |g| ensures forall a, b :: 0 <= a < b < |g[k]| ==> g[k][a] != g[k][b] {
      assert g[k] == OfCategory(keys, cat, o[k]);
      OfCategoryDistinct(keys, cat, o[k]);
    }
  }

  lemma {:induction false} OfCategoryDistinct(keys: seq<string>, cat: string -> Category, c: Category)
    requires Distinct(keys)
    ensures Distinct(OfCategory(keys, cat, c))
    decreases |keys|
  {
    if keys != [] {
      var p := keys[..|keys| - 1];
      OfCategoryDistinct(p, cat, c);
      var pr := OfCategory(p, cat, c);
      var r := OfCategory(keys, cat, c);
      forall x | x in pr ensures x != keys[|keys| - 1] {
        var i :| 0 <= i < |p| && p[i] == x;
        assert keys[i] == x;
      }
      var last := keys[|keys| - 1];
      assert r == if cat(last) == c then pr + [last] else pr;
      forall a, b | 0 <= a < b < |r| ensures r[a] != r[b] {
        assert r[a] == pr[a] && pr[a] in pr;
        if b < |pr| {
          assert r[b] == pr[b];
          assert pr[a] != pr[b];
        } else {
          assert r[b] == last;
        }
      }
    }
  }

  /** colorize_nodes_by_similarity(nodes): the matrix, its clusters at 0.7
      (always found, and exactly the category groups) and the colours. */
  method ColorizeNodesBySimilarity(nodes: seq<string>, draw: nat -> real)
    returns (similarity: Similarity, clusters: Clusters, colorMap: map<string, Rgb>)
    requires forall t :: 0.0 <= draw(t) <= 1.0
    ensures IsSemanticMatrix(similarity, nodes)
    ensures clusters == CategoryGroups(Dedup(nodes), CategoryOf)
    ensures forall x :: x in colorMap <==> x in nodes
    ensures forall i, p :: 0 <= i < |clusters| && 0 <= p < |clusters[i]| ==>
      clusters[i][p] in colorMap && colorMap[clusters[i][p]] == Shade(i, p)
  {
    similarity := BuildSemanticMatrix(nodes, draw);
    var found := ClusterBySimilarity(similarity, 0.7);
    SemanticClusters(similarity, nodes);
    clusters := found.value;
    colorMap := AssignColorsToClusters(clusters);
    ClustersPartition(similarity.keys, similarity.score, 0.7);
    PaintDomain(clusters);
    GroupsNoRepeats(similarity.keys, CategoryOf);
    PaintEachPlace(clusters);
  }
}
