/**
 * dict_of_dicts_to_numpy: the similarity table as an n-by-n array over the
 * sorted outer keys.
 */
module MatrixExport {
  import opened Wrappers
  import opened StringOrder
  import opened SemanticMatrix

  /** Every pair of outer keys has a score, so no lookup can fail. */
  ghost predicate PairsPresent(m: Similarity)
  {
    forall a, b :: a in m.keys && b in m.keys ==> (a, b) in m.score
  }

  /** Rows before rows of table hold their scores. */
  ghost predicate Filled(table: array2<real>, nodes: seq<string>, score: map<(string, string), real>, rows: nat, n: nat)
    requires table.Length0 == table.Length1 == |nodes| == n && rows <= n
    reads table
  {
    forall p, q :: 0 <= p < rows && 0 <= q < n ==>
      (nodes[p], nodes[q]) in score && table[p, q] == score[(nodes[p], nodes[q])]
  }

  /** Columns before cols of row i of table hold their scores. */
  ghost predicate RowFilled(table: array2<real>, nodes: seq<string>, score: map<(string, string), real>, i: nat, cols: nat)
    requires table.Length0 == table.Length1 == |nodes| && i < |nodes| && cols <= |nodes|
    reads table
  {
    forall q :: 0 <= q < cols ==> (nodes[i], nodes[q]) in score && table[i, q] == score[(nodes[i], nodes[q])]
  }

  /** sorted() keeps exactly the elements it is given. */
  lemma SortSameElements(s: seq<string>)
    ensures forall x :: x in Sort(s) <==> x in s
  {
    forall x ensures x in Sort(s) <==> x in s {
      assert x in Sort(s) <==> x in multiset(Sort(s));
      assert x in s <==> x in multiset(s);
    }
  }

  /** dict_of_dicts_to_numpy(similarity): None when a lookup raises
      KeyError; otherwise cell (i, j) holds the score of the i-th and j-th
      keys in sorted order. */
  method DictOfDictsToNumpy(m: Similarity) returns (res: Option<array2<real>>)
    ensures res.Some? <==> PairsPresent(m)
    ensures res.Some? ==>
      var nodes := Sort(m.keys);
      && fresh(res.value)
      && res.value.Length0 == |nodes| == |m.keys| && res.value.Length1 == |nodes|
      && forall i, j :: 0 <= i < |nodes| && 0 <= j < |nodes| ==>
           (nodes[i], nodes[j]) in m.score && res.value[i, j] == m.score[(nodes[i], nodes[j])]
  {
    var nodes := Sort(m.keys);
    res := FillTable(nodes, m.score);
    SortedPairsPresent(m);
  }

  /** Every pair of nodes has a score. */
  ghost predicate AllScored(nodes: seq<string>, score: map<(string, string), real>)
  {
    forall p, q :: 0 <= p < |nodes| && 0 <= q < |nodes| ==> (nodes[p], nodes[q]) in score
  }

  /** The n-by-n array and its nested fill loops, over keys already sorted. */
  method FillTable(nodes: seq<string>, score: map<(string, string), real>) returns (res: Option<array2<real>>)
    ensures res.Some? <==> AllScored(nodes, score)
    ensures res.Some? ==>
      && fresh(res.value)
      && res.value.Length0 == |nodes| && res.value.Length1 == |nodes|
      && Filled(res.value, nodes, score, |nodes|, |nodes|)
  {
    var n := |nodes|;
    var table := new real[n, n]((i, j) => 0.0);
    for i := 0 to n
      invariant Filled(table, nodes, score, i, n)
    {
      var ok := CopyRow(table, nodes, score, i);
      if !ok {
        return None;
      }
    }
    res := Some(table);
  }

  /** The sorted keys have a score for every pair exactly when the keys do. */
  lemma SortedPairsPresent(m: Similarity)
    ensures AllScored(Sort(m.keys), m.score) <==> PairsPresent(m)
  {
    SortSameElements(m.keys);
    var ks := Sort(m.keys);
    if AllScored(ks, m.score) {
      forall a, b | a in m.keys && b in m.keys ensures (a, b) in m.score {
        var p :| 0 <= p < |ks| && ks[p] == a;
        var q :| 0 <= q < |ks| && ks[q] == b;
        assert (ks[p], ks[q]) in m.score;
      }
    }
    if PairsPresent(m) {
      forall p, q | 0 <= p < |ks| && 0 <= q < |ks| ensures (ks[p], ks[q]) in m.score {
        assert ks[p] in m.keys && ks[q] in m.keys;
      }
    }
  }

  /** The inner loop for row i: copies the scores of nodes[i] into that
      row, stopping with false at the first missing one. */
  method CopyRow(table: array2<real>, nodes: seq<string>, score: map<(string, string), real>, i: nat)
    returns (ok: bool)
    requires table.Length0 == table.Length1 == |nodes| && i < |nodes|
    requires Filled(table, nodes, score, i, |nodes|)
    modifies table
    ensures ok <==> forall q :: 0 <= q < |nodes| ==> (nodes[i], nodes[q]) in score
    ensures ok ==> Filled(table, nodes, score, i + 1, |nodes|)
  {
    var n := |nodes|;
    for j := 0 to n
      invariant Filled(table, nodes, score, i, n)
      invariant RowFilled(table, nodes, score, i, j)
    {
      if (nodes[i], nodes[j]) !in score {
        return false;
      }
      table[i, j] := score[(nodes[i], nodes[j])];
    }
    ok := true;
  }

  /** For a table built by build_semantic_matrix, the export never fails,
      the array is symmetric with 1.0 on its diagonal, and its rows and
      columns follow ascending key order. */
  lemma ExportOfSemanticMatrix(m: Similarity, nodes: seq<string>)
    requires IsSemanticMatrix(m, nodes)
    ensures PairsPresent(m)
    ensures var ks := Sort(m.keys);
      forall i, j :: 0 <= i < |ks| && 0 <= j < |ks| ==>
        && (ks[i], ks[j]) in m.score
        && m.score[(ks[i], ks[j])] == m.score[(ks[j], ks[i])]
        && (i == j ==> m.score[(ks[i], ks[j])] == 1.0)
    ensures Ordered(Sort(m.keys))
  {
    SortSameElements(m.keys);
    SortOrdered(m.keys);
    var ks := Sort(m.keys);
    forall i, j | 0 <= i < |ks| && 0 <= j < |ks|
      ensures && (ks[i], ks[j]) in m.score
              && m.score[(ks[i], ks[j])] == m.score[(ks[j], ks[i])]
              && (i == j ==> m.score[(ks[i], ks[j])] == 1.0)
    {
      assert ks[i] in m.keys && ks[j] in m.keys;
      assert InRange(ks[i], ks[j], m.score[(ks[i], ks[j])]);
    }
  }
}
