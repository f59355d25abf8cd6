/**
 * The part of a networkx DiGraph the graph utilities rely on: nodes and
 * edges in insertion order, each with its attribute dictionary, and the
 * add_node / add_edge operations, which create what is missing and merge
 * attributes into what exists (dict.update).
 */
module NxGraph {
  import opened PyValues

  class DiGraph<N(==,!new)> {
    var nodes: seq<N>
    var nodeAttrs: map<N, Entries>
    var edges: seq<(N, N)>
    var edgeAttrs: map<(N, N), Entries>

    /** Nodes and edges are listed once each, the lists agree with the
        attribute maps, and every edge joins two nodes of the graph. */
    ghost predicate Valid()
      reads this
    {
      && (forall i, j :: 0 <= i < j < |nodes| ==> nodes[i] != nodes[j])
      && (forall n :: n in nodeAttrs <==> n in nodes)
      && (forall i, j :: 0 <= i < j < |edges| ==> edges[i] != edges[j])
      && (forall e :: e in edgeAttrs <==> e in edges)
      && (forall e :: e in edgeAttrs ==> e.0 in nodeAttrs && e.1 in nodeAttrs)
    }

    /** Every attribute dictionary is a dictionary: no key twice. */
    ghost predicate AttrsAreDicts()
      reads this
    {
      && (forall n :: n in nodeAttrs ==> DistinctKeys(nodeAttrs[n]))
      && (forall e :: e in edgeAttrs ==> DistinctKeys(edgeAttrs[e]))
    }

    /** nx.DiGraph(): the empty graph. */
    constructor ()
      ensures Valid()
      ensures nodes == [] && nodeAttrs == map[] && edges == [] && edgeAttrs == map[]
    {
      nodes, nodeAttrs, edges, edgeAttrs := [], map[], [], map[];
    }

    /** G.add_node(n, **attrs). */
    method AddNode(n: N, attrs: Entries)
      requires Valid()
      modifies this
      ensures Valid()
      ensures n in old(nodeAttrs) ==> nodes == old(nodes)
      ensures n !in old(nodeAttrs) ==> nodes == old(nodes) + [n]
      ensures nodeAttrs == old(nodeAttrs)[n := Update(if n in old(nodeAttrs) then old(nodeAttrs)[n] else [], attrs)]
      ensures edges == old(edges) && edgeAttrs == old(edgeAttrs)
    {
      if n in nodeAttrs {
        nodeAttrs := nodeAttrs[n := Update(nodeAttrs[n], attrs)];
      } else {
        nodes := nodes + [n];
        nodeAttrs := nodeAttrs[n := Update([], attrs)];
      }
    }

    /** Adds n without attributes unless it is already a node. */
    method EnsureNode(n: N)
      requires Valid()
      modifies this
      ensures Valid()
      ensures nodes == old(nodes) + (if n in old(nodeAttrs) then [] else [n])
      ensures nodeAttrs == if n in old(nodeAttrs) then old(nodeAttrs) else old(nodeAttrs)[n := []]
      ensures edges == old(edges) && edgeAttrs == old(edgeAttrs)
    {
      if n !in nodeAttrs {
        nodes := nodes + [n];
        nodeAttrs := nodeAttrs[n := []];
      }
    }

    /** G.add_edge(u, v, **attrs): missing endpoints become attribute-less nodes. */
    method AddEdge(u: N, v: N, attrs: Entries)
      requires Valid()
      modifies this
      ensures Valid()
      ensures nodes == old(nodes) + (if u in old(nodeAttrs) then [] else [u])
                                  + (if v in old(nodeAttrs) || v == u then [] else [v])
      ensures nodeAttrs.Keys == old(nodeAttrs.Keys) + {u, v}
      ensures forall n :: n in old(nodeAttrs) ==> nodeAttrs[n] == old(nodeAttrs)[n]
      ensures forall n :: n in nodeAttrs && n !in old(nodeAttrs) ==> nodeAttrs[n] == []
      ensures u in old(nodeAttrs) && v in old(nodeAttrs) ==> nodes == old(nodes) && nodeAttrs == old(nodeAttrs)
      ensures (u, v) in old(edgeAttrs) ==> edges == old(edges)
      ensures (u, v) !in old(edgeAttrs) ==> edges == old(edges) + [(u, v)]
      ensures edgeAttrs == old(edgeAttrs)[(u, v) := Update(if (u, v) in old(edgeAttrs) then old(edgeAttrs)[(u, v)] else [], attrs)]
    {
      ghost var edges0, edgeAttrs0 := edges, edgeAttrs;
      EnsureNode(u);
      EnsureNode(v);
      assert edges == edges0 && edgeAttrs == edgeAttrs0;
      MergeEdge(u, v, attrs);
    }

    /** The edge part of add_edge, once both endpoints are nodes. */
    method MergeEdge(u: N, v: N, attrs: Entries)
      requires Valid()
      requires u in nodeAttrs && v in nodeAttrs
      modifies this
      ensures Valid()
      ensures nodes == old(nodes) && nodeAttrs == old(nodeAttrs)
      ensures (u, v) in old(edgeAttrs) ==> edges == old(edges)
      ensures (u, v) !in old(edgeAttrs) ==> edges == old(edges) + [(u, v)]
      ensures edgeAttrs == old(edgeAttrs)[(u, v) := Update(if (u, v) in old(edgeAttrs) then old(edgeAttrs)[(u, v)] else [], attrs)]
    {
      var data: Entries := [];
      if (u, v) in edgeAttrs {
        data := edgeAttrs[(u, v)];
      } else {
        edges := edges + [(u, v)];
      }
      edgeAttrs := edgeAttrs[(u, v) := Update(data, attrs)];
    }
  }
}
