/**
 * Parallel edges and the cost of a returned path (code/Path.py:23-35).
 *
 * `add_connection` links two nodes by the FIRST edge from the one to the
 * other, while both searches relax every edge and so settle each node over
 * the CHEAPEST one. On a graph with two edges from one node to another the
 * path the bidirectional search returns can therefore cost more than the
 * distance the search found. `ParallelLink` exhibits this on a two-node
 * graph; `CheapestEdge` is the edge the link should take, and
 * `CheapestPathCost` proves that a path linked by cheapest edges costs
 * exactly the cheapest walk through its nodes, with or without parallel
 * edges.
 */
module ParallelEdges {
  import opened Distance
  import opened Seqs
  import opened Nodes
  import opened Reversal
  import opened ShortestPaths
  import opened Paths
  import opened Walks

  /** Two edges from `a` to `b`, the dearer one first. */
  function Doubled(a: string, b: string): NodeValue {
    NodeValue(a, [Edge(b, 5.0), Edge(b, 1.0)])
  }

  /**
   * As written: on the graph `a -> b` (cost 5), `a -> b` (cost 1), the only
   * connected path from `a` to `b` takes the edge of cost 5, while the
   * cheapest walk from `a` to `b` costs 1.
   */
  lemma ParallelLink(a: string, b: string, E: seq<Edge>)
    requires a != b
    ensures var G := [Doubled(a, b), NodeValue(b, [])];
      && Connected(G, [Edge(b, 5.0)]) && InGraph(G, G)
      && (Connected(G, E) ==> E == [Edge(b, 5.0)])
      && SumCosts([Edge(b, 5.0)]) == 5.0
      && WalkCost(G, [a, b]) == Fin(1.0)
  {
    var u := Doubled(a, b);
    var G := [u, NodeValue(b, [])];
    assert FirstIndex(u.edges, b) == 0;
    assert Link(u, G[1], Edge(b, 5.0));
    assert NamesOf(G) == [a, b];
    assert NodeNamed(G, a) == u;
    assert NodeNamed(G, b) == G[1];
    assert MinCost(u.edges, b) == Fin(1.0) by {
      assert MinCost(u.edges[1..], b) == Fin(1.0) by {
        assert u.edges[1..][1..] == [];
      }
    }
    assert [a, b][..1] == [a];
    if Connected(G, E) {
      assert Link(G[0], G[1], E[0]);
    }
  }

  /** An edge of `E` to `d` whose cost is the cheapest of all edges of `E` to `d`. */
  function CheapestEdge(E: seq<Edge>, d: string): (e: Edge)
    requires HasEdgeTo(E, d)
    ensures e in E && e.destination == d && MinCost(E, d) == Fin(e.cost)
  {
    var rest := E[1..];
    assert forall i :: 1 <= i < |E| ==> E[i] == rest[i - 1];
    if !HasEdgeTo(rest, d) then
      assert E[0].destination == d;
      E[0]
    else
      var c := CheapestEdge(rest, d);
      if E[0].destination == d && E[0].cost <= c.cost then E[0] else c
  }

  /** `e` is the edge a corrected `add_connection` takes from `u` to `v`: a cheapest one. */
  predicate CheapLink(u: NodeValue, v: NodeValue, e: Edge) {
    HasEdgeTo(u.edges, v.name) && e == CheapestEdge(u.edges, v.name)
  }

  /** Every edge of the path is a cheapest one from the node before it to the node after it. */
  ghost predicate CheaplyConnected(nodes: seq<NodeValue>, edges: seq<Edge>) {
    |nodes| == |edges| + 1 && forall i :: 0 <= i < |edges| ==> CheapLink(nodes[i], nodes[i + 1], edges[i])
  }

  /** A cheapest link costs what one step of a cheapest walk costs. */
  lemma CheapLinkCost(G: seq<NodeValue>, u: NodeValue, v: NodeValue, e: Edge)
    requires CheapLink(u, v, e) && u.name in NamesOf(G) && u == NodeNamed(G, u.name)
    ensures e.destination == v.name && StepCost(G, u.name, v.name) == Fin(e.cost)
  {
  }

  /**
   * Corrected: a path through nodes of `G` linked by cheapest edges costs
   * exactly the cheapest walk through the same nodes, parallel edges or not.
   */
  lemma {:induction false} CheapestPathCost(G: seq<NodeValue>, N: seq<NodeValue>, E: seq<Edge>)
    requires CheaplyConnected(N, E) && InGraph(G, N)
    ensures WalkCost(G, NamesOf(N)) == Fin(SumCosts(E))
    decreases |E|
  {
    if |E| > 0 {
      var N' := N[..|N| - 1];
      var E' := E[..|E| - 1];
      assert CheaplyConnected(N', E') by {
        forall i | 0 <= i < |E'|
          ensures CheapLink(N'[i], N'[i + 1], E'[i])
        {
          assert CheapLink(N[i], N[i + 1], E[i]);
        }
      }
      CheapestPathCost(G, N', E');
      assert NamesOf(N)[..|N| - 1] == NamesOf(N');
      assert CheapLink(N[|N| - 2], N[|N| - 1], E[|E| - 1]);
      CheapLinkCost(G, N[|N| - 2], N[|N| - 1], E[|E| - 1]);
    }
  }

  /** Where no node has two edges to one destination, the first edge is the cheapest one. */
  lemma FirstIsCheapest(G: seq<NodeValue>, u: NodeValue, v: NodeValue, e: Edge)
    requires Link(u, v, e) && u.name in NamesOf(G) && u == NodeNamed(G, u.name) && SingleEdges(G)
    ensures CheapLink(u, v, e)
  {
    LinkCost(G, u, v, e);
    var c := CheapestEdge(u.edges, v.name);
    var i :| 0 <= i < |u.edges| && u.edges[i] == c;
    var k := FirstIndex(u.edges, v.name);
    var g := FirstOf(NamesOf(G), u.name);
    assert G[g] == u;
    assert i == k;
  }
}
