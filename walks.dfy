/**
 * Walks through a graph, forwards and backwards: the cheapest edge from
 * `x` to `y` is the cheapest edge from `y` to `x` in the reversed graph,
 * walks join end to start, and the edges a `Path` crosses cost at least the
 * cheapest walk through the same nodes.
 */
module Walks {
  import opened Distance
  import opened Seqs
  import opened Nodes
  import opened Reversal
  import opened ShortestPaths
  import opened Paths

  /** Two edge lists that hold `Edge(d1, c)` and `Edge(d2, c)` equally often, for every cost, have the same cheapest edge. */
  lemma MinCostCounted(E1: seq<Edge>, d1: string, E2: seq<Edge>, d2: string)
    requires forall c: Cost :: multiset(E1)[Edge(d1, c)] == multiset(E2)[Edge(d2, c)]
    ensures MinCost(E1, d1) == MinCost(E2, d2)
  {
    var m := MinCost(E2, d2);
    forall i | 0 <= i < |E1| && E1[i].destination == d1
      ensures HasEdgeTo(E2, d2) && Le(m, Fin(E1[i].cost))
    {
      var c := E1[i].cost;
      assert E1[i] == Edge(d1, c);
      assert multiset(E1)[Edge(d1, c)] > 0;
      assert Edge(d2, c) in E2;
      var j :| 0 <= j < |E2| && E2[j] == Edge(d2, c);
    }
    if m.Fin? {
      var j :| 0 <= j < |E2| && E2[j].destination == d2 && E2[j].cost == m.r;
      var c := E2[j].cost;
      assert E2[j] == Edge(d2, c);
      assert multiset(E2)[Edge(d2, c)] > 0;
      assert Edge(d1, c) in E1;
      var i :| 0 <= i < |E1| && E1[i] == Edge(d1, c);
    }
    MinCostUnique(E1, d1, m);
  }

  /** The cheapest edge `y -> x` of the reversed graph costs what the cheapest edge `x -> y` of the graph costs. */
  lemma MinCostReversed(G: seq<NodeValue>, x: string, y: string)
    requires Distinct(NamesOf(G)) && x in NamesOf(G) && y in NamesOf(G)
    ensures MinCost(NodeNamed(Reverse(G), y).edges, x) == MinCost(NodeNamed(G, x).edges, y)
  {
    var k := FirstOf(NamesOf(G), y);
    assert NodeNamed(Reverse(G), y).edges == Incoming(G, y);
    forall c: Cost
      ensures multiset(Incoming(G, y))[Edge(x, c)] == multiset(NodeNamed(G, x).edges)[Edge(y, c)]
    {
      IncomingCount(G, y, x, c);
    }
    MinCostCounted(Incoming(G, y), x, NodeNamed(G, x).edges, y);
  }


  /** A walk that ends where a second one starts, followed by the rest of the second, costs what the two cost together. */
  lemma {:induction false} WalkCostJoin(G: seq<NodeValue>, a: seq<string>, b: seq<string>)
    requires |a| > 0 && |b| > 0 && a[|a| - 1] == b[0]
    ensures WalkCost(G, a + b[1..]) == Plus(WalkCost(G, a), WalkCost(G, b))
    decreases |b|
  {
    if |b| == 1 {
      assert a + b[1..] == a;
    } else {
      var b' := b[..|b| - 1];
      var w := a + b[1..];
      var w' := a + b'[1..];
      var step := StepCost(G, b[|b| - 2], b[|b| - 1]);
      assert w[..|w| - 1] == w';
      assert w[|w| - 2] == b[|b| - 2] && w[|w| - 1] == b[|b| - 1];
      assert WalkCost(G, w) == Plus(WalkCost(G, w'), step);
      assert WalkCost(G, b) == Plus(WalkCost(G, b'), step);
      WalkCostJoin(G, a, b');
      PlusAssoc(WalkCost(G, a), WalkCost(G, b'), step);
    }
  }

  /** Some walk of `G` from `s` to `t` has a finite cost. */
  ghost predicate Reaches(G: seq<NodeValue>, s: string, t: string) {
    exists w {:trigger WalkCost(G, w)} :: |w| > 0 && w[0] == s && w[|w| - 1] == t && WalkCost(G, w).Fin?
  }

  /** A walk of finite cost, less its last step, costs finitely, and so does that step. */
  lemma FiniteParts(G: seq<NodeValue>, w: seq<string>)
    requires |w| > 1 && WalkCost(G, w).Fin?
    ensures WalkCost(G, w[..|w| - 1]).Fin? && StepCost(G, w[|w| - 2], w[|w| - 1]).Fin?
  {
  }

  /** A step of finite cost from `a` to `x`, turned around, is a walk of the reversed graph that costs the same. */
  lemma ReversedStep(G: seq<NodeValue>, a: string, x: string)
    requires Distinct(NamesOf(G)) && x in NamesOf(G) && StepCost(G, a, x).Fin?
    ensures a in NamesOf(G) && WalkCost(Reverse(G), [x, a]) == StepCost(G, a, x)
  {
    MinCostReversed(G, a, x);
    assert [x, a][..1] == [x];
  }

  /** A walk of finite cost ending at a node of `G`, read backwards, is a walk of finite cost of the reversed graph. */
  lemma {:induction false} ReversedWalk(G: seq<NodeValue>, w: seq<string>) returns (r: seq<string>)
    requires Distinct(NamesOf(G)) && |w| > 0 && w[|w| - 1] in NamesOf(G) && WalkCost(G, w).Fin?
    ensures |r| > 0 && r[0] == w[|w| - 1] && r[|r| - 1] == w[0] && WalkCost(Reverse(G), r).Fin?
    decreases |w|
  {
    if |w| == 1 {
      r := w;
    } else {
      var w' := w[..|w| - 1];
      var a := w[|w| - 2];
      var x := w[|w| - 1];
      FiniteParts(G, w);
      ReversedStep(G, a, x);
      assert w'[|w'| - 1] == a && w'[0] == w[0];
      var r' := ReversedWalk(G, w');
      WalkCostJoin(Reverse(G), [x, a], r');
      r := [x, a] + r'[1..];
      assert r[|r| - 1] == r'[|r'| - 1];
    }
  }

  /** No node has two edges to the same destination. */
  ghost predicate SingleEdges(G: seq<NodeValue>) {
    forall k, i, j :: 0 <= k < |G| && 0 <= i < j < |G[k].edges| ==> G[k].edges[i].destination != G[k].edges[j].destination
  }

  /** Every node of `N` is the node of `G` with its name. */
  ghost predicate InGraph(G: seq<NodeValue>, N: seq<NodeValue>) {
    forall i :: 0 <= i < |N| ==> N[i].name in NamesOf(G) && N[i] == NodeNamed(G, N[i].name)
  }

  /** The edge `add_connection` takes costs at least the cheapest one, and exactly that when it is the only one. */
  lemma LinkCost(G: seq<NodeValue>, u: NodeValue, v: NodeValue, e: Edge)
    requires Link(u, v, e) && u.name in NamesOf(G) && u == NodeNamed(G, u.name)
    ensures Le(StepCost(G, u.name, v.name), Fin(e.cost))
    ensures SingleEdges(G) ==> StepCost(G, u.name, v.name) == Fin(e.cost)
  {
    var k := FirstIndex(u.edges, v.name);
    var m := MinCost(u.edges, v.name);
    assert u.edges[k] == e;
    if SingleEdges(G) {
      var i :| 0 <= i < |u.edges| && u.edges[i].destination == v.name && u.edges[i].cost == m.r;
      var g := FirstOf(NamesOf(G), u.name);
      assert G[g] == u;
      assert i == k;
    }
  }

  /** A connected path through nodes of `G` costs at least the cheapest walk through the same nodes, and exactly that without parallel edges. */
  lemma {:induction false} PathCost(G: seq<NodeValue>, N: seq<NodeValue>, E: seq<Edge>)
    requires Connected(N, E) && InGraph(G, N)
    ensures Le(WalkCost(G, NamesOf(N)), Fin(SumCosts(E)))
    ensures SingleEdges(G) ==> WalkCost(G, NamesOf(N)) == Fin(SumCosts(E))
    decreases |E|
  {
    if |E| > 0 {
      var N' := N[..|N| - 1];
      var E' := E[..|E| - 1];
      assert Connected(N', E') by {
        forall i | 0 <= i < |E'|
          ensures Link(N'[i], N'[i + 1], E'[i])
        {
          assert Link(N[i], N[i + 1], E[i]);
        }
      }
      PathCost(G, N', E');
      assert NamesOf(N)[..|N| - 1] == NamesOf(N');
      assert Link(N[|N| - 2], N[|N| - 1], E[|E| - 1]);
      LinkCost(G, N[|N| - 2], N[|N| - 1], E[|E| - 1]);
    }
  }

  /**
   * A connected path that runs through a walk of `G` ending at `N1`'s last
   * node and then through the rest of a walk `N2` starting there is a walk of
   * `G` costing what the two cost together, and its edges cost at least that.
   */
  lemma JoinCost(G: seq<NodeValue>, N1: seq<NodeValue>, N2: seq<NodeValue>, N: seq<NodeValue>, E: seq<Edge>)
    requires |N1| > 0 && |N2| > 0 && N1[|N1| - 1] == N2[0] && InGraph(G, N1) && InGraph(G, N2)
    requires N == N1 + N2[1..] && Connected(N, E)
    ensures |N| > 0 && N[0] == N1[0] && N[|N| - 1] == N2[|N2| - 1] && InGraph(G, N)
    ensures WalkCost(G, NamesOf(N)) == Plus(WalkCost(G, NamesOf(N1)), WalkCost(G, NamesOf(N2)))
    ensures Le(WalkCost(G, NamesOf(N)), Fin(SumCosts(E)))
    ensures SingleEdges(G) ==> WalkCost(G, NamesOf(N)) == Fin(SumCosts(E))
  {
    InGraphJoin(G, N1, N2);
    NamesJoin(N1, N2);
    WalkCostJoin(G, NamesOf(N1), NamesOf(N2));
    PathCost(G, N, E);
  }

  /** Two runs through nodes of `G`, the second without its first node, run through nodes of `G`. */
  lemma InGraphJoin(G: seq<NodeValue>, N1: seq<NodeValue>, N2: seq<NodeValue>)
    requires |N2| > 0 && InGraph(G, N1) && InGraph(G, N2)
    ensures InGraph(G, N1 + N2[1..])
  {
    var N := N1 + N2[1..];
    forall i | 0 <= i < |N|
      ensures N[i].name in NamesOf(G) && N[i] == NodeNamed(G, N[i].name)
    {
      if i < |N1| {
        assert N[i] == N1[i];
      } else {
        assert N[i] == N2[i - |N1| + 1];
      }
    }
  }

  /** The names of two joined runs of nodes. */
  lemma NamesJoin(N1: seq<NodeValue>, N2: seq<NodeValue>)
    requires |N2| > 0
    ensures NamesOf(N1 + N2[1..]) == NamesOf(N1) + NamesOf(N2)[1..]
  {
  }
}
