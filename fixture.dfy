/**
 * The demo graph of `get_a_graph` (code/Main.py:6-37) and what
 * `binary_heap_dijkstra` must return on it from `A`: the distances and
 * predecessors the certificate of `ShortestPaths.DijkstraOutcome` leaves no
 * choice about.
 *
 * The lemmas come in three groups:
 *  - `Rank`, `Settled`, `Distances`, `Expected` and the `...Ranks` lemmas:
 *    the order and the distances in which the call of code/Main.py:45-51
 *    settles the six nodes;
 *  - `StepBound`, `WalkBound`, `CheapSteps`, `StepsRanked`, `Route` and
 *    `RouteAt`: that these are the shortest distances, every walk costing
 *    at least them and one walk attaining each;
 *  - `TightOnlyInOrder`, `DistanceFixed`, `OrderFixed`, `PredecessorFixed`
 *    and `Determined`: that a result meeting the certificate of
 *    code/Dijkstra.py:16-36 must settle the nodes in that order with those
 *    predecessors, which `SampleOutcome` states.
 */
module Fixture {
  import opened Wrappers
  import opened Distance
  import opened Seqs
  import opened Nodes
  import opened Reversal
  import opened DijkstraHeaps
  import opened ShortestPaths

  /** The six nodes of the demo graph with their edges, in the order `Graph([nA, ..., nF])` stores them. */
  function Sample(): (G: seq<NodeValue>)
    ensures NamesOf(G) == ["A", "B", "C", "D", "E", "F"]
  {
    [ NodeValue("A", [Edge("D", 1.0), Edge("B", 5.0)]),
      NodeValue("B", [Edge("C", 1.0), Edge("E", 4.5)]),
      NodeValue("C", [Edge("E", 2.0), Edge("A", 4.0)]),
      NodeValue("D", [Edge("B", 2.2), Edge("F", 10.0), Edge("E", 8.0)]),
      NodeValue("E", [Edge("F", 1.0), Edge("C", 3.0)]),
      NodeValue("F", [Edge("B", 3.0), Edge("D", 6.0), Edge("C", 5.0)]) ]
  }

  /** The position of `n` in the order the demo run settles the nodes, `6` for any other name. */
  function Rank(n: string): (r: nat)
    ensures r <= 6
  {
    if n == "A" then 0
    else if n == "D" then 1
    else if n == "B" then 2
    else if n == "C" then 3
    else if n == "E" then 4
    else if n == "F" then 5
    else 6
  }

  /** The order in which the demo run settles the nodes. */
  function Settled(): (s: seq<string>)
    ensures |s| == 6
  {
    ["A", "D", "B", "C", "E", "F"]
  }

  /** `Rank` numbers the names of `Settled` in order. */
  lemma SettledRanks()
    ensures forall i :: 0 <= i < 6 ==> Rank(Settled()[i]) == i
  {
  }

  /** The shortest distances from `A` in the demo graph, in the order of `Settled`. */
  function Distances(): (d: seq<real>)
    ensures |d| == 6 && forall i, j :: 0 <= i < j < 6 ==> d[i] < d[j]
  {
    [0.0, 1.0, 3.2, 4.2, 6.2, 7.2]
  }

  /** The shortest distance from `A` to each node of the demo graph; `Inf` for any other name. */
  function Expected(n: string): Dist {
    if Rank(n) < 6 then Fin(Distances()[Rank(n)]) else Inf
  }

  /** The names of one rank are one name. */
  lemma RankNames(m: string, n: string)
    requires Rank(m) < 6 && Rank(m) == Rank(n)
    ensures m == n && Settled()[Rank(n)] == n
  {
  }

  /** The demo graph has distinct names, and every edge leads to one of its nodes. */
  lemma SampleShape()
    ensures Distinct(NamesOf(Sample())) && Closed(Sample())
  {
  }

  /** No edge of the demo graph leads to a node more cheaply than `Expected` says. */
  lemma EdgesTight()
    ensures forall k, i :: 0 <= k < |Sample()| && 0 <= i < |Sample()[k].edges| ==>
      Le(Expected(Sample()[k].edges[i].destination), Plus(Expected(Sample()[k].name), Fin(Sample()[k].edges[i].cost)))
  {
  }

  /** No step between two names lowers `Expected`. */
  lemma StepBound(u: string, v: string)
    ensures Le(Expected(v), Plus(Expected(u), StepCost(Sample(), u, v)))
  {
    var G := Sample();
    if u in NamesOf(G) {
      var k := FirstOf(NamesOf(G), u);
      var m := MinCost(G[k].edges, v);
      if m.Fin? {
        var i :| 0 <= i < |G[k].edges| && G[k].edges[i].destination == v && G[k].edges[i].cost == m.r;
        EdgesTight();
        assert G[k].name == u;
      }
    }
  }

  /** Every walk of the demo graph from `A` costs at least `Expected` of its last name. */
  lemma {:induction false} WalkBound(w: seq<string>)
    requires |w| > 0 && w[0] == "A"
    ensures Le(Expected(w[|w| - 1]), WalkCost(Sample(), w))
    decreases |w|
  {
    if |w| > 1 {
      var w' := w[..|w| - 1];
      assert w'[0] == "A" && w'[|w'| - 1] == w[|w| - 2];
      WalkBound(w');
      StepBound(w[|w| - 2], w[|w| - 1]);
    }
  }

  /** The node of the demo graph named `n`, for each of its names. */
  lemma Named()
    ensures NodeNamed(Sample(), "A") == Sample()[0] && NodeNamed(Sample(), "B") == Sample()[1]
    ensures NodeNamed(Sample(), "C") == Sample()[2] && NodeNamed(Sample(), "D") == Sample()[3]
    ensures NodeNamed(Sample(), "E") == Sample()[4] && NodeNamed(Sample(), "F") == Sample()[5]
  {
    SampleShape();
    var N := NamesOf(Sample());
    DistinctFirstOf(N, 0);
    DistinctFirstOf(N, 1);
    DistinctFirstOf(N, 2);
    DistinctFirstOf(N, 3);
    DistinctFirstOf(N, 4);
    DistinctFirstOf(N, 5);
  }

  /** Each step of `Settled` costs at most the difference of the shortest distances it joins. */
  ghost predicate CheapSteps(G: seq<NodeValue>) {
    CheapStep(G, 1) && CheapStep(G, 2) && CheapStep(G, 3) && CheapStep(G, 4) && CheapStep(G, 5)
  }

  /** The `r`-th step of `Settled` costs at most the difference of the shortest distances it joins. */
  ghost predicate CheapStep(G: seq<NodeValue>, r: nat)
    requires 0 < r < 6
  {
    Le(StepCost(G, Settled()[r - 1], Settled()[r]), Fin(Distances()[r] - Distances()[r - 1]))
  }

  /** The `r`-th step of `Settled`, from `u` to `v`, costs at most `c`. */
  lemma StepAt(G: seq<NodeValue>, r: nat, u: string, v: string, c: real)
    requires 0 < r < 6 && Settled()[r - 1] == u && Settled()[r] == v && Distances()[r] - Distances()[r - 1] == c
    requires Le(StepCost(G, u, v), Fin(c))
    ensures CheapStep(G, r)
  {
  }

  /** The five steps of `Settled`, each as cheap as the edge the demo run takes, are its cheap steps. */
  lemma StepsRanked(G: seq<NodeValue>)
    requires Le(StepCost(G, "A", "D"), Fin(1.0)) && Le(StepCost(G, "D", "B"), Fin(2.2))
    requires Le(StepCost(G, "B", "C"), Fin(1.0)) && Le(StepCost(G, "C", "E"), Fin(2.0))
    requires Le(StepCost(G, "E", "F"), Fin(1.0))
    ensures CheapSteps(G)
  {
    StepAt(G, 1, "A", "D", 1.0);
    StepAt(G, 2, "D", "B", 2.2);
    StepAt(G, 3, "B", "C", 1.0);
    StepAt(G, 4, "C", "E", 2.0);
    StepAt(G, 5, "E", "F", 1.0);
  }

  /** The steps of the walk `A, D, B, C, E, F` cost at most the edges the demo run takes. */
  lemma CheapestSteps()
    ensures CheapSteps(Sample())
  {
    CheapestEdges();
    StepsRanked(Sample());
  }

  /** The edges the demo run takes bound the cheapest steps along `A, D, B, C, E, F`. */
  lemma CheapestEdges()
    ensures Le(StepCost(Sample(), "A", "D"), Fin(1.0)) && Le(StepCost(Sample(), "D", "B"), Fin(2.2))
    ensures Le(StepCost(Sample(), "B", "C"), Fin(1.0)) && Le(StepCost(Sample(), "C", "E"), Fin(2.0))
    ensures Le(StepCost(Sample(), "E", "F"), Fin(1.0))
  {
    Named();
    var G := Sample();
    assert G[0].edges[0].destination == "D" && G[3].edges[0].destination == "B" && G[1].edges[0].destination == "C";
    assert G[2].edges[0].destination == "E" && G[4].edges[0].destination == "F";
  }

  /** The demo graph has six nodes, all of them ranked. */
  lemma SampleRanks()
    ensures |Sample()| == 6 && forall n :: n in NamesOf(Sample()) ==> Rank(n) < 6
  {
    var N := NamesOf(Sample());
    forall n | n in N
      ensures Rank(n) < 6
    {
      var k :| 0 <= k < 6 && N[k] == n;
    }
  }

  /** A walk extended by one step costs at most its bound plus that step's. */
  lemma Extend(G: seq<NodeValue>, w: seq<string>, v: string, b: real, c: real)
    requires |w| > 0 && Le(WalkCost(G, w), Fin(b)) && Le(StepCost(G, w[|w| - 1], v), Fin(c))
    ensures Le(WalkCost(G, w + [v]), Fin(b + c))
  {
    var x := w + [v];
    assert x[..|x| - 1] == w && x[|x| - 2] == w[|w| - 1] && x[|x| - 1] == v;
  }

  /**
   * The first `r + 1` nodes of `Settled` form a walk from `A` costing at most
   * the `r`-th shortest distance, in any graph where the steps the demo run
   * takes are as cheap as in the demo graph.
   */
  lemma {:induction false} RouteAt(G: seq<NodeValue>, r: nat) returns (w: seq<string>)
    requires r < 6
    requires CheapSteps(G)
    ensures |w| == r + 1 && w[0] == "A" && w[r] == Settled()[r] && Le(WalkCost(G, w), Fin(Distances()[r]))
    decreases r
  {
    if r == 0 {
      w := ["A"];
    } else {
      var p := RouteAt(G, r - 1);
      assert CheapStep(G, r);
      w := p + [Settled()[r]];
      Extend(G, p, Settled()[r], Distances()[r - 1], Distances()[r] - Distances()[r - 1]);
    }
  }

  /** Each node the demo run settles is reached from `A` by a walk costing at most `Expected` of it. */
  lemma Route(G: seq<NodeValue>, n: string) returns (w: seq<string>)
    requires Rank(n) < 6
    requires CheapSteps(G)
    ensures |w| > 0 && w[0] == "A" && w[|w| - 1] == n && Le(WalkCost(G, w), Expected(n))
  {
    w := RouteAt(G, Rank(n));
    SettledRanks();
    RankNames(n, Settled()[Rank(n)]);
  }

  /** In the demo graph an edge gives its destination exactly its `Expected` distance only as the next step of `Settled`. */
  ghost predicate TightOnlyInOrder(G: seq<NodeValue>) {
    forall k, e :: 0 <= k < |G| && 0 <= e < |G[k].edges| && Add(Expected(G[k].name), G[k].edges[e].cost) == Expected(G[k].edges[e].destination) ==>
      Rank(G[k].edges[e].destination) == Rank(G[k].name) + 1
  }

  /** The demo graph's edges that carry a shortest distance are `A -> D -> B -> C -> E -> F`. */
  lemma SampleTight()
    ensures TightOnlyInOrder(Sample())
  {
  }

  /** Six strictly increasing ranks below six are `0, ..., 5`. */
  lemma RanksFixed(rk: seq<int>)
    requires |rk| == 6 && (forall i :: 0 <= i < 6 ==> 0 <= rk[i] < 6)
    requires forall i, j :: 0 <= i < j < 6 ==> rk[i] < rk[j]
    ensures forall i :: 0 <= i < 6 ==> rk[i] == i
  {
    assert rk[0] < rk[1] < rk[2] < rk[3] < rk[4] < rk[5];
  }

  /** `Expected` strictly increases with the rank. */
  lemma ExpectedOrder(m: string, n: string)
    requires Rank(m) < 6 && Rank(n) < 6 && Rank(m) != Rank(n) && Le(Expected(m), Expected(n))
    ensures Rank(m) < Rank(n)
  {
  }

  /**
   * A settled node whose distance no walk from `A` undercuts and which some
   * walk of cost at most `Expected` reaches, and which is reachable at its
   * distance when finite, lies at its `Expected` distance.
   */
  lemma {:induction false} DistanceFixed(G: seq<NodeValue>, t: Triplet, w: seq<string>)
    requires |w| > 0 && w[0] == "A" && w[|w| - 1] == t.node.name && Le(WalkCost(G, w), Expected(t.node.name))
    requires Le(t.distance, WalkCost(G, w))
    requires t.distance.Fin? ==> exists a {:trigger WalkCost(G, a)} :: |a| > 0 && a[0] == "A" && a[|a| - 1] == t.node.name && WalkCost(G, a) == t.distance
    requires forall a {:trigger WalkCost(G, a)} :: |a| > 0 && a[0] == "A" ==> Le(Expected(a[|a| - 1]), WalkCost(G, a))
    ensures t.distance == Expected(t.node.name)
  {
    if t.distance.Fin? {
      var a :| |a| > 0 && a[0] == "A" && a[|a| - 1] == t.node.name && WalkCost(G, a) == t.distance;
      assert Le(Expected(t.node.name), WalkCost(G, a));
    }
    LeTrans(t.distance, WalkCost(G, w), Expected(t.node.name));
    LeAntisymmetric(t.distance, Expected(t.node.name));
  }

  /** Six distinct settled names in non-decreasing `Expected` order are the names of `Settled`, in order. */
  lemma {:induction false} OrderFixed(R: seq<Triplet>)
    requires |R| == 6 && Distinct(TNames(R)) && Sorted(R)
    requires forall i :: 0 <= i < 6 ==> Rank(R[i].node.name) < 6 && R[i].distance == Expected(R[i].node.name)
    ensures forall i :: 0 <= i < 6 ==> R[i].node.name == Settled()[i]
  {
    var rk := seq(6, i requires 0 <= i < 6 => Rank(R[i].node.name));
    forall i, j | 0 <= i < j < 6
      ensures rk[i] < rk[j]
    {
      assert TNames(R)[i] != TNames(R)[j];
      if rk[i] == rk[j] {
        RankNames(R[i].node.name, R[j].node.name);
      }
      assert Le(R[i].distance, R[j].distance);
      ExpectedOrder(R[i].node.name, R[j].node.name);
    }
    RanksFixed(rk);
    SettledRanks();
    forall i | 0 <= i < 6
      ensures R[i].node.name == Settled()[i]
    {
      assert rk[i] == i;
      RankNames(Settled()[i], R[i].node.name);
    }
  }

  /** An edge of a node of `G` that gives exactly `Expected` distances is a step of `Settled`. */
  lemma TightStep(G: seq<NodeValue>, u: NodeValue, e: nat)
    requires TightOnlyInOrder(G) && u.name in NamesOf(G) && u == NodeNamed(G, u.name) && e < |u.edges|
    requires Add(Expected(u.name), u.edges[e].cost) == Expected(u.edges[e].destination)
    ensures Rank(u.edges[e].destination) == Rank(u.name) + 1
  {
    var g := FirstOf(NamesOf(G), u.name);
    assert G[g] == u && G[g].name == u.name;
  }

  /**
   * A node after the first whose predecessor is justified by an edge that
   * gives exactly `Expected` distances, in a graph where only the steps of
   * `Settled` do, is preceded by the node settled just before it.
   */
  lemma {:induction false} PredecessorFixed(G: seq<NodeValue>, R: seq<Triplet>, i: nat)
    requires 0 < i < |R| == 6 && Justified(R, "A") && TightOnlyInOrder(G)
    requires forall j :: 0 <= j < 6 ==> R[j].node.name == Settled()[j] && R[j].distance == Expected(Settled()[j])
    requires forall j :: 0 <= j < 6 ==> R[j].node.name in NamesOf(G) && R[j].node == NodeNamed(G, R[j].node.name)
    ensures R[i].predecessor == Some(R[i - 1].node)
  {
    SettledRanks();
    var t := R[i];
    assert Rank(t.node.name) == i && t.distance == Expected(t.node.name);
    assert t.node.name != "A" && t.distance.Fin?;
    assert JustifiedBefore(R, t, i, "A");
    var j :| 0 <= j < i && R[j].node == t.predecessor.value && Justifies(R[j], t);
    var u := R[j];
    var e :| 0 <= e < |u.node.edges| && u.node.edges[e].destination == t.node.name && Add(u.distance, u.node.edges[e].cost) == t.distance;
    assert Rank(u.node.name) == j && u.distance == Expected(u.node.name);
    TightStep(G, u.node, e);
  }

  /**
   * In a graph of six nodes named as in `Settled`, where no walk from `A`
   * undercuts `Expected`, the steps of `Settled` are as cheap as in the demo
   * graph and only they carry shortest distances, a certified result settles
   * the nodes in the order of `Settled`, at their `Expected` distances, each
   * after the one before.
   */
  lemma {:induction false} Determined(G: seq<NodeValue>, R: seq<Triplet>)
    requires DijkstraOutcome(G, "A", R)
    requires |G| == 6 && forall n :: n in NamesOf(G) ==> Rank(n) < 6
    requires forall w {:trigger WalkCost(G, w)} :: |w| > 0 && w[0] == "A" ==> Le(Expected(w[|w| - 1]), WalkCost(G, w))
    requires CheapSteps(G)
    requires TightOnlyInOrder(G)
    ensures |R| == 6
    ensures forall i :: 0 <= i < 6 ==> R[i].node.name == Settled()[i] && R[i].node == NodeNamed(G, Settled()[i])
    ensures forall i :: 0 <= i < 6 ==> R[i].distance == Expected(Settled()[i])
    ensures R[0].predecessor == None && forall i :: 0 < i < 6 ==> R[i].predecessor == Some(R[i - 1].node)
  {
    ShortestDistances(G, "A", R);
    forall i | 0 <= i < |R|
      ensures Rank(R[i].node.name) < 6 && R[i].distance == Expected(R[i].node.name)
    {
      var w := Route(G, R[i].node.name);
      DistanceFixed(G, R[i], w);
    }
    OrderFixed(R);
    AtSettled(R, 0);
    forall i | 0 < i < 6
      ensures R[i].predecessor == Some(R[i - 1].node)
    {
      PredecessorFixed(G, R, i);
    }
  }

  /**
   * Any result certified by `DijkstraOutcome` on the demo graph from `A` is
   * the one the demo prints: A at 0, then D at 1 after A, B at 3.2 after D,
   * C at 4.2 after B, E at 6.2 after C and F at 7.2 after E.
   */
  lemma {:induction false} SampleOutcome(R: seq<Triplet>)
    requires DijkstraOutcome(Sample(), "A", R)
    ensures |R| == 6
    ensures forall i :: 0 <= i < 6 ==> R[i].node == NodeNamed(Sample(), Settled()[i]) && R[i].distance == Expected(Settled()[i])
    ensures R[0].predecessor == None && forall i :: 0 < i < 6 ==> R[i].predecessor == Some(R[i - 1].node)
  {
    var G := Sample();
    forall w {:trigger WalkCost(G, w)} | |w| > 0 && w[0] == "A"
      ensures Le(Expected(w[|w| - 1]), WalkCost(G, w))
    {
      WalkBound(w);
    }
    CheapestSteps();
    SampleTight();
    SampleRanks();
    Determined(G, R);
  }
}
