/**
 * The node sequences the path builder of code/Dijkstra.py:229-255 collects,
 * as values: the nodes met on the way back from the meeting node along the
 * backward predecessors, and the queue of forward predecessors, with what
 * their walks cost; and the properties of the path joined from them.
 */
module Trails {
  import opened Wrappers
  import opened Distance
  import opened Seqs
  import opened Nodes
  import opened Reversal
  import opened DijkstraHeaps
  import opened ShortestPaths
  import opened Paths
  import opened Searches
  import opened Walks

  /**
   * The nodes `N` collected so far on the way back from the meeting node
   * `meet`: nodes of the graph, settled by the backward search, the later
   * ones settled before `meet`; their walk and the backward distance of the
   * last one add up to the backward distance of `meet`.
   */
  ghost predicate BackwardSoFar(G: seq<NodeValue>, B: seq<Triplet>, meet: NodeValue, N: seq<NodeValue>) {
    && |N| > 0 && N[0] == meet && InGraph(G, N) && meet.name in TNames(B)
    && N[|N| - 1].name in TNames(B) && FirstOf(TNames(B), N[|N| - 1].name) <= FirstOf(TNames(B), meet.name)
    && (forall i :: 1 <= i < |N| ==> N[i].name in TNames(B) && FirstOf(TNames(B), N[i].name) < FirstOf(TNames(B), meet.name))
    && Plus(WalkCost(G, NamesOf(N)), At(B, N[|N| - 1].name).distance) == At(B, meet.name).distance
  }

  /** One more step back, to a node `next` of the graph that the last node has an edge to, settled before it, keeps `BackwardSoFar`. */
  lemma BackwardExtend(G: seq<NodeValue>, B: seq<Triplet>, meet: NodeValue, N: seq<NodeValue>, next: NodeValue)
    requires BackwardSoFar(G, B, meet, N)
    requires next.name in NamesOf(G) && next == NodeNamed(G, next.name) && next.name in TNames(B)
    requires FirstOf(TNames(B), next.name) < FirstOf(TNames(B), N[|N| - 1].name)
    requires At(B, N[|N| - 1].name).distance == Plus(At(B, next.name).distance, StepCost(G, N[|N| - 1].name, next.name))
    ensures BackwardSoFar(G, B, meet, N + [next])
  {
    var n := N[|N| - 1].name;
    var M := N + [next];
    forall i | 0 <= i < |M|
      ensures M[i].name in NamesOf(G) && M[i] == NodeNamed(G, M[i].name)
      ensures 1 <= i ==> M[i].name in TNames(B) && FirstOf(TNames(B), M[i].name) < FirstOf(TNames(B), meet.name)
    {
      if i < |N| {
        assert M[i] == N[i];
      }
    }
    var w := NamesOf(M);
    assert w == NamesOf(N) + [next.name];
    assert w[..|w| - 1] == NamesOf(N);
    PlusAssoc(WalkCost(G, NamesOf(N)), StepCost(G, n, next.name), At(B, next.name).distance);
  }

  /** The path holding only the meeting node starts `BackwardSoFar`. */
  lemma BackwardStart(G: seq<NodeValue>, B: seq<Triplet>, meet: NodeValue)
    requires meet.name in TNames(B) && InGraph(G, [meet])
    ensures BackwardSoFar(G, B, meet, [meet])
  {
    assert NamesOf([meet]) == [meet.name];
  }

  /** Once the path reaches the target, at backward distance 0, its walk costs the backward distance of the meeting node. */
  lemma BackwardDone(G: seq<NodeValue>, t: string, B: seq<Triplet>, meet: NodeValue, N: seq<NodeValue>)
    requires BackwardSoFar(G, B, meet, N) && N[|N| - 1].name == t && At(B, t).distance == Fin(0.0)
    ensures WalkCost(G, NamesOf(N)) == At(B, meet.name).distance
  {
  }

  /** Each node of the queue is a node of the graph settled forwards, with an edge to the node before it that accounts for their forward distances. */
  ghost predicate Chain(G: seq<NodeValue>, F: seq<Triplet>, queue: seq<NodeValue>) {
    && InGraph(G, queue)
    && (forall i :: 0 <= i < |queue| ==> queue[i].name in TNames(F))
    && (forall i :: 0 <= i < |queue| - 1 ==> HasEdgeTo(queue[i + 1].edges, queue[i].name))
    && (forall i :: 0 <= i < |queue| - 1 ==>
          At(F, queue[i].name).distance == Plus(At(F, queue[i + 1].name).distance, StepCost(G, queue[i + 1].name, queue[i].name)))
  }

  /** A chain of forward predecessors that ends at the source. */
  ghost predicate Queued(G: seq<NodeValue>, s: string, F: seq<Triplet>, queue: seq<NodeValue>) {
    |queue| > 0 && queue[|queue| - 1].name == s && Chain(G, F, queue)
  }

  /** A node `p` of the graph, settled forwards, with an edge to the last node of a chain that accounts for its distance, extends the chain. */
  lemma ChainExtend(G: seq<NodeValue>, F: seq<Triplet>, queue: seq<NodeValue>, p: NodeValue)
    requires |queue| > 0 && Chain(G, F, queue)
    requires p.name in NamesOf(G) && p == NodeNamed(G, p.name) && p.name in TNames(F)
    requires HasEdgeTo(p.edges, queue[|queue| - 1].name)
    requires At(F, queue[|queue| - 1].name).distance == Plus(At(F, p.name).distance, StepCost(G, p.name, queue[|queue| - 1].name))
    ensures Chain(G, F, queue + [p])
  {
    var q := queue + [p];
    forall i | 0 <= i < |q|
      ensures q[i].name in NamesOf(G) && q[i] == NodeNamed(G, q[i].name) && q[i].name in TNames(F)
    {
      if i < |queue| {
        assert q[i] == queue[i];
      }
    }
    forall i | 0 <= i < |q| - 1
      ensures HasEdgeTo(q[i + 1].edges, q[i].name)
      ensures At(F, q[i].name).distance == Plus(At(F, q[i + 1].name).distance, StepCost(G, q[i + 1].name, q[i].name))
    {
      assert q[i] == queue[i];
      if i < |queue| - 1 {
        assert q[i + 1] == queue[i + 1];
      }
    }
  }

  /** The path built so far from the source to `queue[k]`, through nodes of the graph, costing the forward distance of `queue[k]`. */
  ghost predicate ForwardSoFar(G: seq<NodeValue>, s: string, F: seq<Triplet>, queue: seq<NodeValue>, k: nat, N: seq<NodeValue>) {
    && k < |queue| && queue[k].name in TNames(F)
    && |N| > 0 && InGraph(G, N) && N[0].name == s && N[|N| - 1] == queue[k]
    && WalkCost(G, NamesOf(N)) == At(F, queue[k].name).distance
  }

  /** The path holding only the source, the last node of the queue, starts `ForwardSoFar`. */
  lemma ForwardStart(G: seq<NodeValue>, s: string, F: seq<Triplet>, queue: seq<NodeValue>)
    requires Queued(G, s, F, queue) && At(F, s).distance == Fin(0.0)
    ensures ForwardSoFar(G, s, F, queue, |queue| - 1, [queue[|queue| - 1]])
  {
    assert NamesOf([queue[|queue| - 1]]) == [s];
  }

  /** Connecting the next node of the queue keeps `ForwardSoFar`; the edge is there. */
  lemma ForwardExtend(G: seq<NodeValue>, s: string, F: seq<Triplet>, queue: seq<NodeValue>, k: nat, N: seq<NodeValue>)
    requires 0 < k < |queue| && Chain(G, F, queue) && ForwardSoFar(G, s, F, queue, k, N)
    ensures HasEdgeTo(N[|N| - 1].edges, queue[k - 1].name)
    ensures ForwardSoFar(G, s, F, queue, k - 1, N + [queue[k - 1]])
  {
    var x := queue[k - 1];
    var M := N + [x];
    assert HasEdgeTo(queue[k].edges, x.name);
    assert At(F, x.name).distance == Plus(At(F, queue[k].name).distance, StepCost(G, queue[k].name, x.name));
    forall i | 0 <= i < |M|
      ensures M[i].name in NamesOf(G) && M[i] == NodeNamed(G, M[i].name)
    {
      if i < |N| {
        assert M[i] == N[i];
      }
    }
    var w := NamesOf(M);
    assert w == NamesOf(N) + [x.name];
    assert w[..|w| - 1] == NamesOf(N);
    assert WalkCost(G, w) == Plus(WalkCost(G, NamesOf(N)), StepCost(G, queue[k].name, x.name));
  }
  /** On the way back, the meeting node does not come back. */
  lemma BackwardOnce(G: seq<NodeValue>, B: seq<Triplet>, meet: NodeValue, N: seq<NodeValue>)
    requires BackwardSoFar(G, B, meet, N)
    ensures forall i :: 1 <= i < |N| ==> N[i] != meet
  {
    forall i | 1 <= i < |N|
      ensures N[i] != meet
    {
      assert FirstOf(TNames(B), N[i].name) < FirstOf(TNames(B), meet.name);
    }
  }

  /**
   * A walk `N` of the graph from `s` to `t` through `m`, a node settled in
   * both directions, costing the forward plus the backward distance of `m`;
   * the edges `E` along it cost at least that, and exactly that without
   * parallel edges.
   */
  ghost predicate JoinedWalk(G: seq<NodeValue>, s: string, t: string, F: seq<Triplet>, B: seq<Triplet>, m: string, N: seq<NodeValue>, E: seq<Edge>) {
    && m in TNames(F) && m in TNames(B)
    && |N| > 0 && InGraph(G, N) && N[0].name == s && N[|N| - 1].name == t && m in NamesOf(N)
    && WalkCost(G, NamesOf(N)) == Plus(At(F, m).distance, At(B, m).distance)
    && Le(WalkCost(G, NamesOf(N)), Fin(SumCosts(E)))
    && (SingleEdges(G) ==> WalkCost(G, NamesOf(N)) == Fin(SumCosts(E)))
  }

  /**
   * A walk from `s` to the meeting node costing its forward distance, then
   * the rest of the way back from the meeting node to `t`, which costs its
   * backward distance, is a joined walk.
   */
  lemma JoinWalks(G: seq<NodeValue>, s: string, t: string, F: seq<Triplet>, B: seq<Triplet>, N1: seq<NodeValue>, N2: seq<NodeValue>, N: seq<NodeValue>, E: seq<Edge>)
    requires |N1| > 0 && InGraph(G, N1) && N1[0].name == s
    requires |N2| > 0 && N2[0] == N1[|N1| - 1] && InGraph(G, N2) && N2[|N2| - 1].name == t
    requires N2[0].name in TNames(F) && N2[0].name in TNames(B) && WalkCost(G, NamesOf(N1)) == At(F, N2[0].name).distance
    requires WalkCost(G, NamesOf(N2)) == At(B, N2[0].name).distance
    requires N == N1 + N2[1..] && Connected(N, E)
    ensures JoinedWalk(G, s, t, F, B, N2[0].name, N, E)
  {
    JoinCost(G, N1, N2, N, E);
    assert NamesOf(N)[|N1| - 1] == N2[0].name;
  }

  /** Some node is settled in both directions. */
  ghost predicate Met(F: seq<Triplet>, B: seq<Triplet>) {
    exists n :: n in TNames(F) && n in TNames(B)
  }

  /** A joined walk costs the sum of two finite distances, so it reaches the target from the source. */
  lemma JoinedReaches(G: seq<NodeValue>, s: string, t: string, F: seq<Triplet>, B: seq<Triplet>, m: string, N: seq<NodeValue>, E: seq<Edge>)
    requires Searched(G, s, F) && Searched(Reverse(G), t, B) && JoinedWalk(G, s, t, F, B, m, N, E)
    ensures Reaches(G, s, t)
  {
    var i := SettledAt(G, s, F, m);
    var j := SettledAt(Reverse(G), t, B, m);
    WalkReaches(G, s, t, N);
  }

  /** The walk along `N`, from `s` to `t`, when it has a finite cost. */
  lemma WalkReaches(G: seq<NodeValue>, s: string, t: string, N: seq<NodeValue>)
    requires |N| > 0 && N[0].name == s && N[|N| - 1].name == t && WalkCost(G, NamesOf(N)).Fin?
    ensures Reaches(G, s, t)
  {
    var w := NamesOf(N);
    assert w[0] == s && w[|w| - 1] == t;
  }

  /**
   * The joined path of code/Dijkstra.py:258: valid, and along a joined walk
   * from the source to the target through the meeting node `m`.
   */
  ghost predicate Joined(G: seq<NodeValue>, s: string, t: string, F: seq<Triplet>, B: seq<Triplet>, m: string, p: Path)
    reads p
  {
    p.Valid() && JoinedWalk(G, s, t, F, B, m, p.nodes, p.edges)
  }

  /** A joined path through a node settled in both directions whose two distances add up least. */
  ghost predicate Route(G: seq<NodeValue>, s: string, t: string, F: seq<Triplet>, B: seq<Triplet>, m: string, p: Path)
    reads p
  {
    && Joined(G, s, t, F, B, m, p)
    && forall n :: n in TNames(F) && n in TNames(B) ==>
         Le(Plus(At(F, m).distance, At(B, m).distance), Plus(At(F, n).distance, At(B, n).distance))
  }
}
