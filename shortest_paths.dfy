/**
 * What the list returned by `binary_heap_dijkstra` (code/Dijkstra.py:16-36)
 * certifies, and why that certificate gives shortest-path distances: no
 * walk from the source is cheaper than a node's distance, and a finite
 * distance is the cost of the walk its predecessors trace back.
 */
module ShortestPaths {
  import opened Wrappers
  import opened Distance
  import opened Seqs
  import opened Nodes
  import opened Reversal
  import opened DijkstraHeaps

  /** The node of `G` named `n`. */
  function NodeNamed(G: seq<NodeValue>, n: string): NodeValue
    requires n in NamesOf(G)
  {
    G[FirstOf(NamesOf(G), n)]
  }

  /** The cheapest edge from `u` to `v` in `G`; `Inf` when there is none or `u` is not a node of `G`. */
  function StepCost(G: seq<NodeValue>, u: string, v: string): Dist {
    if u in NamesOf(G) then MinCost(NodeNamed(G, u).edges, v) else Inf
  }

  /** The cost of the walk through the nodes named `w`, each step over a cheapest edge. */
  function WalkCost(G: seq<NodeValue>, w: seq<string>): Dist
    requires |w| > 0
  {
    if |w| == 1 then Fin(0.0)
    else Plus(WalkCost(G, w[..|w| - 1]), StepCost(G, w[|w| - 2], w[|w| - 1]))
  }

  /** Every node of `G`, whose names are distinct, is settled exactly once, with its own edges. */
  ghost predicate Settles(G: seq<NodeValue>, R: seq<Triplet>) {
    && Distinct(NamesOf(G)) && |R| == |G| && Distinct(TNames(R))
    && (forall n :: n in TNames(R) <==> n in NamesOf(G))
    && (forall i :: 0 <= i < |R| ==> R[i].node.name in NamesOf(G) && R[i].node == NodeNamed(G, R[i].node.name))
  }

  /** Distances never decrease along the settlement order. */
  ghost predicate Sorted(R: seq<Triplet>) {
    forall i, j :: 0 <= i < j < |R| ==> Le(R[i].distance, R[j].distance)
  }

  /** The source is settled at distance 0, without predecessor. */
  ghost predicate SourceZero(R: seq<Triplet>, src: string) {
    src in TNames(R) && At(R, src).distance == Fin(0.0) && At(R, src).predecessor == None
  }

  /** The first `m` edges of `u` lead to nodes of the table whose distance they cannot improve. */
  ghost predicate RelaxedUpTo(T: map<string, Triplet>, u: Triplet, m: nat) {
    forall k :: 0 <= k < m && k < |u.node.edges| ==>
      u.node.edges[k].destination in T && Le(T[u.node.edges[k].destination].distance, Add(u.distance, u.node.edges[k].cost))
  }

  /** No edge of a settled node improves a settled distance. */
  ghost predicate Relaxed(R: seq<Triplet>) {
    forall i :: 0 <= i < |R| ==> RelaxedUpTo(Table(R), R[i], |R[i].node.edges|)
  }

  /** An edge of `u` leads to `t`'s node and the distance of `u` plus its cost is the distance of `t`. */
  ghost predicate Justifies(u: Triplet, t: Triplet) {
    exists k :: 0 <= k < |u.node.edges| && u.node.edges[k].destination == t.node.name && Add(u.distance, u.node.edges[k].cost) == t.distance
  }

  /**
   * The predecessor of `t` accounts for its distance: none for the source
   * and for unreached nodes; otherwise a node settled among the first `b`
   * whose edge gives the distance exactly.
   */
  ghost predicate JustifiedBefore(R: seq<Triplet>, t: Triplet, b: nat, src: string) {
    && (t.predecessor.None? ==> t.node.name == src || t.distance == Inf)
    && (t.predecessor.Some? ==>
         t.distance.Fin? && exists i :: 0 <= i < b && i < |R| && R[i].node == t.predecessor.value && Justifies(R[i], t))
  }

  /** Every settled predecessor was settled earlier and accounts for the distance. */
  ghost predicate Justified(R: seq<Triplet>, src: string) {
    forall i :: 0 <= i < |R| ==> JustifiedBefore(R, R[i], i, src)
  }

  /**
   * What `binary_heap_dijkstra(G, source)` returns: every node once, in
   * non-decreasing distance, the source at distance 0 without predecessor,
   * no edge able to improve a distance, and every predecessor accounting
   * for its node's distance.
   */
  ghost predicate DijkstraOutcome(G: seq<NodeValue>, src: string, R: seq<Triplet>) {
    Settles(G, R) && Sorted(R) && SourceZero(R, src) && Relaxed(R) && Justified(R, src)
  }

  /** The triplet settled at `i`, having distinct names, is the one of its name. */
  lemma AtSettled(R: seq<Triplet>, i: nat)
    requires Distinct(TNames(R)) && i < |R|
    ensures R[i].node.name in TNames(R) && FirstOf(TNames(R), R[i].node.name) == i
    ensures At(R, R[i].node.name) == R[i] && Table(R)[R[i].node.name] == R[i]
  {
    assert TNames(R)[i] == R[i].node.name;
    DistinctFirstOf(TNames(R), i);
  }

  /** The settled triplet of a node of `G` carries that node. */
  lemma SettledNode(G: seq<NodeValue>, R: seq<Triplet>, n: string) returns (i: nat)
    requires Settles(G, R) && n in NamesOf(G)
    ensures i < |R| && i == FirstOf(TNames(R), n) && R[i].node.name == n && At(R, n) == R[i]
    ensures R[i].node == NodeNamed(G, n)
  {
    i := FirstOf(TNames(R), n);
  }

  /** One relaxed edge of a settled node. */
  lemma RelaxedEdge(R: seq<Triplet>, i: nat, k: nat)
    requires Relaxed(R) && i < |R| && k < |R[i].node.edges|
    ensures R[i].node.edges[k].destination in TNames(R)
    ensures Le(At(R, R[i].node.edges[k].destination).distance, Add(R[i].distance, R[i].node.edges[k].cost))
  {
    assert RelaxedUpTo(Table(R), R[i], |R[i].node.edges|);
  }

  /** A step over a cheapest edge after a finite walk adds the edge's cost. */
  lemma WalkStep(G: seq<NodeValue>, w: seq<string>)
    requires |w| > 1
    ensures var last := StepCost(G, w[|w| - 2], w[|w| - 1]);
      WalkCost(G, w) == if last.Fin? then Add(WalkCost(G, w[..|w| - 1]), last.r) else Inf
  {
  }

  /** A walk extended by one more step adds the cost of that step. */
  lemma ExtendWalk(G: seq<NodeValue>, w: seq<string>, v: string) returns (w2: seq<string>)
    requires |w| > 0
    ensures w2 == w + [v] && |w2| > 1 && w2[0] == w[0] && w2[|w2| - 1] == v
    ensures var last := StepCost(G, w[|w| - 1], v);
      WalkCost(G, w2) == if last.Fin? && WalkCost(G, w).Fin? then Add(WalkCost(G, w), last.r) else Inf
  {
    w2 := w + [v];
    assert w2[..|w2| - 1] == w;
  }

  /** A settled distance bounds the walk to it, one relaxed edge past a walk that bounds its start. */
  lemma LowerBoundStep(G: seq<NodeValue>, R: seq<Triplet>, w': seq<string>, v: string) returns (w: seq<string>)
    requires Settles(G, R) && Relaxed(R) && |w'| > 0 && w'[|w'| - 1] in TNames(R)
    requires Le(At(R, w'[|w'| - 1]).distance, WalkCost(G, w'))
    ensures w == w' + [v] && v in TNames(R) ==> Le(At(R, v).distance, WalkCost(G, w))
  {
    var u := w'[|w'| - 1];
    var step := StepCost(G, u, v);
    w := ExtendWalk(G, w', v);
    if step.Fin? && WalkCost(G, w').Fin? {
      var i := SettledNode(G, R, u);
      var edges := R[i].node.edges;
      assert step == MinCost(edges, v);
      var k :| 0 <= k < |edges| && edges[k].destination == v && edges[k].cost == step.r;
      RelaxedEdge(R, i, k);
      AddMonotone(R[i].distance, WalkCost(G, w'), step.r);
      LeTrans(At(R, v).distance, Add(R[i].distance, step.r), WalkCost(G, w));
    }
  }

  /** No walk from the source to a settled node is cheaper than the node's settled distance. */
  lemma {:induction false} LowerBound(G: seq<NodeValue>, src: string, R: seq<Triplet>, w: seq<string>)
    requires Settles(G, R) && Relaxed(R) && SourceZero(R, src)
    requires |w| > 0 && w[0] == src && w[|w| - 1] in TNames(R)
    ensures Le(At(R, w[|w| - 1]).distance, WalkCost(G, w))
    decreases |w|
  {
    if |w| > 1 {
      var w' := w[..|w| - 1];
      assert w == w' + [w[|w| - 1]];
      var u := w[|w| - 2];
      if u in TNames(R) {
        LowerBound(G, src, R, w');
        var w2 := LowerBoundStep(G, R, w', w[|w| - 1]);
      } else {
        WalkStep(G, w);
      }
    }
  }

  /** The predecessor of a settled node, with the edge that accounts for the node's distance. */
  lemma Predecessor(R: seq<Triplet>, src: string, i: nat) returns (j: nat, k: nat)
    requires Justified(R, src) && i < |R| && R[i].predecessor.Some?
    ensures j < i && R[j].node == R[i].predecessor.value && k < |R[j].node.edges|
    ensures R[j].node.edges[k].destination == R[i].node.name
    ensures Add(R[j].distance, R[j].node.edges[k].cost) == R[i].distance
  {
    assert JustifiedBefore(R, R[i], i, src);
    j :| 0 <= j < i && R[j].node == R[i].predecessor.value && Justifies(R[j], R[i]);
    k :| 0 <= k < |R[j].node.edges| && R[j].node.edges[k].destination == R[i].node.name
      && Add(R[j].distance, R[j].node.edges[k].cost) == R[i].distance;
  }

  /** A finite distance without predecessor is the source's, attained by the empty walk. */
  lemma AttainedSource(G: seq<NodeValue>, src: string, R: seq<Triplet>, i: nat) returns (w: seq<string>)
    requires Distinct(TNames(R)) && SourceZero(R, src) && Justified(R, src)
    requires i < |R| && R[i].distance.Fin? && R[i].predecessor.None?
    ensures |w| > 0 && w[0] == src && w[|w| - 1] == R[i].node.name && WalkCost(G, w) == R[i].distance
  {
    AtSettled(R, i);
    assert JustifiedBefore(R, R[i], i, src);
    w := [src];
  }

  /** A walk to a predecessor, extended over the edge that accounts for a distance, attains that distance. */
  lemma AttainedStep(G: seq<NodeValue>, src: string, R: seq<Triplet>, i: nat, j: nat, k: nat, w': seq<string>)
    returns (w: seq<string>)
    requires Settles(G, R) && SourceZero(R, src) && Relaxed(R)
    requires i < |R| && j < |R| && k < |R[j].node.edges|
    requires R[j].node.edges[k].destination == R[i].node.name
    requires Add(R[j].distance, R[j].node.edges[k].cost) == R[i].distance
    requires |w'| > 0 && w'[0] == src && w'[|w'| - 1] == R[j].node.name && WalkCost(G, w') == R[j].distance
    ensures |w| > 0 && w[0] == src && w[|w| - 1] == R[i].node.name && WalkCost(G, w) == R[i].distance
  {
    var u := R[j].node;
    var step := StepCost(G, u.name, R[i].node.name);
    assert Le(step, Fin(u.edges[k].cost));
    w := ExtendWalk(G, w', R[i].node.name);
    AddCheaper(R[j].distance, step.r, u.edges[k].cost);
    AtSettled(R, i);
    LowerBound(G, src, R, w);
    LeAntisymmetric(R[i].distance, WalkCost(G, w));
  }

  /** A finite settled distance is the cost of a walk from the source, found along the predecessors. */
  lemma {:induction false} Attained(G: seq<NodeValue>, src: string, R: seq<Triplet>, i: nat) returns (w: seq<string>)
    requires Settles(G, R) && SourceZero(R, src) && Relaxed(R) && Justified(R, src)
    requires i < |R| && R[i].distance.Fin?
    ensures |w| > 0 && w[0] == src && w[|w| - 1] == R[i].node.name && WalkCost(G, w) == R[i].distance
    decreases i
  {
    if R[i].predecessor.None? {
      w := AttainedSource(G, src, R, i);
    } else {
      var j, k := Predecessor(R, src, i);
      var w' := Attained(G, src, R, j);
      w := AttainedStep(G, src, R, i, j, k, w');
    }
  }

  /**
   * The settled distances are the shortest-path distances: every walk from
   * the source costs at least the distance, a finite distance is attained,
   * and an unreached node has no predecessor.
   */
  lemma ShortestDistances(G: seq<NodeValue>, src: string, R: seq<Triplet>)
    requires DijkstraOutcome(G, src, R)
    ensures forall i, w :: 0 <= i < |R| && |w| > 0 && w[0] == src && w[|w| - 1] == R[i].node.name ==>
      Le(R[i].distance, WalkCost(G, w))
    ensures forall i :: 0 <= i < |R| && R[i].distance.Fin? ==>
      WalkTo(G, src, R[i].node.name, R[i].distance)
    ensures forall i :: 0 <= i < |R| && R[i].distance == Inf ==> R[i].predecessor == None
  {
    DistancesBelow(G, src, R);
    DistancesAttained(G, src, R);
    UnreachedAlone(G, src, R);
  }

  /** Some walk from `src` to `n` costs exactly `d`. */
  ghost predicate WalkTo(G: seq<NodeValue>, src: string, n: string, d: Dist) {
    exists w {:trigger WalkCost(G, w)} :: |w| > 0 && w[0] == src && w[|w| - 1] == n && WalkCost(G, w) == d
  }

  /** A finite settled distance is the cost of some walk from the source. */
  lemma AttainedWalk(G: seq<NodeValue>, src: string, R: seq<Triplet>, i: nat)
    requires DijkstraOutcome(G, src, R) && i < |R| && R[i].distance.Fin?
    ensures WalkTo(G, src, R[i].node.name, R[i].distance)
  {
    var w := Attained(G, src, R, i);
  }

  /** A node left at distance infinity has no predecessor. */
  lemma UnreachedAlone(G: seq<NodeValue>, src: string, R: seq<Triplet>)
    requires DijkstraOutcome(G, src, R)
    ensures forall i :: 0 <= i < |R| && R[i].distance == Inf ==> R[i].predecessor == None
  {
    forall i | 0 <= i < |R| && R[i].distance == Inf
      ensures R[i].predecessor == None
    {
      assert JustifiedBefore(R, R[i], i, src);
    }
  }

  /** Every walk from the source to a settled node costs at least its distance. */
  lemma DistancesBelow(G: seq<NodeValue>, src: string, R: seq<Triplet>)
    requires DijkstraOutcome(G, src, R)
    ensures forall i, w :: 0 <= i < |R| && |w| > 0 && w[0] == src && w[|w| - 1] == R[i].node.name ==>
      Le(R[i].distance, WalkCost(G, w))
  {
    forall i, w | 0 <= i < |R| && |w| > 0 && w[0] == src && w[|w| - 1] == R[i].node.name
      ensures Le(R[i].distance, WalkCost(G, w))
    {
      AtSettled(R, i);
      LowerBound(G, src, R, w);
    }
  }

  /** Every finite settled distance is the cost of some walk from the source. */
  lemma DistancesAttained(G: seq<NodeValue>, src: string, R: seq<Triplet>)
    requires DijkstraOutcome(G, src, R)
    ensures forall i :: 0 <= i < |R| && R[i].distance.Fin? ==>
      WalkTo(G, src, R[i].node.name, R[i].distance)
  {
    forall i | 0 <= i < |R| && R[i].distance.Fin?
      ensures WalkTo(G, src, R[i].node.name, R[i].distance)
    {
      AttainedWalk(G, src, R, i);
    }
  }

  /** Every edge of a graph whose every node is settled and relaxed leads to a node of the graph. */
  lemma OutcomeClosed(G: seq<NodeValue>, R: seq<Triplet>)
    requires Settles(G, R) && Relaxed(R)
    ensures Closed(G)
  {
    forall k, e | 0 <= k < |G| && 0 <= e < |G[k].edges|
      ensures G[k].edges[e].destination in NamesOf(G)
    {
      var n := G[k].name;
      assert NamesOf(G)[k] == n;
      DistinctFirstOf(NamesOf(G), k);
      var i := SettledNode(G, R, n);
      RelaxedEdge(R, i, e);
    }
  }
}
