/**
 * The relaxation invariant of one direction of `bidirectional_dijkstra`
 * (code/Dijkstra.py:39-72): every edge of a settled node ends, within the
 * settled distance plus the edge, at a settled node or at a waiting key,
 * and no key is nearer than a settled node. A direction whose remaining
 * keys are all unreached has then settled every node a walk from its start
 * reaches, at no more than the walk costs.
 */
module Frontiers {
  import opened Wrappers
  import opened Distance
  import opened Seqs
  import opened Nodes
  import opened Reversal
  import opened DijkstraHeaps
  import opened ShortestPaths
  import opened Searches

  /** No key is nearer than a settled node. */
  ghost predicate KeysAbove(S: Search) {
    forall i, q :: 0 <= i < |S.result| && 0 <= q < |S.dist| ==> Le(S.result[i].distance, S.dist[q].distance)
  }

  /** The edge `e` of the settled `x`, into a node of `G`, ends no further than `x` plus `e`: at a settled node or at a key. */
  ghost predicate EdgeRelaxed(G: seq<NodeValue>, S: Search, x: Triplet, e: Edge) {
    e.destination in NamesOf(G) ==>
      || (e.destination in TNames(S.result) && Le(At(S.result, e.destination).distance, Add(x.distance, e.cost)))
      || (e.destination in Keys(S.dist) && Le(DistOf(S.dist, e.destination), Add(x.distance, e.cost)))
  }

  /** The invariant: keys above the settled nodes, and every edge of a settled node relaxed. */
  ghost predicate Frontier(G: seq<NodeValue>, S: Search) {
    && KeysAbove(S)
    && forall i, k :: 0 <= i < |S.result| && 0 <= k < |S.result[i].node.edges| ==>
         EdgeRelaxed(G, S, S.result[i], S.result[i].node.edges[k])
  }

  /** A direction that has settled nothing satisfies the invariant. */
  lemma StartFrontier(G: seq<NodeValue>, v: NodeValue)
    ensures Frontier(G, Start(G, v))
  {
  }

  /** A settled node keeps its triplet when another node is settled after it. */
  lemma AtSnoc(R: seq<Triplet>, x: Triplet, n: string)
    requires n in TNames(R)
    ensures n in TNames(R + [x]) && At(R + [x], n) == At(R, n)
  {
    NamesSnoc(R, x);
    var k := FirstOf(TNames(R), n);
    assert TNames(R + [x])[k] == n;
    assert FirstOf(TNames(R + [x]), n) == k;
  }

  /** The node just settled is found at the end. */
  lemma AtLast(R: seq<Triplet>, x: Triplet)
    requires x.node.name !in TNames(R)
    ensures x.node.name in TNames(R + [x]) && At(R + [x], x.node.name) == x
  {
    NamesSnoc(R, x);
    assert TNames(R + [x])[|R|] == x.node.name;
    assert FirstOf(TNames(R + [x]), x.node.name) == |R|;
  }

  /** Popping a key leaves the distance of every other key. */
  lemma PopKeyDistOf(D: seq<Entry>, n: string, m: string)
    requires n in Keys(D) && Distinct(Keys(D)) && m in Keys(D) && m != n
    ensures m in Keys(PopKey(D, n)) && DistOf(PopKey(D, n), m) == DistOf(D, m)
  {
    var k := FirstOf(Keys(D), n);
    var j := FirstOf(Keys(D), m);
    var D' := PopKey(D, n);
    PopKeyKeys(D, n);
    var j' := if j < k then j else j - 1;
    assert j != k;
    assert D'[j'] == D[j];
    assert Keys(D')[j'] == m;
    DistinctFirstOf(Keys(D'), j');
  }

  /** What relaxing did to one key: it is no further than before, and no nearer than the node relaxed. */
  lemma ImprovedBounds(S: Search, T: Search, u: NodeValue, du: Dist, E: seq<Edge>, q: nat)
    requires q < |S.dist| && q < |T.dist| && Improved(S, T, u, du, E, q)
    requires du.Fin? && Le(du, S.dist[q].distance)
    ensures Le(T.dist[q].distance, S.dist[q].distance) && Le(du, T.dist[q].distance)
  {
    MinCostNonNegative(E, S.dist[q].node.name);
    LeFacts();
  }

  /** The cheapest edge is no dearer than any edge to the same node. */
  lemma PlusMinCostEdge(du: Dist, E: seq<Edge>, i: nat)
    requires du.Fin? && i < |E|
    ensures Le(Plus(du, MinCost(E, E[i].destination)), Add(du, E[i].cost))
  {
    assert Le(MinCost(E, E[i].destination), Fin(E[i].cost));
  }

  /**
   * The state of a step that settles the nearest key, at index `k`: the
   * relaxed dictionaries `T` and the explored direction `X`.
   */
  ghost predicate Step(G: seq<NodeValue>, s: string, S: Search, u: NodeValue, k: nat, T: Search, X: Search) {
    && Searching(G, s, S) && Frontier(G, S) && Nearest(S.dist, k) && S.dist[k].node == u && S.dist[k].distance.Fin?
    && FirstOf(Keys(S.dist), u.name) == k && u.name in S.pred
    && T == RelaxAll(S, u, u.edges) && |T.dist| == |S.dist|
    && (forall q :: 0 <= q < |S.dist| ==> Improved(S, T, u, S.dist[k].distance, u.edges, q))
    && X == Search(PopKey(T.dist, u.name), T.pred, S.result + [Triplet(u, S.dist[k].distance, S.pred[u.name])])
  }

  /** A key other than the one settled is still a key after the step, no further than before and no nearer than the settled one. */
  lemma StepKey(G: seq<NodeValue>, s: string, S: Search, u: NodeValue, k: nat, T: Search, X: Search, n: string)
    requires Step(G, s, S, u, k, T, X) && n in Keys(S.dist) && n != u.name
    ensures n in Keys(X.dist) && Le(DistOf(X.dist, n), DistOf(S.dist, n)) && Le(S.dist[k].distance, DistOf(X.dist, n))
    ensures Le(DistOf(X.dist, n), Plus(S.dist[k].distance, MinCost(u.edges, n)))
  {
    var q := FirstOf(Keys(S.dist), n);
    PopKeyDistOf(T.dist, u.name, n);
    assert Keys(T.dist) == Keys(S.dist);
    assert S.dist[q].node.name == n;
    ImprovedBounds(S, T, u, S.dist[k].distance, u.edges, q);
  }

  /** The key at `q'` after the step is a key of before, no nearer than the node settled. */
  lemma StepKeyAt(G: seq<NodeValue>, s: string, S: Search, u: NodeValue, k: nat, T: Search, X: Search, q': nat)
    requires Step(G, s, S, u, k, T, X) && q' < |X.dist|
    ensures Le(S.dist[k].distance, X.dist[q'].distance)
  {
    var q := if q' < k then q' else q' + 1;
    assert X.dist[q'] == T.dist[q];
    ImprovedBounds(S, T, u, S.dist[k].distance, u.edges, q);
  }

  /** After the step no key is nearer than a settled node. */
  lemma StepKeysAbove(G: seq<NodeValue>, s: string, S: Search, u: NodeValue, k: nat, T: Search, X: Search)
    requires Step(G, s, S, u, k, T, X)
    ensures KeysAbove(X)
  {
    var du := S.dist[k].distance;
    forall i, q' | 0 <= i < |X.result| && 0 <= q' < |X.dist|
      ensures Le(X.result[i].distance, X.dist[q'].distance)
    {
      StepKeyAt(G, s, S, u, k, T, X, q');
      if i < |S.result| {
        assert X.result[i] == S.result[i];
        LeTrans(S.result[i].distance, du, X.dist[q'].distance);
      } else {
        LeFacts();
      }
    }
  }

  /** An edge of a node settled before the step stays relaxed. */
  lemma StepOldEdge(G: seq<NodeValue>, s: string, S: Search, u: NodeValue, k: nat, T: Search, X: Search, y: Triplet, e: Edge)
    requires Step(G, s, S, u, k, T, X) && EdgeRelaxed(G, S, y, e)
    ensures EdgeRelaxed(G, X, y, e)
  {
    var n := e.destination;
    var x := Triplet(u, S.dist[k].distance, S.pred[u.name]);
    if n in NamesOf(G) {
      if n in TNames(S.result) && Le(At(S.result, n).distance, Add(y.distance, e.cost)) {
        AtSnoc(S.result, x, n);
      } else if n == u.name {
        assert u.name !in TNames(S.result);
        AtLast(S.result, x);
      } else {
        StepKey(G, s, S, u, k, T, X, n);
        LeTrans(DistOf(X.dist, n), DistOf(S.dist, n), Add(y.distance, e.cost));
      }
    }
  }

  /** An edge of the node the step settles is relaxed. */
  lemma StepNewEdge(G: seq<NodeValue>, s: string, S: Search, u: NodeValue, k: nat, T: Search, X: Search, j: nat)
    requires Step(G, s, S, u, k, T, X) && j < |u.edges|
    ensures EdgeRelaxed(G, X, Triplet(u, S.dist[k].distance, S.pred[u.name]), u.edges[j])
  {
    var e := u.edges[j];
    var n := e.destination;
    var du := S.dist[k].distance;
    var x := Triplet(u, du, S.pred[u.name]);
    if n in NamesOf(G) {
      PlusMinCostEdge(du, u.edges, j);
      if n in TNames(S.result) {
        AtSnoc(S.result, x, n);
        var i := FirstOf(TNames(S.result), n);
        assert Le(S.result[i].distance, du);
        LeFacts();
      } else if n == u.name {
        AtLast(S.result, x);
        LeFacts();
      } else {
        assert n in Keys(S.dist);
        StepKey(G, s, S, u, k, T, X, n);
        LeTrans(DistOf(X.dist, n), Plus(du, MinCost(u.edges, n)), Add(du, e.cost));
      }
    }
  }

  /** Settling the nearest key, at a finite distance, keeps the invariant. */
  lemma ExploreFrontier(G: seq<NodeValue>, s: string, S: Search, u: NodeValue, k: nat)
    requires Searching(G, s, S) && Frontier(G, S) && Nearest(S.dist, k) && S.dist[k].node == u && S.dist[k].distance.Fin?
    ensures u.name in Keys(S.dist) && Explored(S, u).Success? && Frontier(G, Explored(S, u).value)
  {
    assert Keys(S.dist)[k] == u.name;
    DistinctFirstOf(Keys(S.dist), k);
    var du := S.dist[k].distance;
    var T := RelaxAll(S, u, u.edges);
    RelaxAllKeepsOwn(S, u, u.edges);
    RelaxAllImproves(S, u, u.edges);
    assert forall q :: 0 <= q < |S.dist| ==> S.dist[q].node.name in S.pred;
    var X := Explored(S, u).value;
    assert Step(G, s, S, u, k, T, X);
    StepKeysAbove(G, s, S, u, k, T, X);
    var x := Triplet(u, du, S.pred[u.name]);
    forall i, j | 0 <= i < |X.result| && 0 <= j < |X.result[i].node.edges|
      ensures EdgeRelaxed(G, X, X.result[i], X.result[i].node.edges[j])
    {
      if i < |S.result| {
        assert X.result[i] == S.result[i];
        StepOldEdge(G, s, S, u, k, T, X, S.result[i], S.result[i].node.edges[j]);
      } else {
        assert X.result[i] == x;
        StepNewEdge(G, s, S, u, k, T, X, j);
      }
    }
  }

  /** Every key of `D` is unreached. */
  ghost predicate AllUnreached(D: seq<Entry>) {
    forall q :: 0 <= q < |D| ==> D[q].distance.Inf?
  }

  /** When the nearest key is unreached, so is every key. */
  lemma NearestUnreached(D: seq<Entry>, k: nat)
    requires Nearest(D, k) && D[k].distance.Inf?
    ensures AllUnreached(D)
  {
    assert forall q :: 0 <= q < |D| ==> Le(D[k].distance, D[q].distance);
  }

  /** A key of an all-unreached dictionary is unreached. */
  lemma UnreachedKey(D: seq<Entry>, n: string)
    requires AllUnreached(D) && n in Keys(D)
    ensures DistOf(D, n).Inf?
  {
  }

  /** The edge `e` of the settled `x`, into a node of `G`, ends at a settled node no further than `x` plus `e`. */
  ghost predicate SettledEdge(G: seq<NodeValue>, R: seq<Triplet>, x: Triplet, e: Edge) {
    e.destination in NamesOf(G) ==> e.destination in TNames(R) && Le(At(R, e.destination).distance, Add(x.distance, e.cost))
  }

  /**
   * The settled list of a direction with nothing left to reach: the start at
   * distance 0, nodes of `G`, and every edge of a settled node into `G`
   * relaxed onto a settled node.
   */
  ghost predicate Exhaustive(G: seq<NodeValue>, s: string, R: seq<Triplet>) {
    && s in TNames(R) && At(R, s).distance == Fin(0.0)
    && (forall i :: 0 <= i < |R| ==> R[i].node.name in NamesOf(G) && R[i].node == NodeNamed(G, R[i].node.name))
    && forall i, j :: 0 <= i < |R| && 0 <= j < |R[i].node.edges| ==> SettledEdge(G, R, R[i], R[i].node.edges[j])
  }

  /** A direction whose keys are all unreached is exhaustive. */
  lemma ExhaustiveSearch(G: seq<NodeValue>, s: string, S: Search)
    requires Searching(G, s, S) && Frontier(G, S) && AllUnreached(S.dist)
    ensures Exhaustive(G, s, S.result)
  {
    var R := S.result;
    var z := SettledAt(G, s, R, s);
    forall i, j | 0 <= i < |R| && 0 <= j < |R[i].node.edges|
      ensures SettledEdge(G, R, R[i], R[i].node.edges[j])
    {
      var e := R[i].node.edges[j];
      assert EdgeRelaxed(G, S, R[i], e);
      if e.destination in NamesOf(G) && e.destination !in TNames(R) {
        UnreachedKey(S.dist, e.destination);
      }
    }
  }

  /** A walk from the start to a node of `G` ends at a settled node of an exhaustive direction, which is no further than the walk costs. */
  lemma {:induction false} Exhausted(G: seq<NodeValue>, s: string, R: seq<Triplet>, w: seq<string>)
    requires Exhaustive(G, s, R)
    requires |w| > 0 && w[0] == s && w[|w| - 1] in NamesOf(G) && WalkCost(G, w).Fin?
    ensures w[|w| - 1] in TNames(R) && Le(At(R, w[|w| - 1]).distance, WalkCost(G, w))
    decreases |w|
  {
    if |w| == 1 {
      LeFacts();
    } else {
      var w' := w[..|w| - 1];
      var a := w[|w| - 2];
      var x := w[|w| - 1];
      var c := StepCost(G, a, x);
      assert WalkCost(G, w) == Plus(WalkCost(G, w'), c);
      assert a in NamesOf(G);
      Exhausted(G, s, R, w');
      ExhaustedStep(G, s, R, a, x, c.r);
      ExhaustedArith(At(R, x).distance, At(R, a).distance, c.r, WalkCost(G, w'));
    }
  }

  /** The step of `Exhausted` over a cheapest edge from the settled `a`. */
  lemma ExhaustedStep(G: seq<NodeValue>, s: string, R: seq<Triplet>, a: string, x: string, c: real)
    requires Exhaustive(G, s, R) && a in TNames(R) && x in NamesOf(G) && StepCost(G, a, x) == Fin(c)
    ensures x in TNames(R) && Le(At(R, x).distance, Add(At(R, a).distance, c))
  {
    var i := FirstOf(TNames(R), a);
    var y := R[i];
    assert y.node == NodeNamed(G, a);
    var j :| 0 <= j < |y.node.edges| && y.node.edges[j].destination == x && y.node.edges[j].cost == c;
    assert SettledEdge(G, R, y, y.node.edges[j]);
  }

  /** The arithmetic of `Exhausted`. */
  lemma ExhaustedArith(dx: Dist, da: Dist, c: real, wc: Dist)
    requires Le(dx, Add(da, c)) && Le(da, wc) && wc.Fin?
    ensures Le(dx, Plus(wc, Fin(c)))
  {
  }
}
