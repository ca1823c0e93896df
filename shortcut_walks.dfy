/**
 * Why the shortcuts of a contraction hierarchy (code/Graph.py:94-160) keep
 * shortest distances: the cheapest edge of every level between two nodes
 * costs no less than some walk of the original graph between them, and the
 * original edges all stay in the graph `add_shortcuts` returns. So a walk
 * costs no more there than in the original, and every walk there is matched
 * by a walk of the original between the same nodes that costs no more.
 */
module ShortcutWalks {
  import opened Distance
  import opened Seqs
  import opened Nodes
  import opened Reversal
  import opened ShortestPaths
  import opened Walks
  import opened Contraction
  import opened Merging

  /** Some walk of `G` from `u` to `x` costs at most `d` (trivially so when `d` is `Inf`). */
  ghost predicate Realizes(G: seq<NodeValue>, u: string, x: string, d: Dist) {
    d.Inf? || exists w {:trigger WalkCost(G, w)} :: |w| > 0 && w[0] == u && w[|w| - 1] == x && Le(WalkCost(G, w), d)
  }

  /** A walk that `Realizes` promises. */
  lemma ChooseWalk(G: seq<NodeValue>, u: string, x: string, d: Dist) returns (w: seq<string>)
    requires Realizes(G, u, x, d)
    ensures |w| > 0 && w[0] == u && w[|w| - 1] == x && Le(WalkCost(G, w), d)
  {
    if d.Inf? {
      w := [u, x];
    } else {
      w :| |w| > 0 && w[0] == u && w[|w| - 1] == x && Le(WalkCost(G, w), d);
    }
  }


  /** A bound above a realized one is realized. */
  lemma RealizesAbove(G: seq<NodeValue>, u: string, x: string, a: Dist, b: Dist)
    requires Realizes(G, u, x, a) && Le(a, b)
    ensures Realizes(G, u, x, b)
  {
    if b.Fin? {
      var w := ChooseWalk(G, u, x, a);
      LeTrans(WalkCost(G, w), a, b);
    }
  }

  /** A walk to `v` followed by a walk from `v`: the endpoints are the outer ones, the cost the sum. */
  lemma WalkThrough(G: seq<NodeValue>, w1: seq<string>, w2: seq<string>) returns (w: seq<string>)
    requires |w1| > 0 && |w2| > 0 && w1[|w1| - 1] == w2[0]
    ensures |w| > 0 && w[0] == w1[0] && w[|w| - 1] == w2[|w2| - 1]
    ensures WalkCost(G, w) == Plus(WalkCost(G, w1), WalkCost(G, w2))
  {
    var t := w2[1..];
    w := w1 + t;
    assert w[0] == w1[0];
    if |t| == 0 {
      assert w == w1;
    } else {
      assert w[|w| - 1] == t[|t| - 1];
    }
    WalkCostJoin(G, w1, w2);
  }

  /** Two realized bounds, one to `v` and one from `v`, realize their sum. */
  lemma RealizesJoin(G: seq<NodeValue>, u: string, v: string, x: string, a: Dist, b: Dist)
    requires Realizes(G, u, v, a) && Realizes(G, v, x, b)
    ensures Realizes(G, u, x, Plus(a, b))
  {
    if a.Fin? && b.Fin? {
      var w1 := ChooseWalk(G, u, v, a);
      var w2 := ChooseWalk(G, v, x, b);
      var w := WalkThrough(G, w1, w2);
      PlusMonotone(WalkCost(G, w1), a, WalkCost(G, w2), b);
      assert |w| > 0 && w[0] == u && w[|w| - 1] == x && Le(WalkCost(G, w), Plus(a, b));
    }
  }

  /** Every cheapest cost of every node of `G` is realized by a walk of `G0`. */
  ghost predicate Realized(G0: seq<NodeValue>, G: seq<NodeValue>) {
    forall q, x :: 0 <= q < |G| ==> Realizes(G0, G[q].name, x, MinCost(G[q].edges, x))
  }

  /** The walk over one cheapest edge costs that edge. */
  lemma EdgeWalk(G: seq<NodeValue>, q: nat, x: string)
    requires Distinct(NamesOf(G)) && q < |G|
    ensures WalkCost(G, [G[q].name, x]) == MinCost(G[q].edges, x)
  {
    var w := [G[q].name, x];
    DistinctFirstOf(NamesOf(G), q);
    assert w[..1] == [G[q].name];
  }

  /** A graph with distinct names realizes its own edges. */
  lemma RealizedBase(G: seq<NodeValue>)
    requires Distinct(NamesOf(G))
    ensures Realized(G, G)
  {
    forall q, x | 0 <= q < |G|
      ensures Realizes(G, G[q].name, x, MinCost(G[q].edges, x))
    {
      EdgeWalk(G, q, x);
      LeFacts();
    }
  }

  /** A shortcut through the contracted node is realized by joining the walks to it and from it. */
  lemma RealizedStepAt(G0: seq<NodeValue>, G: seq<NodeValue>, k: nat, q: nat, x: string)
    requires Realized(G0, G) && k < |G| && Distinct(NamesOf(G)) && q < |G| - 1
    ensures Realizes(G0, NextLevel(G, k)[q].name, x, MinCost(NextLevel(G, k)[q].edges, x))
  {
    var u := G[if q < k then q else q + 1];
    var v := G[k];
    NextLevelMinCost(G, k, q, x);
    var a := MinCost(u.edges, x);
    var b := MinCost(u.edges, v.name);
    var c := MinCost(v.edges, x);
    assert Realizes(G0, u.name, x, a);
    assert Realizes(G0, u.name, v.name, b);
    assert Realizes(G0, v.name, x, c);
    RealizesJoin(G0, u.name, v.name, x, b, c);
    RealizesAbove(G0, u.name, x, Min(a, Plus(b, c)), MinCost(NextLevel(G, k)[q].edges, x));
  }

  /** One contraction step adds no edge that a walk of `G0` does not already realize. */
  lemma RealizedStep(G0: seq<NodeValue>, G: seq<NodeValue>, k: nat)
    requires Realized(G0, G) && k < |G| && Distinct(NamesOf(G))
    ensures Realized(G0, NextLevel(G, k))
  {
    var H := NextLevel(G, k);
    forall q, x | 0 <= q < |H|
      ensures Realizes(G0, H[q].name, x, MinCost(H[q].edges, x))
    {
      RealizedStepAt(G0, G, k, q, x);
    }
  }

  /** Contracting a node keeps the names distinct. */
  lemma NextLevelDistinct(G: seq<NodeValue>, k: nat)
    requires k < |G| && Distinct(NamesOf(G))
    ensures Distinct(NamesOf(NextLevel(G, k)))
  {
    var H := NextLevel(G, k);
    forall i, j | 0 <= i < j < |H|
      ensures NamesOf(H)[i] != NamesOf(H)[j]
    {
      var i' := if i < k then i else i + 1;
      var j' := if j < k then j else j + 1;
      assert NamesOf(G)[i'] != NamesOf(G)[j'];
    }
  }

  /** Every level of a hierarchy over a graph with distinct names has distinct names and is realized by the graph. */
  lemma {:induction false} HierarchyRealized(levels: seq<seq<NodeValue>>, l: nat)
    requires Hierarchy(levels) && l < |levels| && Distinct(NamesOf(levels[0]))
    ensures Realized(levels[0], levels[l]) && Distinct(NamesOf(levels[l]))
  {
    if l == 0 {
      RealizedBase(levels[0]);
    } else {
      HierarchyRealized(levels, l - 1);
      assert ContractionStep(levels[l - 1], levels[l]);
      var k :| LeastImportant(levels[l - 1], k) && levels[l] == NextLevel(levels[l - 1], k);
      RealizedStep(levels[0], levels[l - 1], k);
      NextLevelDistinct(levels[l - 1], k);
    }
  }

  /** The cheapest cost of a level from `name` is realized when the level is. */
  lemma LevelCostRealized(G0: seq<NodeValue>, G: seq<NodeValue>, name: string, x: string)
    requires Realized(G0, G)
    ensures Realizes(G0, name, x, LevelCost(G, name, x))
  {
    var k := FirstOf(NamesOf(G), name);
    if k < |G| {
      assert G[k].name == name;
      assert Realizes(G0, G[k].name, x, MinCost(G[k].edges, x));
    }
  }

  /** The cheapest cost over all levels is realized when every level is. */
  lemma {:induction false} LevelsMinRealized(G0: seq<NodeValue>, levels: seq<seq<NodeValue>>, name: string, x: string)
    requires forall l :: 0 <= l < |levels| ==> Realized(G0, levels[l])
    ensures Realizes(G0, name, x, LevelsMin(levels, name, x))
  {
    if |levels| > 0 {
      var P := levels[..|levels| - 1];
      assert forall l :: 0 <= l < |P| ==> P[l] == levels[l];
      LevelsMinRealized(G0, P, name, x);
      LevelCostRealized(G0, levels[|levels| - 1], name, x);
    }
  }

  /** The cheapest cost over all levels is no more than the first level's. */
  lemma {:induction false} LevelsMinBelowFirst(levels: seq<seq<NodeValue>>, name: string, x: string)
    requires |levels| > 0
    ensures Le(LevelsMin(levels, name, x), LevelCost(levels[0], name, x))
  {
    if |levels| > 1 {
      var P := levels[..|levels| - 1];
      LevelsMinBelowFirst(P, name, x);
      LeTrans(LevelsMin(levels, name, x), LevelsMin(P, name, x), LevelCost(levels[0], name, x));
    }
  }

  /**
   * `M` is what `add_shortcuts` returns for the hierarchy `levels`: the nodes
   * of the first level, in order, each with the cheapest cost of every level.
   */
  ghost predicate MergedGraph(levels: seq<seq<NodeValue>>, M: seq<NodeValue>) {
    |levels| > 0 && NamesOf(M) == NamesOf(levels[0])
    && forall k, x :: 0 <= k < |M| ==> MinCost(M[k].edges, x) == LevelsMin(levels, M[k].name, x)
  }

  /** A step costs no more in the merged graph than in the original. */
  lemma MergedStepNoDearer(levels: seq<seq<NodeValue>>, M: seq<NodeValue>, a: string, b: string)
    requires MergedGraph(levels, M)
    ensures Le(StepCost(M, a, b), StepCost(levels[0], a, b))
  {
    var G := levels[0];
    if a in NamesOf(G) {
      var i := FirstOf(NamesOf(G), a);
      assert M[i].name == a;
      LevelsMinBelowFirst(levels, a, b);
    }
  }

  /** No walk costs more in the graph `add_shortcuts` returns than in the original graph. */
  lemma {:induction false} MergedNoDearer(levels: seq<seq<NodeValue>>, M: seq<NodeValue>, w: seq<string>)
    requires MergedGraph(levels, M) && |w| > 0
    ensures Le(WalkCost(M, w), WalkCost(levels[0], w))
    decreases |w|
  {
    if |w| > 1 {
      var w' := w[..|w| - 1];
      MergedNoDearer(levels, M, w');
      MergedStepNoDearer(levels, M, w[|w| - 2], w[|w| - 1]);
      PlusMonotone(WalkCost(M, w'), WalkCost(levels[0], w'), StepCost(M, w[|w| - 2], w[|w| - 1]), StepCost(levels[0], w[|w| - 2], w[|w| - 1]));
    } else {
      LeFacts();
    }
  }

  /** A step of the merged graph is realized by a walk of the original graph. */
  lemma MergedStepRealized(levels: seq<seq<NodeValue>>, M: seq<NodeValue>, a: string, b: string)
    requires Hierarchy(levels) && MergedGraph(levels, M) && Distinct(NamesOf(levels[0]))
    ensures Realizes(levels[0], a, b, StepCost(M, a, b))
  {
    if a in NamesOf(M) {
      var i := FirstOf(NamesOf(M), a);
      assert M[i].name == a;
      forall l | 0 <= l < |levels|
        ensures Realized(levels[0], levels[l])
      {
        HierarchyRealized(levels, l);
      }
      LevelsMinRealized(levels[0], levels, a, b);
    }
  }

  /**
   * Every walk of the graph `add_shortcuts` returns is matched by a walk of
   * the original graph between the same nodes that costs no more: the
   * shortcuts never undercut a shortest walk.
   */
  lemma {:induction false} MergedRealized(levels: seq<seq<NodeValue>>, M: seq<NodeValue>, w: seq<string>) returns (w0: seq<string>)
    requires Hierarchy(levels) && MergedGraph(levels, M) && Distinct(NamesOf(levels[0])) && |w| > 0
    ensures |w0| > 0 && w0[0] == w[0] && w0[|w0| - 1] == w[|w| - 1]
    ensures Le(WalkCost(levels[0], w0), WalkCost(M, w))
    decreases |w|
  {
    if |w| == 1 {
      w0 := w;
      LeFacts();
    } else {
      var w' := w[..|w| - 1];
      var a, b := w[|w| - 2], w[|w| - 1];
      var p := MergedRealized(levels, M, w');
      assert p[0] == w[0] && p[|p| - 1] == a;
      assert Realizes(levels[0], w[0], a, WalkCost(M, w'));
      MergedStepRealized(levels, M, a, b);
      RealizesJoin(levels[0], w[0], a, b, WalkCost(M, w'), StepCost(M, a, b));
      assert WalkCost(M, w) == Plus(WalkCost(M, w'), StepCost(M, a, b));
      w0 := ChooseWalk(levels[0], w[0], b, WalkCost(M, w));
    }
  }
}
