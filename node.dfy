/**
 * Nodes and edges of a weighted graph (code/Node.py).
 *
 * An edge is a value: the name of the node it leads to and a non-negative
 * cost. A node is an object whose name never changes and whose edge list
 * the methods below update in place. Nodes compare by name only, so every
 * comparison of nodes in this model is a comparison of names.
 */
module Nodes {
  import opened Wrappers
  import opened Distance

  datatype Edge = Edge(destination: string, cost: Cost)

  /** A snapshot of a node: its name and its edge list at one moment. */
  datatype NodeValue = NodeValue(name: string, edges: seq<Edge>)

  datatype NodeError = NegativeCost

  /** `Edge(destination, cost)`: refuses a negative cost. */
  function NewEdge(destination: string, cost: real): (r: Result<Edge, NodeError>)
    ensures r.Failure? <==> cost < 0.0
    ensures r.Failure? ==> r.error == NegativeCost
    ensures r.Success? ==> r.value.destination == destination && r.value.cost == cost
  {
    if cost < 0.0 then Failure(NegativeCost) else Success(Edge(destination, cost))
  }

  /** Some edge of `E` leads to `d`. */
  predicate HasEdgeTo(E: seq<Edge>, d: string) {
    exists i :: 0 <= i < |E| && E[i].destination == d
  }

  /** Some edge of `E` leads to `d` and costs at most `c`. */
  ghost predicate Covers(E: seq<Edge>, d: string, c: real) {
    exists i :: 0 <= i < |E| && E[i].destination == d && E[i].cost <= c
  }

  /** The cheapest cost of an edge of `E` to `d`, `Inf` when there is none. */
  function MinCost(E: seq<Edge>, d: string): (m: Dist)
    ensures m.Inf? <==> !HasEdgeTo(E, d)
    ensures forall i :: 0 <= i < |E| && E[i].destination == d ==> Le(m, Fin(E[i].cost))
    ensures m.Fin? ==> exists i :: 0 <= i < |E| && E[i].destination == d && E[i].cost == m.r
  {
    if |E| == 0 then Inf
    else
      var rest := MinCost(E[1..], d);
      assert forall i :: 1 <= i < |E| ==> E[i] == E[1..][i - 1];
      if E[0].destination == d then Min(Fin(E[0].cost), rest) else rest
  }

  /** A cheapest cost is never negative. */
  lemma MinCostNonNegative(E: seq<Edge>, d: string)
    ensures MinCost(E, d).Fin? ==> MinCost(E, d).r >= 0.0
  {
  }

  /** Any value that is attained by an edge to `d` and below all of them is `MinCost(E, d)`. */
  lemma MinCostUnique(E: seq<Edge>, d: string, m: Dist)
    requires m.Inf? <==> !HasEdgeTo(E, d)
    requires forall i :: 0 <= i < |E| && E[i].destination == d ==> Le(m, Fin(E[i].cost))
    requires m.Fin? ==> exists i :: 0 <= i < |E| && E[i].destination == d && E[i].cost == m.r
    ensures m == MinCost(E, d)
  {
    var n := MinCost(E, d);
    if m.Fin? {
      var i :| 0 <= i < |E| && E[i].destination == d && E[i].cost == m.r;
      var k :| 0 <= k < |E| && E[k].destination == d && E[k].cost == n.r;
      assert Le(m, Fin(E[k].cost));
      assert Le(n, Fin(E[i].cost));
    }
  }

  /** A cheapest edge to `d` costs at most `c` exactly when some edge to `d` does. */
  lemma CoversMinCost(E: seq<Edge>, d: string, c: real)
    ensures Covers(E, d, c) <==> Le(MinCost(E, d), Fin(c))
  {
    var m := MinCost(E, d);
    if Le(m, Fin(c)) {
      var i :| 0 <= i < |E| && E[i].destination == d && E[i].cost == m.r;
    }
    if Covers(E, d, c) {
      var i :| 0 <= i < |E| && E[i].destination == d && E[i].cost <= c;
      assert Le(m, Fin(E[i].cost));
    }
  }

  /** `E2` keeps the first `|E1|` edges of `E1` in place, to the same destinations, never dearer. */
  ghost predicate Lowered(E2: seq<Edge>, E1: seq<Edge>) {
    |E1| <= |E2| && forall i :: 0 <= i < |E1| ==> E2[i].destination == E1[i].destination && E2[i].cost <= E1[i].cost
  }

  lemma LoweredTransitive(E3: seq<Edge>, E2: seq<Edge>, E1: seq<Edge>)
    requires Lowered(E3, E2) && Lowered(E2, E1)
    ensures Lowered(E3, E1)
  {
  }

  /** Lowering keeps every edge available at the same or a better cost. */
  lemma LoweredCovers(E2: seq<Edge>, E1: seq<Edge>, d: string, c: real)
    requires Lowered(E2, E1) && Covers(E1, d, c)
    ensures Covers(E2, d, c)
  {
    var i :| 0 <= i < |E1| && E1[i].destination == d && E1[i].cost <= c;
    assert E2[i].destination == d && E2[i].cost <= c;
  }

  /** One edge after `add_shortcut(d, c)` has looked at it. */
  function LowerTo(e: Edge, d: string, c: Cost): Edge {
    if e.destination == d && e.cost > c then Edge(d, c) else e
  }

  /**
   * The edge list after `add_shortcut(d, c)`: every edge to `d` dearer than
   * `c` now costs `c`, and an edge to `d` is appended only when there was none.
   */
  ghost function Shortcut(E: seq<Edge>, d: string, c: Cost): seq<Edge> {
    seq(|E|, i requires 0 <= i < |E| => LowerTo(E[i], d, c)) + (if HasEdgeTo(E, d) then [] else [Edge(d, c)])
  }

  /** `add_shortcut` never raises a cost, never reorders edges, and leaves other destinations alone. */
  lemma ShortcutLowers(E: seq<Edge>, d: string, c: Cost)
    ensures Lowered(Shortcut(E, d, c), E)
    ensures |Shortcut(E, d, c)| == if HasEdgeTo(E, d) then |E| else |E| + 1
    ensures forall i :: 0 <= i < |E| && E[i].destination != d ==> Shortcut(E, d, c)[i] == E[i]
    ensures Covers(Shortcut(E, d, c), d, c)
  {
    var S := Shortcut(E, d, c);
    if HasEdgeTo(E, d) {
      var i :| 0 <= i < |E| && E[i].destination == d;
      assert S[i] == LowerTo(E[i], d, c);
    } else {
      assert S[|E|] == Edge(d, c);
    }
  }

  /** The cheapest edge to `d` after `add_shortcut(d, c)` costs `min(old cheapest, c)`; other destinations keep theirs. */
  lemma ShortcutMinCost(E: seq<Edge>, d: string, c: Cost, x: string)
    ensures MinCost(Shortcut(E, d, c), x) == if x == d then Min(MinCost(E, d), Fin(c)) else MinCost(E, x)
  {
    if x == d {
      ShortcutMinCostAt(E, d, c);
    } else {
      ShortcutMinCostOther(E, d, c, x);
    }
  }

  lemma ShortcutMinCostAt(E: seq<Edge>, d: string, c: Cost)
    ensures MinCost(Shortcut(E, d, c), d) == Min(MinCost(E, d), Fin(c))
  {
    ShortcutAtBelow(E, d, c);
    ShortcutAtAttained(E, d, c);
    ShortcutLowers(E, d, c);
    var i :| 0 <= i < |Shortcut(E, d, c)| && Shortcut(E, d, c)[i].destination == d && Shortcut(E, d, c)[i].cost <= c;
    MinCostUnique(Shortcut(E, d, c), d, Min(MinCost(E, d), Fin(c)));
  }

  /** After `add_shortcut(d, c)` no edge to `d` costs less than `min(old cheapest, c)`. */
  lemma ShortcutAtBelow(E: seq<Edge>, d: string, c: Cost)
    ensures forall j :: 0 <= j < |Shortcut(E, d, c)| && Shortcut(E, d, c)[j].destination == d ==>
      Le(Min(MinCost(E, d), Fin(c)), Fin(Shortcut(E, d, c)[j].cost))
  {
    var S := Shortcut(E, d, c);
    var m := Min(MinCost(E, d), Fin(c));
    forall j | 0 <= j < |S| && S[j].destination == d
      ensures Le(m, Fin(S[j].cost))
    {
      if j < |E| {
        assert S[j] == LowerTo(E[j], d, c);
        assert Le(MinCost(E, d), Fin(E[j].cost));
      }
    }
  }

  /** After `add_shortcut(d, c)` some edge to `d` costs exactly `min(old cheapest, c)`. */
  lemma ShortcutAtAttained(E: seq<Edge>, d: string, c: Cost)
    ensures exists i :: 0 <= i < |Shortcut(E, d, c)| && Shortcut(E, d, c)[i].destination == d && Shortcut(E, d, c)[i].cost == Min(MinCost(E, d), Fin(c)).r
  {
    var S := Shortcut(E, d, c);
    var old_m := MinCost(E, d);
    if old_m.Fin? && old_m.r < c {
      var k :| 0 <= k < |E| && E[k].destination == d && E[k].cost == old_m.r;
      assert S[k] == LowerTo(E[k], d, c) == E[k];
    } else if HasEdgeTo(E, d) {
      var i :| 0 <= i < |E| && E[i].destination == d;
      assert S[i] == LowerTo(E[i], d, c);
      assert Le(old_m, Fin(E[i].cost));
    } else {
      assert S[|E|] == Edge(d, c);
    }
  }

  lemma ShortcutMinCostOther(E: seq<Edge>, d: string, c: Cost, x: string)
    requires x != d
    ensures MinCost(Shortcut(E, d, c), x) == MinCost(E, x)
  {
    var S := Shortcut(E, d, c);
    ShortcutLowers(E, d, c);
    assert forall i :: 0 <= i < |E| ==> S[i] == LowerTo(E[i], d, c);
    var m := MinCost(E, x);
    assert |S| == |E| || S[|E|].destination == d;
    forall j | 0 <= j < |S| && S[j].destination == x
      ensures j < |E| && S[j] == E[j]
    {
    }
    if m.Fin? {
      var k :| 0 <= k < |E| && E[k].destination == x && E[k].cost == m.r;
      assert S[k] == E[k];
    }
    if HasEdgeTo(S, x) {
      var k :| 0 <= k < |S| && S[k].destination == x;
      assert S[k] == E[k];
    }
    MinCostUnique(S, x, m);
  }

  /** A shortcut no cheaper than some edge to its destination changes no cheapest cost. */
  lemma ShortcutCovered(B: seq<Edge>, d: string, c: Cost, x: string)
    requires Covers(B, d, c)
    ensures MinCost(Shortcut(B, d, c), x) == MinCost(B, x)
  {
    if x == d {
      ShortcutCoveredAt(B, d, c);
    } else {
      ShortcutMinCostOther(B, d, c, x);
    }
  }

  lemma ShortcutCoveredAt(B: seq<Edge>, d: string, c: Cost)
    requires Covers(B, d, c)
    ensures MinCost(Shortcut(B, d, c), d) == MinCost(B, d)
  {
    var m := MinCost(B, d);
    CoversMinCost(B, d, c);
    ShortcutMinCostAt(B, d, c);
    MinAbsorbs(m, c, c);
  }

  /** A minimum already below `c` is not lowered by anything dearer than `c`. */
  lemma MinAbsorbs(m: Dist, c: real, c': real)
    requires Le(m, Fin(c)) && c <= c'
    ensures Min(m, Fin(c')) == m
  {
  }

  /** The index of the first edge of `E` to `d`, `|E|` when there is none. */
  function FirstIndex(E: seq<Edge>, d: string): (k: nat)
    ensures k <= |E|
    ensures k < |E| ==> E[k].destination == d
    ensures forall i :: 0 <= i < k ==> E[i].destination != d
    ensures k == |E| <==> !HasEdgeTo(E, d)
  {
    if |E| == 0 then 0
    else if E[0].destination == d then 0
    else
      assert forall i :: 1 <= i < |E| ==> E[i] == E[1..][i - 1];
      1 + FirstIndex(E[1..], d)
  }

  /** The edge list after `remove_edge(d)`: the first edge to `d` is gone, the rest keep their order. */
  function RemoveFirst(E: seq<Edge>, d: string): seq<Edge> {
    var k := FirstIndex(E, d);
    if k < |E| then E[..k] + E[k + 1..] else E
  }

  /** `remove_edge` removes at most one edge and keeps every edge to another destination. */
  lemma RemoveFirstFacts(E: seq<Edge>, d: string)
    ensures |RemoveFirst(E, d)| == if HasEdgeTo(E, d) then |E| - 1 else |E|
    ensures forall j :: 0 <= j < |RemoveFirst(E, d)| && j < FirstIndex(E, d) ==> RemoveFirst(E, d)[j] == E[j]
    ensures forall j :: FirstIndex(E, d) <= j < |RemoveFirst(E, d)| ==> RemoveFirst(E, d)[j] == E[j + 1]
  {
    var k := FirstIndex(E, d);
    if k < |E| {
      RemoveAtFacts(E, k, RemoveFirst(E, d));
    }
  }

  /** Dropping the element at `k` shifts the later ones down by one. */
  lemma RemoveAtFacts(E: seq<Edge>, k: nat, R: seq<Edge>)
    requires k < |E| && R == E[..k] + E[k + 1..]
    ensures |R| == |E| - 1
    ensures forall j :: 0 <= j < k ==> R[j] == E[j]
    ensures forall j :: k <= j < |R| ==> R[j] == E[j + 1]
  {
  }

  /** `remove_edge(d)` keeps the cheapest cost to every other destination. */
  lemma RemoveFirstMinCost(E: seq<Edge>, d: string, x: string)
    requires x != d
    ensures MinCost(RemoveFirst(E, d), x) == MinCost(E, x)
  {
    var R := RemoveFirst(E, d);
    var k := FirstIndex(E, d);
    var m := MinCost(E, x);
    RemoveFirstFacts(E, d);
    if k < |E| {
      if m.Fin? {
        var i :| 0 <= i < |E| && E[i].destination == x && E[i].cost == m.r;
        if i < k {
          assert R[i] == E[i];
        } else {
          assert R[i - 1] == E[i];
        }
      }
      forall j | 0 <= j < |R| && R[j].destination == x
        ensures Le(m, Fin(R[j].cost))
      {
        if j >= k {
          assert R[j] == E[j + 1];
        }
      }
      MinCostUnique(R, x, m);
    }
  }

  /** `remove_edge(d)` never lowers a cheapest cost: every edge left was there before. */
  lemma RemoveFirstRaises(E: seq<Edge>, d: string, x: string)
    ensures Le(MinCost(E, x), MinCost(RemoveFirst(E, d), x))
  {
    var R := RemoveFirst(E, d);
    RemoveFirstFacts(E, d);
    if MinCost(R, x).Fin? {
      var j :| 0 <= j < |R| && R[j].destination == x && R[j].cost == MinCost(R, x).r;
      if j < FirstIndex(E, d) {
        assert R[j] == E[j];
      } else {
        assert R[j] == E[j + 1];
      }
    }
  }

  /** `remove_edge(d)` keeps every edge to another destination. */
  lemma RemoveFirstCovers(E: seq<Edge>, d: string, x: string, c: real)
    requires x != d && Covers(E, x, c)
    ensures Covers(RemoveFirst(E, d), x, c)
  {
    var R := RemoveFirst(E, d);
    var k := FirstIndex(E, d);
    var i :| 0 <= i < |E| && E[i].destination == x && E[i].cost <= c;
    if k < |E| {
      assert i != k;
      if i < k {
        assert R[i] == E[i];
      } else {
        assert R[i - 1] == E[i];
      }
    }
  }

  /**
   * The step at lines 157-159 of code/Graph.py: when no edge to `d` is
   * cheaper than `c`, dropping the first edge to `d` and appending one of
   * cost `c` makes `c` the cheapest cost to `d`; other destinations keep theirs.
   */
  lemma ReplaceMinCost(E: seq<Edge>, d: string, c: Cost, x: string)
    requires forall i :: 0 <= i < |E| && E[i].destination == d ==> c <= E[i].cost
    ensures MinCost(RemoveFirst(E, d) + [Edge(d, c)], x) == if x == d then Fin(c) else MinCost(E, x)
  {
    var R := RemoveFirst(E, d);
    MinCostSnoc(R, Edge(d, c), x);
    if x == d {
      var k := FirstIndex(E, d);
      RemoveFirstFacts(E, d);
      forall j | 0 <= j < |R| && R[j].destination == d
        ensures Le(Fin(c), Fin(R[j].cost))
      {
        assert R[j] == E[j] || R[j] == E[j + 1];
      }
      MinBelow(R, d, c);
    } else {
      RemoveFirstMinCost(E, d, x);
    }
  }

  /** A cost below every edge to `d` is below their cheapest. */
  lemma MinBelow(R: seq<Edge>, d: string, c: Cost)
    requires forall j :: 0 <= j < |R| && R[j].destination == d ==> Le(Fin(c), Fin(R[j].cost))
    ensures Min(MinCost(R, d), Fin(c)) == Fin(c)
  {
    LeFacts();
    if MinCost(R, d).Fin? {
      var i :| 0 <= i < |R| && R[i].destination == d && R[i].cost == MinCost(R, d).r;
    }
  }

  /** One more edge at the end lowers the cheapest cost to its destination only. */
  lemma MinCostSnoc(F: seq<Edge>, e: Edge, x: string)
    ensures MinCost(F + [e], x) == if e.destination == x then Min(MinCost(F, x), Fin(e.cost)) else MinCost(F, x)
  {
    var S := F + [e];
    var m := if e.destination == x then Min(MinCost(F, x), Fin(e.cost)) else MinCost(F, x);
    LeFacts();
    assert S[|F|] == e;
    forall j | 0 <= j < |S| && S[j].destination == x
      ensures Le(m, Fin(S[j].cost))
    {
      if j < |F| {
        assert S[j] == F[j];
      }
    }
    if MinCost(F, x).Fin? {
      var i :| 0 <= i < |F| && F[i].destination == x && F[i].cost == MinCost(F, x).r;
      assert S[i] == F[i];
    }
    if HasEdgeTo(S, x) && e.destination != x {
      var j :| 0 <= j < |S| && S[j].destination == x;
      assert j < |F| && S[j] == F[j];
    }
    MinCostUnique(S, x, m);
  }

  class Node {
    const name: string
    var edges: seq<Edge>

    /** `Node(name)`: a node without edges. */
    constructor (n: string)
      ensures name == n && edges == []
    {
      name := n;
      edges := [];
    }

    /** The node as a value. */
    function Value(): (v: NodeValue)
      reads this
      ensures v.name == name && v.edges == edges
    {
      NodeValue(name, edges)
    }

    /** `add_edge(destination, cost)`: appends one edge; a negative cost is refused and nothing changes. */
    method AddEdge(destination: string, cost: real) returns (r: Outcome<NodeError>)
      modifies this
      ensures r.Fail? <==> cost < 0.0
      ensures r.Fail? ==> r.error == NegativeCost && edges == old(edges)
      ensures r.Pass? ==> edges == old(edges) + [Edge(destination, cost)]
    {
      var e := NewEdge(destination, cost);
      if e.Failure? {
        return Fail(e.error);
      }
      edges := edges + [e.value];
      r := Pass;
    }

    /**
     * `add_shortcut(destination, cost)`: walks the edge list, lowers every
     * edge to `destination` that costs more than `cost`, and appends a new
     * edge only when no edge to `destination` was met.
     */
    method AddShortcut(destination: string, cost: Cost)
      modifies this
      ensures edges == Shortcut(old(edges), destination, cost)
    {
      var needToAdd := true;
      var i := 0;
      while i < |edges|
        invariant 0 <= i <= |edges| == |old(edges)|
        invariant forall j :: 0 <= j < i ==> edges[j] == LowerTo(old(edges)[j], destination, cost)
        invariant forall j :: i <= j < |edges| ==> edges[j] == old(edges)[j]
        invariant needToAdd <==> forall j :: 0 <= j < i ==> old(edges)[j].destination != destination
      {
        var e := edges[i];
        if e.destination == destination && e.cost <= cost {
          needToAdd := false;
        }
        if e.destination == destination && e.cost > cost {
          needToAdd := false;
          edges := edges[i := Edge(e.destination, cost)];
        }
        i := i + 1;
      }
      assert edges == seq(|old(edges)|, j requires 0 <= j < |old(edges)| => LowerTo(old(edges)[j], destination, cost));
      if needToAdd {
        edges := edges + [Edge(destination, cost)];
      }
    }

    /** `remove_edge(destination)`: removes the first edge to `destination`, if any. */
    method RemoveEdge(destination: string)
      modifies this
      ensures edges == RemoveFirst(old(edges), destination)
    {
      var i := 0;
      while i < |edges|
        invariant 0 <= i <= |edges| && edges == old(edges)
        invariant forall j :: 0 <= j < i ==> edges[j].destination != destination
      {
        if edges[i].destination == destination {
          edges := edges[..i] + edges[i + 1..];
          return;
        }
        i := i + 1;
      }
    }
  }
}
