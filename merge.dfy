/**
 * The edge merge of `add_shortcuts` (code/Graph.py:141-160): the edges of
 * every level of the contraction hierarchy are merged into the node of the
 * same name, each one replacing the dearer edges to its destination.
 */
module Merging {
  import opened Distance
  import opened Seqs
  import opened Nodes
  import opened Reversal

  /** Some edge of `E` to `d` costs strictly less than `c`. */
  ghost predicate HasCheaper(E: seq<Edge>, d: string, c: real) {
    exists j :: 0 <= j < |E| && E[j].destination == d && E[j].cost < c
  }

  /**
   * The edge list after one edge `d, c` of a level has been merged
   * (lines 151-159): unchanged when a cheaper edge to `d` exists, otherwise
   * the first edge to `d` is removed and `Edge(d, c)` appended.
   */
  ghost function Merged(E: seq<Edge>, d: string, c: Cost): seq<Edge> {
    if HasCheaper(E, d, c) then E else RemoveFirst(E, d) + [Edge(d, c)]
  }

  /** Merging `d, c` makes the cheapest cost to `d` the smaller of the two and keeps every other one. */
  lemma MergedMinCost(E: seq<Edge>, d: string, c: Cost, x: string)
    ensures MinCost(Merged(E, d, c), x) == if x == d then Min(MinCost(E, d), Fin(c)) else MinCost(E, x)
  {
    LeFacts();
    if HasCheaper(E, d, c) {
      var j :| 0 <= j < |E| && E[j].destination == d && E[j].cost < c;
      assert Le(MinCost(E, d), Fin(E[j].cost));
    } else {
      ReplaceMinCost(E, d, c, x);
      if x == d && MinCost(E, d).Fin? {
        var i :| 0 <= i < |E| && E[i].destination == d && E[i].cost == MinCost(E, d).r;
      }
    }
  }

  /** Merging an edge to a destination `E` already has keeps the length. */
  lemma MergedLength(E: seq<Edge>, d: string, c: Cost)
    requires HasEdgeTo(E, d)
    ensures |Merged(E, d, c)| == |E|
  {
    RemoveFirstFacts(E, d);
  }

  /** Merging an edge `E` already has at no lower cost keeps every cheapest cost. */
  lemma MergedOwnMinCost(E: seq<Edge>, d: string, c: Cost, x: string)
    requires Covers(E, d, c)
    ensures MinCost(Merged(E, d, c), x) == MinCost(E, x)
  {
    MergedMinCost(E, d, c, x);
    CoversMinCost(E, d, c);
    LeFacts();
  }

  /** The cheapest cost from the node named `name` to `x` at one level, `Inf` when the level has no such node. */
  function LevelCost(G: seq<NodeValue>, name: string, x: string): Dist {
    var k := FirstOf(NamesOf(G), name);
    if k < |G| then MinCost(G[k].edges, x) else Inf
  }

  /** The cheapest cost from `name` to `x` over all the levels. */
  function LevelsMin(levels: seq<seq<NodeValue>>, name: string, x: string): Dist {
    if |levels| == 0 then Inf
    else Min(LevelsMin(levels[..|levels| - 1], name, x), LevelCost(levels[|levels| - 1], name, x))
  }

  lemma LevelsMinStep(levels: seq<seq<NodeValue>>, l: nat, name: string, x: string)
    requires l < |levels|
    ensures LevelsMin(levels[..l + 1], name, x) == Min(LevelsMin(levels[..l], name, x), LevelCost(levels[l], name, x))
  {
    assert levels[..l + 1][..l] == levels[..l];
  }

  /**
   * After the loop of `add_shortcuts` has handled its first `p` nodes: they
   * carry the cheapest cost of every level, the others are as at the first level.
   */
  ghost predicate MergedUpTo(levels: seq<seq<NodeValue>>, H: seq<NodeValue>, p: nat) {
    |levels| > 0 && |H| == |levels[0]| && p <= |H|
    && (forall q, x :: 0 <= q < p ==> MinCost(H[q].edges, x) == LevelsMin(levels, H[q].name, x))
    && (forall q :: p <= q < |H| ==> H[q] == levels[0][q])
  }

  lemma MergedNext(levels: seq<seq<NodeValue>>, H: seq<NodeValue>, H2: seq<NodeValue>, p: nat)
    requires MergedUpTo(levels, H, p) && p < |H| && |H2| == |H|
    requires forall q :: 0 <= q < |H| && q != p ==> H2[q] == H[q]
    requires H2[p].name == H[p].name && forall x :: MinCost(H2[p].edges, x) == LevelsMin(levels, H[p].name, x)
    ensures MergedUpTo(levels, H2, p + 1)
  {
  }

  /** `Node.get_edges` walked by `for edge in ...`: whether an edge to `d` is cheaper than `c` (lines 153-156). */
  method NoCheaperEdge(E: seq<Edge>, d: string, c: real) returns (add: bool)
    ensures add <==> !HasCheaper(E, d, c)
  {
    add := true;
    var i := 0;
    while i < |E|
      invariant 0 <= i <= |E|
      invariant add <==> forall j :: 0 <= j < i ==> !(E[j].destination == d && E[j].cost < c)
    {
      if E[i].destination == d && E[i].cost < c {
        add := false;
      }
      i := i + 1;
    }
  }

  /**
   * The loop over the edges of one level's node `cn` (lines 150-159),
   * merged into `u`. The list is read live, so when `cn` is `u` itself the
   * loop walks the list it is rewriting; its length never changes then.
   */
  method MergeEdges(u: Node, cn: Node)
    modifies u
    ensures u == cn ==> forall x :: MinCost(u.edges, x) == MinCost(old(u.edges), x)
    ensures u != cn ==> cn.edges == old(cn.edges)
    ensures u != cn ==> forall x :: MinCost(u.edges, x) == Min(MinCost(old(u.edges), x), MinCost(cn.edges, x))
  {
    ghost var E0 := u.edges;
    ghost var F := cn.edges;
    var i := 0;
    while i < |cn.edges|
      invariant 0 <= i <= |cn.edges|
      invariant u == cn ==> |u.edges| == |E0| && forall x :: MinCost(u.edges, x) == MinCost(E0, x)
      invariant u != cn ==> cn.edges == F && forall x :: MinCost(u.edges, x) == Min(MinCost(E0, x), MinCost(F[..i], x))
      decreases |cn.edges| - i
    {
      var e := cn.edges[i];
      ghost var E := u.edges;
      var add := NoCheaperEdge(u.edges, e.destination, e.cost);
      if add {
        u.RemoveEdge(e.destination);
        var added := u.AddEdge(e.destination, e.cost);
        assert added.Pass?;
      }
      assert u.edges == Merged(E, e.destination, e.cost);
      if u == cn {
        assert Covers(E, e.destination, e.cost) by {
          assert E[i] == e;
        }
        assert HasEdgeTo(E, e.destination) by {
          assert E[i] == e;
        }
        MergedLength(E, e.destination, e.cost);
        forall x
          ensures MinCost(u.edges, x) == MinCost(E0, x)
        {
          MergedOwnMinCost(E, e.destination, e.cost, x);
        }
      } else {
        assert F[..i + 1] == F[..i] + [e];
        forall x
          ensures MinCost(u.edges, x) == Min(MinCost(E0, x), MinCost(F[..i + 1], x))
        {
          MergedMinCost(E, e.destination, e.cost, x);
          MinCostSnoc(F[..i], e, x);
          MinFacts(MinCost(E0, x), MinCost(F[..i], x), Fin(e.cost));
        }
      }
      i := i + 1;
    }
    if u != cn {
      assert F[..i] == F;
    }
  }
}
