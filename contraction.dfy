/**
 * Node contraction as code/Graph.py performs it (lines 94-119), stated on
 * values: the exact edge list every node ends with when one node is
 * contracted away, what that list means for the cheapest cost to every
 * destination, and the contraction hierarchy those steps build.
 */
module Contraction {
  import opened Distance
  import opened Seqs
  import opened Nodes
  import opened Reversal

  /**
   * The inner loop of lines 108-112 over the first `j` edges of the removed
   * node's list `F`, for an edge into the removed node of cost `c1`:
   * `add_shortcut(w, c1 + c)` for every edge `w, c` with `w` other than `un`,
   * the node being handled.
   */
  ghost function Via(E: seq<Edge>, c1: Cost, F: seq<Edge>, j: nat, un: string): (A: seq<Edge>)
    requires j <= |F|
    ensures |A| >= |E|
  {
    if j == 0 then E else ShortcutThrough(Via(E, c1, F, j - 1, un), c1, F[j - 1], un)
  }

  /** `add_shortcut(w, c1 + c)` for one edge `w, c` of the removed node, skipped when `w` is `un`, the node being handled. */
  ghost function ShortcutThrough(B: seq<Edge>, c1: Cost, e: Edge, un: string): (A: seq<Edge>)
    ensures |A| >= |B|
  {
    if e.destination != un then Shortcut(B, e.destination, Extended(c1, e)) else B
  }

  /** The cost of going on along edge `e` after a cost of `c1`. */
  function Extended(c1: Cost, e: Edge): Cost {
    c1 + e.cost
  }

  /**
   * The loop of lines 102-112 over the first `i` edges a node named `un`
   * had at the start, when the removed node `vn` is another node whose
   * edges are `F`: every edge to `vn`, with its cost at the moment it is
   * reached, adds the shortcuts through `vn`.
   */
  ghost function Through(E: seq<Edge>, F: seq<Edge>, i: nat, un: string, vn: string): (A: seq<Edge>)
    requires i <= |E|
    ensures |A| >= |E|
  {
    if i == 0 then E
    else
      var B := Through(E, F, i - 1, un, vn);
      if B[i - 1].destination == vn then Via(B, B[i - 1].cost, F, |F|, un) else B
  }

  /**
   * The inner loop when the node handled is the removed node itself: its
   * list is read while it changes, so edge `j` is taken from the list as it
   * is after the shortcuts of the edges before it.
   */
  ghost function ViaSelf(E: seq<Edge>, c1: Cost, j: nat, un: string): (A: seq<Edge>)
    requires j <= |E|
    ensures |A| >= |E|
  {
    if j == 0 then E
    else
      var B := ViaSelf(E, c1, j - 1, un);
      ShortcutThrough(B, c1, B[j - 1], un)
  }

  /** The loop of lines 102-112 for the removed node itself, over its own edges to itself. */
  ghost function ThroughSelf(E: seq<Edge>, i: nat, un: string): (A: seq<Edge>)
    requires i <= |E|
    ensures |A| >= |E|
  {
    if i == 0 then E else SelfPass(ThroughSelf(E, i - 1, un), i - 1, un)
  }

  /** The removed node's own edge `i`: when it leads back to the node itself, its shortcuts over the current list. */
  ghost function SelfPass(B: seq<Edge>, i: nat, un: string): (A: seq<Edge>)
    requires i < |B|
    ensures |A| >= |B|
  {
    if B[i].destination == un then ViaSelf(B, B[i].cost, |B|, un) else B
  }

  /** The edges of node `un` after its pass (lines 101-116) when `vn`, with edges `F`, is contracted. */
  ghost function ContractEdges(E: seq<Edge>, F: seq<Edge>, un: string, vn: string): seq<Edge> {
    RemoveFirst(Through(E, F, |E|, un, vn), vn)
  }

  /** The edges of the removed node `un` after its own pass. */
  ghost function SelfContractEdges(E: seq<Edge>, un: string): seq<Edge> {
    RemoveFirst(ThroughSelf(E, |E|, un), un)
  }

  /** Node `u` after its pass, with `v` the removed node as it is at that moment. */
  ghost function ContractedNode(u: NodeValue, v: NodeValue): NodeValue {
    NodeValue(u.name, ContractEdges(u.edges, v.edges, u.name, v.name))
  }

  /** The removed node after its own pass. */
  ghost function SelfContracted(v: NodeValue): NodeValue {
    NodeValue(v.name, SelfContractEdges(v.edges, v.name))
  }

  /** One shortcut pass for the first `j` edges of `F`: the cheapest cost to `un` is kept, every other one lowered to the cheapest way through the edge of cost `c1`. */
  lemma {:induction false} ViaMinCost(E: seq<Edge>, c1: Cost, F: seq<Edge>, j: nat, un: string, x: string)
    requires j <= |F|
    ensures MinCost(Via(E, c1, F, j, un), x) == if x == un then MinCost(E, x) else Min(MinCost(E, x), Plus(Fin(c1), MinCost(F[..j], x)))
    decreases j
  {
    if j == 0 {
      assert Via(E, c1, F, j, un) == E;
      MinFacts(MinCost(E, x), Inf, Inf);
    } else {
      var B := Via(E, c1, F, j - 1, un);
      var e := F[j - 1];
      ViaMinCost(E, c1, F, j - 1, un, x);
      MinCostPrefix(F, j, x);
      ShortcutThroughMinCost(B, c1, e, un, x);
      ViaStep(un, x, e.destination, c1, e.cost, Extended(c1, e), MinCost(E, x), MinCost(B, x), MinCost(Via(E, c1, F, j, un), x), MinCost(F[..j - 1], x), MinCost(F[..j], x));
    }
  }

  /** The shortcut for edge `e` lowers the cheapest cost to its destination to the way through `e`, and no other. */
  lemma ShortcutThroughMinCost(B: seq<Edge>, c1: Cost, e: Edge, un: string, x: string)
    ensures MinCost(ShortcutThrough(B, c1, e, un), x) ==
      if e.destination != un && x == e.destination then Min(MinCost(B, x), Fin(Extended(c1, e))) else MinCost(B, x)
  {
    if e.destination != un {
      ShortcutMinCost(B, e.destination, Extended(c1, e), x);
    }
  }

  /** The cheapest cost over one more edge of `F`. */
  lemma MinCostPrefix(F: seq<Edge>, j: nat, x: string)
    requires 0 < j <= |F|
    ensures MinCost(F[..j], x) == if F[j - 1].destination == x then Min(MinCost(F[..j - 1], x), Fin(F[j - 1].cost)) else MinCost(F[..j - 1], x)
  {
    assert F[..j] == F[..j - 1] + [F[j - 1]];
    MinCostSnoc(F[..j - 1], F[j - 1], x);
  }

  /** The arithmetic of one step of `ViaMinCost`, on the cheapest costs alone. */
  lemma ViaStep(un: string, x: string, d: string, c1: Cost, c: Cost, ce: real, ME: Dist, MB: Dist, MA: Dist, MF0: Dist, MF1: Dist)
    requires ce == c1 + c
    requires MB == if x == un then ME else Min(ME, Plus(Fin(c1), MF0))
    requires MF1 == if d == x then Min(MF0, Fin(c)) else MF0
    requires MA == if d != un && x == d then Min(MB, Fin(ce)) else MB
    ensures MA == if x == un then ME else Min(ME, Plus(Fin(c1), MF1))
  {
    if d != un && x == d {
      PlusMin(Fin(c1), MF0, Fin(c));
      MinFacts(ME, Plus(Fin(c1), MF0), Fin(ce));
    }
  }

  /** The shortcuts of one edge of cost `c1` lower edges in place, each to its old cost or to no less than `c1`. */
  lemma {:induction false} ViaLowered(E: seq<Edge>, c1: Cost, F: seq<Edge>, j: nat, un: string)
    requires j <= |F|
    ensures Lowered(Via(E, c1, F, j, un), E)
    ensures forall p :: 0 <= p < |E| ==> Via(E, c1, F, j, un)[p].cost == E[p].cost || c1 <= Via(E, c1, F, j, un)[p].cost
    decreases j
  {
    if j > 0 {
      var B := Via(E, c1, F, j - 1, un);
      ViaLowered(E, c1, F, j - 1, un);
      var e := F[j - 1];
      if e.destination != un {
        var A := Shortcut(B, e.destination, c1 + e.cost);
        assert forall p :: 0 <= p < |B| ==> A[p] == LowerTo(B[p], e.destination, c1 + e.cost);
      }
    }
  }

  lemma {:induction false} ThroughLowered(E: seq<Edge>, F: seq<Edge>, i: nat, un: string, vn: string)
    requires i <= |E|
    ensures Lowered(Through(E, F, i, un, vn), E)
    decreases i
  {
    if i > 0 {
      var B := Through(E, F, i - 1, un, vn);
      ThroughLowered(E, F, i - 1, un, vn);
      if B[i - 1].destination == vn {
        ViaLowered(B, B[i - 1].cost, F, |F|, un);
      }
    }
  }

  /**
   * After the first `i` edges of `E` (the removed node `vn` being another
   * node), an edge to `vn` not yet reached costs no less than the cheaper
   * of its original cost and the cheapest edge to `vn` among the first `i`.
   */
  lemma {:induction false} ThroughCosts(E: seq<Edge>, F: seq<Edge>, i: nat, un: string, vn: string)
    requires i <= |E| && un != vn
    ensures forall p :: i <= p < |E| && E[p].destination == vn ==> Le(Min(MinCost(E[..i], vn), Fin(E[p].cost)), Fin(Through(E, F, i, un, vn)[p].cost))
    decreases i
  {
    if i > 0 {
      var i' := i - 1;
      var B := Through(E, F, i', un, vn);
      var A := Through(E, F, i, un, vn);
      ThroughCosts(E, F, i', un, vn);
      ThroughLowered(E, F, i', un, vn);
      assert E[..i] == E[..i'] + [E[i']];
      MinCostSnoc(E[..i'], E[i'], vn);
      var M' := MinCost(E[..i'], vn);
      if B[i'].destination == vn {
        ViaLowered(B, B[i'].cost, F, |F|, un);
        assert Le(Min(M', Fin(E[i'].cost)), Fin(B[i'].cost));
        forall p | i <= p < |E| && E[p].destination == vn
          ensures Le(Min(MinCost(E[..i], vn), Fin(E[p].cost)), Fin(A[p].cost))
        {
          CostStep(M', E[i'].cost, B[i'].cost, E[p].cost, B[p].cost, A[p].cost);
        }
      } else {
        forall p | i <= p < |E| && E[p].destination == vn
          ensures Le(Min(MinCost(E[..i], vn), Fin(E[p].cost)), Fin(A[p].cost))
        {
          assert Le(Min(M', Fin(E[p].cost)), Fin(B[p].cost));
        }
      }
    }
  }

  /** The arithmetic of one step of `ThroughCosts`: an edge lowered either not at all or to no less than the cheapest edge so far. */
  lemma CostStep(M: Dist, e: real, b: real, ep: real, bp: real, ap: real)
    requires Le(Min(M, Fin(e)), Fin(b)) && Le(Min(M, Fin(ep)), Fin(bp))
    requires ap == bp || b <= ap
    ensures Le(Min(Min(M, Fin(e)), Fin(ep)), Fin(ap))
  {
  }

  /**
   * After the first `i` edges of `E` (the removed node `vn` being another
   * node): the cheapest cost to `un` and to `vn` is unchanged, and the
   * cheapest cost to any other `x` is lowered to the cheapest way through
   * `vn` over those first `i` edges.
   */
  lemma {:induction false} ThroughMinCost(E: seq<Edge>, F: seq<Edge>, i: nat, un: string, vn: string, x: string)
    requires i <= |E| && un != vn
    ensures MinCost(Through(E, F, i, un, vn), x) == if x == un || x == vn then MinCost(E, x) else Min(MinCost(E, x), Plus(MinCost(E[..i], vn), MinCost(F, x)))
    decreases i
  {
    if i == 0 {
      assert Through(E, F, i, un, vn) == E;
      MinFacts(MinCost(E, x), Inf, Inf);
    } else {
      ThroughMinCost(E, F, i - 1, un, vn, x);
      ThroughMinCostStep(E, F, i - 1, un, vn, x);
    }
  }

  /** One more edge of the node's original list handled. */
  lemma ThroughMinCostStep(E: seq<Edge>, F: seq<Edge>, i: nat, un: string, vn: string, x: string)
    requires i < |E| && un != vn
    requires MinCost(Through(E, F, i, un, vn), x) == if x == un || x == vn then MinCost(E, x) else Min(MinCost(E, x), Plus(MinCost(E[..i], vn), MinCost(F, x)))
    ensures MinCost(Through(E, F, i + 1, un, vn), x) == if x == un || x == vn then MinCost(E, x) else Min(MinCost(E, x), Plus(MinCost(E[..i + 1], vn), MinCost(F, x)))
  {
    ThroughLowered(E, F, i, un, vn);
    if E[i].destination == vn {
      ThroughStepVia(E, F, i, un, vn, x);
    } else {
      ThroughStepOther(E, F, i, un, vn);
      MinCostPrefix(E, i + 1, vn);
    }
  }

  /** An edge to another node than the removed one adds no shortcut. */
  lemma ThroughStepOther(E: seq<Edge>, F: seq<Edge>, i: nat, un: string, vn: string)
    requires i < |E| && E[i].destination != vn && Through(E, F, i, un, vn)[i].destination == E[i].destination
    ensures Through(E, F, i + 1, un, vn) == Through(E, F, i, un, vn)
  {
  }

  /** The step of `ThroughMinCostStep` for an edge to the removed node: its shortcuts are added. */
  lemma ThroughStepVia(E: seq<Edge>, F: seq<Edge>, i: nat, un: string, vn: string, x: string)
    requires i < |E| && un != vn && E[i].destination == vn
    requires Through(E, F, i, un, vn)[i].destination == vn
    requires MinCost(Through(E, F, i, un, vn), x) == if x == un || x == vn then MinCost(E, x) else Min(MinCost(E, x), Plus(MinCost(E[..i], vn), MinCost(F, x)))
    ensures MinCost(Through(E, F, i + 1, un, vn), x) == if x == un || x == vn then MinCost(E, x) else Min(MinCost(E, x), Plus(MinCost(E[..i + 1], vn), MinCost(F, x)))
  {
    var B := Through(E, F, i, un, vn);
    var c1 := B[i].cost;
    ThroughPrefixMin(E, F, i, un, vn);
    ThroughViaStep(E, F, i, un, vn, x);
    assert x == vn ==> Le(MinCost(B, x), Fin(c1));
    MinCostNonNegative(F, x);
    ThroughStepArith(x == un, x == vn, MinCost(E, x), MinCost(B, x), MinCost(Through(E, F, i + 1, un, vn), x), MinCost(E[..i], vn), MinCost(E[..i + 1], vn), c1, MinCost(F, x));
  }

  /** Once edge `i`, to the removed node, is reached, its current cost is the cheapest to the removed node so far. */
  lemma ThroughPrefixMin(E: seq<Edge>, F: seq<Edge>, i: nat, un: string, vn: string)
    requires i < |E| && un != vn && E[i].destination == vn
    ensures Min(MinCost(E[..i], vn), Fin(Through(E, F, i, un, vn)[i].cost)) == MinCost(E[..i + 1], vn)
  {
    ThroughLowered(E, F, i, un, vn);
    MinCostPrefix(E, i + 1, vn);
    ThroughCosts(E, F, i, un, vn);
    MinBelowEdge(MinCost(E[..i], vn), E[i].cost, Through(E, F, i, un, vn)[i].cost);
  }

  /** Edge `i`, to the removed node, adds the shortcuts through it at its current cost. */
  lemma ThroughViaStep(E: seq<Edge>, F: seq<Edge>, i: nat, un: string, vn: string, x: string)
    requires i < |E| && Through(E, F, i, un, vn)[i].destination == vn
    ensures var B := Through(E, F, i, un, vn);
      MinCost(Through(E, F, i + 1, un, vn), x) == if x == un then MinCost(B, x) else Min(MinCost(B, x), Plus(Fin(B[i].cost), MinCost(F, x)))
  {
    var B := Through(E, F, i, un, vn);
    ViaMinCost(B, B[i].cost, F, |F|, un, x);
    assert F[..|F|] == F;
  }

  /** The arithmetic of `ThroughStepVia`, on the cheapest costs alone. */
  lemma ThroughStepArith(isU: bool, isV: bool, me: Dist, mb: Dist, mt: Dist, p': Dist, p: Dist, c1: Cost, mf: Dist)
    requires mb == if isU || isV then me else Min(me, Plus(p', mf))
    requires mt == if isU then mb else Min(mb, Plus(Fin(c1), mf))
    requires p == Min(p', Fin(c1))
    requires isV ==> Le(mb, Fin(c1))
    requires mf.Fin? ==> mf.r >= 0.0
    ensures mt == if isU || isV then me else Min(me, Plus(p, mf))
  {
    if isV && !isU {
      AbsorbThrough(mb, c1, mf);
    } else if !isU {
      ThroughArith(me, p', c1, mf);
    }
  }

  /** An edge of cost `c1`, lowered from `c` and no cheaper than `min(p, c)`, leaves that minimum as it is. */
  lemma MinBelowEdge(p: Dist, c: real, c1: real)
    requires Le(Min(p, Fin(c)), Fin(c1)) && c1 <= c
    ensures Min(p, Fin(c1)) == Min(p, Fin(c))
  {
  }

  /** A way through an edge no cheaper than the direct cost `m` does not lower it. */
  lemma AbsorbThrough(m: Dist, c1: Cost, f: Dist)
    requires Le(m, Fin(c1)) && (f.Fin? ==> f.r >= 0.0)
    ensures Min(m, Plus(Fin(c1), f)) == m
  {
  }

  /** The cheapest way through the removed node gains the edge of cost `c1`. */
  lemma ThroughArith(m: Dist, p: Dist, c1: real, f: Dist)
    ensures Min(Min(m, Plus(p, f)), Plus(Fin(c1), f)) == Min(m, Plus(Min(p, Fin(c1)), f))
  {
    PlusMinRight(p, Fin(c1), f);
    MinFacts(m, Plus(p, f), Plus(Fin(c1), f));
  }

  /**
   * A node other than the removed one: after its pass the cheapest cost
   * to itself is unchanged, the cheapest cost to every other destination
   * but the removed node is the smaller of the old one and the cheapest way
   * through the removed node, and the cheapest cost to the removed node
   * does not drop.
   */
  lemma ContractEdgesMinCost(E: seq<Edge>, F: seq<Edge>, un: string, vn: string, x: string)
    requires un != vn
    ensures x != vn ==> MinCost(ContractEdges(E, F, un, vn), x) == if x == un then MinCost(E, x) else Min(MinCost(E, x), Plus(MinCost(E, vn), MinCost(F, x)))
    ensures x == vn ==> Le(MinCost(E, vn), MinCost(ContractEdges(E, F, un, vn), vn))
  {
    ThroughMinCost(E, F, |E|, un, vn, x);
    assert E[..|E|] == E;
    var A := Through(E, F, |E|, un, vn);
    if x != vn {
      RemoveFirstMinCost(A, vn, x);
    } else {
      RemoveFirstRaises(A, vn, x);
    }
  }

  /** The shortcuts the removed node adds to itself never lower a cheapest cost: each is dearer than the edge it extends. */
  lemma {:induction false} ViaSelfMinCost(E: seq<Edge>, c1: Cost, j: nat, un: string, x: string)
    requires j <= |E|
    ensures MinCost(ViaSelf(E, c1, j, un), x) == MinCost(E, x)
    decreases j
  {
    if j == 0 {
      assert ViaSelf(E, c1, j, un) == E;
    } else {
      var B := ViaSelf(E, c1, j - 1, un);
      ViaSelfMinCost(E, c1, j - 1, un, x);
      ShortcutThroughOwn(B, c1, j - 1, un, x);
    }
  }

  /** A shortcut extending an edge the list already has changes no cheapest cost. */
  lemma ShortcutThroughOwn(B: seq<Edge>, c1: Cost, i: nat, un: string, x: string)
    requires i < |B|
    ensures MinCost(ShortcutThrough(B, c1, B[i], un), x) == MinCost(B, x)
  {
    var e := B[i];
    if e.destination != un {
      assert Covers(B, e.destination, Extended(c1, e)) by {
        assert B[i].cost <= Extended(c1, e);
      }
      ShortcutCovered(B, e.destination, Extended(c1, e), x);
    }
  }

  lemma {:induction false} ThroughSelfMinCost(E: seq<Edge>, i: nat, un: string, x: string)
    requires i <= |E|
    ensures MinCost(ThroughSelf(E, i, un), x) == MinCost(E, x)
    decreases i
  {
    if i == 0 {
      assert ThroughSelf(E, i, un) == E;
    } else {
      var B := ThroughSelf(E, i - 1, un);
      assert ThroughSelf(E, i, un) == SelfPass(B, i - 1, un);
      ThroughSelfMinCost(E, i - 1, un, x);
      SelfPassMinCost(B, i - 1, un, x);
    }
  }

  lemma SelfPassMinCost(B: seq<Edge>, i: nat, un: string, x: string)
    requires i < |B|
    ensures MinCost(SelfPass(B, i, un), x) == MinCost(B, x)
  {
    if B[i].destination == un {
      ViaSelfMinCost(B, B[i].cost, |B|, un, x);
    }
  }

  /** The removed node after its own pass: every cheapest cost kept, except to itself, which does not drop. */
  lemma SelfContractMinCost(E: seq<Edge>, un: string, x: string)
    ensures x != un ==> MinCost(SelfContractEdges(E, un), x) == MinCost(E, x)
    ensures Le(MinCost(E, x), MinCost(SelfContractEdges(E, un), x))
  {
    ThroughSelfMinCost(E, |E|, un, x);
    LeFacts();
    if x != un {
      RemoveFirstMinCost(ThroughSelf(E, |E|, un), un, x);
    } else {
      RemoveFirstRaises(ThroughSelf(E, |E|, un), un, x);
    }
  }

  /**
   * The body of the loop of `remove_one_node_and_add_his_shortcuts` for one
   * node `u` (the removed node `v` may be `u` itself): for each of the
   * edges `u` had at the start that leads to `v`, with its current cost
   * `c1`, a shortcut to every destination `w != u` of `v` at cost `c1` plus
   * that edge's cost; then the first edge to `v` is removed.
   */
  method ContractInto(u: Node, v: Node)
    requires u == v || u.name != v.name
    modifies u
    ensures u != v ==> v.edges == old(v.edges) && u.Value() == ContractedNode(old(u.Value()), v.Value())
    ensures u == v ==> u.Value() == SelfContracted(old(u.Value()))
  {
    ghost var E0 := u.edges;
    ghost var F := v.edges;
    var n := |u.edges|;
    var i := 0;
    while i < n
      invariant 0 <= i <= n == |E0|
      invariant u != v ==> v.edges == F && u.edges == Through(E0, F, i, u.name, v.name)
      invariant u == v ==> u.edges == ThroughSelf(E0, i, u.name)
    {
      if u.edges[i].destination == v.name {
        ShortcutsVia(u, v, u.edges[i].cost);
      }
      i := i + 1;
    }
    u.RemoveEdge(v.name);
  }

  /**
   * The inner loop of lines 108-112 for an edge of cost `c1` from `u` into
   * the removed node `v`: `add_shortcut(w, c1 + c)` for every edge `w, c`
   * of `v` with `w` other than `u`, over as many edges as `v` had when the
   * loop started.
   */
  method ShortcutsVia(u: Node, v: Node, c1: Cost)
    modifies u
    ensures u != v ==> v.edges == old(v.edges) && u.edges == Via(old(u.edges), c1, v.edges, |v.edges|, u.name)
    ensures u == v ==> u.edges == ViaSelf(old(u.edges), c1, |old(u.edges)|, u.name)
  {
    ghost var B := u.edges;
    var m := |v.edges|;
    var j := 0;
    while j < m
      invariant 0 <= j <= m
      invariant u != v ==> v.edges == old(v.edges) && m == |v.edges| && u.edges == Via(B, c1, v.edges, j, u.name)
      invariant u == v ==> m == |B| && u.edges == ViaSelf(B, c1, j, u.name)
    {
      var w := v.edges[j].destination;
      if w != u.name {
        var cost := c1 + v.edges[j].cost;
        u.AddShortcut(w, cost);
      }
      j := j + 1;
    }
  }

  /** `k` is the node `find_a_not_important_node` picks: fewest edges, and the last of those in list order. */
  ghost predicate LeastImportant(G: seq<NodeValue>, k: int) {
    0 <= k < |G|
    && (forall j :: 0 <= j < |G| ==> |G[k].edges| <= |G[j].edges|)
    && (forall j :: k < j < |G| ==> |G[k].edges| < |G[j].edges|)
  }

  /** The choice is determined by the graph. */
  lemma LeastImportantUnique(G: seq<NodeValue>, k1: int, k2: int)
    requires LeastImportant(G, k1) && LeastImportant(G, k2)
    ensures k1 == k2
  {
    assert |G[k1].edges| == |G[k2].edges|;
  }

  /**
   * Node `q` of `G` once the loop of lines 100-116 has contracted `G[k]`:
   * the nodes before `k` see the removed node's original edges, the nodes
   * after it see them after its own pass.
   */
  ghost function AfterPass(G: seq<NodeValue>, k: nat, q: nat): (h: NodeValue)
    requires k < |G| && q < |G|
    ensures h.name == G[q].name
  {
    if q == k then SelfContracted(G[k])
    else if q < k then ContractedNode(G[q], G[k])
    else ContractedNode(G[q], SelfContracted(G[k]))
  }

  /** The graph after contracting node `k` of `G` (lines 100-118): every other node after its pass, in order. */
  ghost function NextLevel(G: seq<NodeValue>, k: nat): (H: seq<NodeValue>)
    requires k < |G|
    ensures |H| == |G| - 1
    ensures forall q :: 0 <= q < |H| ==> H[q].name == G[if q < k then q else q + 1].name
  {
    var H := seq(|G| - 1, q requires 0 <= q < |G| - 1 => AfterPass(G, k, if q < k then q else q + 1));
    assert forall q :: 0 <= q < |H| ==> H[q] == AfterPass(G, k, if q < k then q else q + 1);
    H
  }

  /**
   * The meaning of one contraction, node by node, when the names are
   * distinct: node `q` of the next level keeps its cheapest cost to itself,
   * gets the cheaper of its old edge and the way through the removed node
   * to every other destination, and never gets a cheaper edge to the
   * removed node.
   */
  lemma NextLevelMinCost(G: seq<NodeValue>, k: nat, q: nat, x: string)
    requires k < |G| && Distinct(NamesOf(G)) && q < |G| - 1
    ensures var u := G[if q < k then q else q + 1];
      x != G[k].name ==>
        MinCost(NextLevel(G, k)[q].edges, x) ==
          (if x == u.name then MinCost(u.edges, x) else Min(MinCost(u.edges, x), Plus(MinCost(u.edges, G[k].name), MinCost(G[k].edges, x))))
    ensures var u := G[if q < k then q else q + 1];
      Le(Min(MinCost(u.edges, x), Plus(MinCost(u.edges, G[k].name), MinCost(G[k].edges, x))), MinCost(NextLevel(G, k)[q].edges, x))
  {
    var u := G[if q < k then q else q + 1];
    var vn := G[k].name;
    var F := SeenEdges(G, k, q);
    NextLevelEdges(G, k, q);
    ContractEdgesMinCost(u.edges, F, u.name, vn, x);
    SeenMinCost(G, k, q, x);
    NextLevelArith(x == u.name, x == vn, MinCost(u.edges, x), MinCost(u.edges, vn), MinCost(F, x), MinCost(G[k].edges, x), MinCost(NextLevel(G, k)[q].edges, x));
  }

  /** The removed node's edges as node `q` of the next level sees them: before or after the removed node's own pass. */
  ghost function SeenEdges(G: seq<NodeValue>, k: nat, q: nat): seq<Edge>
    requires k < |G|
  {
    if q < k then G[k].edges else SelfContractEdges(G[k].edges, G[k].name)
  }

  /** Node `q` of the next level is the node it comes from after its pass against the removed node. */
  lemma NextLevelEdges(G: seq<NodeValue>, k: nat, q: nat)
    requires k < |G| && Distinct(NamesOf(G)) && q < |G| - 1
    ensures var u := G[if q < k then q else q + 1];
      u.name != G[k].name && NextLevel(G, k)[q].edges == ContractEdges(u.edges, SeenEdges(G, k, q), u.name, G[k].name)
  {
    var q' := if q < k then q else q + 1;
    assert NamesOf(G)[q'] != NamesOf(G)[k];
    assert NextLevel(G, k)[q] == AfterPass(G, k, q');
  }

  /** The removed node's own pass keeps its cheapest cost to every other node and never lowers the one to itself. */
  lemma SeenMinCost(G: seq<NodeValue>, k: nat, q: nat, x: string)
    requires k < |G|
    ensures x != G[k].name ==> MinCost(SeenEdges(G, k, q), x) == MinCost(G[k].edges, x)
  {
    SelfContractMinCost(G[k].edges, G[k].name, x);
  }

  /** The arithmetic of `NextLevelMinCost`, on the cheapest costs alone. */
  lemma NextLevelArith(isU: bool, isV: bool, mu: Dist, muv: Dist, mf: Dist, mk: Dist, mr: Dist)
    requires !isV ==> mr == if isU then mu else Min(mu, Plus(muv, mf))
    requires isV ==> Le(mu, mr)
    requires !isV ==> mf == mk
    ensures !isV ==> mr == if isU then mu else Min(mu, Plus(muv, mk))
    ensures Le(Min(mu, Plus(muv, mk)), mr)
  {
    LeFacts();
  }

  /** One level of the contraction hierarchy: the least important node is contracted away. */
  ghost predicate ContractionStep(G: seq<NodeValue>, H: seq<NodeValue>) {
    exists k :: LeastImportant(G, k) && H == NextLevel(G, k)
  }

  /** Each level of the hierarchy has one node less. */
  lemma ContractionStepSize(G: seq<NodeValue>, H: seq<NodeValue>)
    requires ContractionStep(G, H)
    ensures |H| == |G| - 1
  {
  }

  /** A contraction step is a function of the graph: the chosen node and every node's new edges are determined. */
  lemma ContractionStepUnique(G: seq<NodeValue>, H1: seq<NodeValue>, H2: seq<NodeValue>)
    requires ContractionStep(G, H1) && ContractionStep(G, H2)
    ensures H1 == H2
  {
    var k1 :| LeastImportant(G, k1) && H1 == NextLevel(G, k1);
    var k2 :| LeastImportant(G, k2) && H2 == NextLevel(G, k2);
    LeastImportantUnique(G, k1, k2);
  }

  /** A contraction hierarchy: each level is the contraction step of the one before. */
  ghost predicate Hierarchy(levels: seq<seq<NodeValue>>) {
    forall l :: 0 <= l < |levels| - 1 ==> ContractionStep(levels[l], levels[l + 1])
  }

  lemma HierarchyAppend(levels: seq<seq<NodeValue>>, H: seq<NodeValue>)
    requires |levels| > 0 && Hierarchy(levels) && ContractionStep(levels[|levels| - 1], H)
    ensures Hierarchy(levels + [H])
  {
    var L := levels + [H];
    forall l | 0 <= l < |L| - 1
      ensures ContractionStep(L[l], L[l + 1])
    {
      if l < |levels| - 1 {
        assert L[l] == levels[l] && L[l + 1] == levels[l + 1];
      }
    }
  }

  /** Two hierarchies of the same length from the same graph are the same: the hierarchy is determined by the graph. */
  lemma {:induction false} HierarchyUnique(L1: seq<seq<NodeValue>>, L2: seq<seq<NodeValue>>)
    requires Hierarchy(L1) && Hierarchy(L2) && |L1| == |L2| > 0 && L1[0] == L2[0]
    ensures L1 == L2
  {
    var n := |L1|;
    if n > 1 {
      var P1 := L1[..n - 1];
      var P2 := L2[..n - 1];
      assert Hierarchy(P1) by {
        forall l | 0 <= l < |P1| - 1
          ensures ContractionStep(P1[l], P1[l + 1])
        {
          assert P1[l] == L1[l] && P1[l + 1] == L1[l + 1];
        }
      }
      assert Hierarchy(P2) by {
        forall l | 0 <= l < |P2| - 1
          ensures ContractionStep(P2[l], P2[l + 1])
        {
          assert P2[l] == L2[l] && P2[l + 1] == L2[l + 1];
        }
      }
      HierarchyUnique(P1, P2);
      assert L1[n - 2] == P1[n - 2] == P2[n - 2] == L2[n - 2];
      ContractionStepUnique(L1[n - 2], L1[n - 1], L2[n - 1]);
      assert L1 == P1 + [L1[n - 1]] && L2 == P2 + [L2[n - 1]];
    }
  }

  /**
   * The node values `H` after the loop of `remove_one_node_and_add_his_shortcuts`
   * has handled the first `p` nodes of `G`, with `k` the node being removed.
   */
  ghost predicate ContractedUpTo(G: seq<NodeValue>, H: seq<NodeValue>, k: nat, p: nat) {
    |H| == |G| && k < |G| && p <= |G|
    && (forall q :: 0 <= q < p ==> H[q] == AfterPass(G, k, q))
    && (forall q :: p <= q < |G| ==> H[q] == G[q])
  }

  /** Before the loop no node is handled. */
  lemma ContractedStart(G: seq<NodeValue>, k: nat)
    requires k < |G|
    ensures ContractedUpTo(G, G, k, 0)
  {
  }

  /**
   * Handling node `p` extends the loop invariant: a node other than the
   * removed one gets its pass against the removed node as it currently is,
   * the removed node its own pass, and nothing else changes.
   */
  lemma ContractedNext(G: seq<NodeValue>, H: seq<NodeValue>, H': seq<NodeValue>, k: nat, p: nat)
    requires ContractedUpTo(G, H, k, p) && p < |G| && |H'| == |G|
    requires forall q :: 0 <= q < |G| && q != p ==> H'[q] == H[q]
    requires p != k ==> H'[p] == ContractedNode(H[p], H[k])
    requires p == k ==> H'[p] == SelfContracted(H[p])
    ensures ContractedUpTo(G, H', k, p + 1)
  {
  }

  /** Once every node is handled, dropping the removed one gives the next level. */
  lemma ContractedRemoved(G: seq<NodeValue>, H: seq<NodeValue>, k: nat)
    requires ContractedUpTo(G, H, k, |G|)
    ensures H[..k] + H[k + 1..] == NextLevel(G, k)
  {
    var R := H[..k] + H[k + 1..];
    forall q | 0 <= q < |R|
      ensures R[q] == NextLevel(G, k)[q]
    {
      if q < k {
        assert R[q] == H[q];
      } else {
        assert R[q] == H[q + 1];
      }
    }
  }
}
