/**
 * A graph on which `bidirectional_dijkstra` (code/Dijkstra.py:90-260)
 * returns a path that is not the shortest, because of the terminator
 * formula of code/Dijkstra.py:151-156.
 *
 * The source `s` has a direct edge of cost 10 to the target `t`, and a
 * detour of cost 12 through `m`. Two dead ends at distance 5, `f` forward
 * and `b` backward, make each terminator `6 + 6 - 5 = 7`, so neither
 * continuation reaches the other end, and `m` is the only node both
 * directions settle. The five names are parameters: any five distinct
 * names show the same run.
 *
 * The lemmas follow the run one source step at a time:
 *  - `LopsidedReversed` and the `Incoming`/`Turned` helpers: the reversed
 *    graph of code/Dijkstra.py:92 (code/Graph.py:56-64);
 *  - `F0`-`F4`, `B0`-`B5` and `ForwardStart`/`BackwardStart`: the
 *    dictionaries of code/Dijkstra.py:100-104 and the states after each
 *    settled node;
 *  - `Relax...`, `RelaxAll...`: the edge loop of `__explore_node_neighbors`
 *    (code/Dijkstra.py:58-87);
 *  - `Nearest...` and `Rising...`: `__find_nearest_node`
 *    (code/Dijkstra.py:45-56) on keys of distinct lengths;
 *  - `Settle...`, `Pass0`-`Pass5`, `Next0`-`Next5`, the `GoesOn`/`Stops`
 *    lemmas and `LopsidedAlternation`: the alternating loop of
 *    code/Dijkstra.py:110-146;
 *  - `LopsidedTerminators`, `ForwardStays`, `BackwardStays`: the
 *    terminators of code/Dijkstra.py:151-156 and the continuation loops of
 *    code/Dijkstra.py:159-192;
 *  - `MidSum`, `MeetsAtMid`, `DirectCost`, `DetourReturned`: the choice of
 *    the meeting node of code/Dijkstra.py:205-216 against the direct edge.
 */
module Radius {
  import opened Wrappers
  import opened Distance
  import opened Seqs
  import opened Nodes
  import opened Reversal
  import opened DijkstraHeaps
  import opened ShortestPaths
  import opened Searches
  import opened Continuation
  import opened Bidirectional
  import opened Trails
  import opened Answers

  /** The names of the five nodes. */
  datatype Labels = Labels(s: string, t: string, m: string, f: string, b: string)

  /** Five names of five different lengths, hence different. */
  ghost predicate Apart(L: Labels) {
    |L.s| == 1 && |L.t| == 2 && |L.m| == 3 && |L.f| == 4 && |L.b| == 5
  }

  function Src(L: Labels): NodeValue { NodeValue(L.s, [Edge(L.t, 10.0), Edge(L.m, 6.0), Edge(L.f, 5.0)]) }
  function Dest(L: Labels): NodeValue { NodeValue(L.t, []) }
  function Mid(L: Labels): NodeValue { NodeValue(L.m, [Edge(L.t, 6.0)]) }
  function Fw(L: Labels): NodeValue { NodeValue(L.f, []) }
  function Bward(L: Labels): NodeValue { NodeValue(L.b, [Edge(L.t, 5.0)]) }

  /** The graph, in the order `Graph([...])` stores its nodes. */
  function Lopsided(L: Labels): seq<NodeValue> {
    [Src(L), Dest(L), Mid(L), Fw(L), Bward(L)]
  }

  function RSrc(L: Labels): NodeValue { NodeValue(L.s, []) }
  function RDest(L: Labels): NodeValue { NodeValue(L.t, [Edge(L.s, 10.0), Edge(L.m, 6.0), Edge(L.b, 5.0)]) }
  function RMid(L: Labels): NodeValue { NodeValue(L.m, [Edge(L.s, 6.0)]) }
  function RFw(L: Labels): NodeValue { NodeValue(L.f, [Edge(L.s, 5.0)]) }
  function RBward(L: Labels): NodeValue { NodeValue(L.b, []) }

  /** The reversed graph. */
  function Turned5(L: Labels): seq<NodeValue> {
    [RSrc(L), RDest(L), RMid(L), RFw(L), RBward(L)]
  }

  /** The position of `x` is the first `k` holding it. */
  lemma FirstAt(s: seq<string>, x: string, k: nat)
    requires k < |s| && s[k] == x && forall i :: 0 <= i < k ==> s[i] != x
    ensures FirstOf(s, x) == k
  {
  }

  /** The edges into `v` of a graph grown by one node are those of the graph, then the new node's. */
  lemma IncomingSnoc(G: seq<NodeValue>, x: NodeValue, v: string)
    ensures Incoming(G + [x], v) == Incoming(G, v) + Turned(x.edges, x.name, v)
  {
    assert (G + [x])[..|G|] == G;
  }

  /** Turning a list of edges grown by one. */
  lemma TurnedSnoc(E: seq<Edge>, e: Edge, un: string, v: string)
    ensures Turned(E + [e], un, v) == Turned(E, un, v) + (if e.destination == v then [Edge(un, e.cost)] else [])
  {
    assert (E + [e])[..|E|] == E;
  }

  /** The edges `e0`, `e1`, `e2` of `un`, turned towards `v`. */
  lemma TurnedThree(e0: Edge, e1: Edge, e2: Edge, un: string, v: string)
    ensures Turned([e0, e1, e2], un, v) == Turned([e0], un, v) + Turned([e1], un, v) + Turned([e2], un, v)
  {
    TurnedSnoc([e0], e1, un, v);
    TurnedSnoc([e0, e1], e2, un, v);
    assert [e0] + [e1] == [e0, e1] && [e0, e1] + [e2] == [e0, e1, e2];
    assert Turned([e1], un, v) == Turned([], un, v) + (if e1.destination == v then [Edge(un, e1.cost)] else []) by {
      TurnedSnoc([], e1, un, v);
    }
    assert Turned([e2], un, v) == Turned([], un, v) + (if e2.destination == v then [Edge(un, e2.cost)] else []) by {
      TurnedSnoc([], e2, un, v);
    }
  }

  /** The edges into `v`: those of `s`, `m` and `b` turned around. */
  lemma IncomingLopsided(L: Labels, v: string)
    ensures Incoming(Lopsided(L), v) == Turned(Src(L).edges, L.s, v) + Turned(Mid(L).edges, L.m, v) + Turned(Bward(L).edges, L.b, v)
  {
    var G := Lopsided(L);
    var s, t, m, f, b := Src(L), Dest(L), Mid(L), Fw(L), Bward(L);
    assert Incoming([], v) == [];
    IncomingSnoc([], s, v);
    assert [] + [s] == [s];
    IncomingSnoc([s], t, v);
    assert [s] + [t] == [s, t];
    IncomingSnoc([s, t], m, v);
    assert [s, t] + [m] == [s, t, m];
    IncomingSnoc([s, t, m], f, v);
    assert [s, t, m] + [f] == [s, t, m, f];
    IncomingSnoc([s, t, m, f], b, v);
    assert [s, t, m, f] + [b] == G;
    assert Turned([], L.t, v) == [] && Turned([], L.f, v) == [];
  }

  /** A single edge turned towards `v`. */
  lemma OneTurned(e: Edge, un: string, v: string)
    ensures Turned([e], un, v) == if e.destination == v then [Edge(un, e.cost)] else []
  {
    TurnedSnoc([], e, un, v);
    assert [] + [e] == [e];
  }

  /** The edges into `v`, one possible edge at a time. */
  lemma IncomingFive(L: Labels, v: string)
    ensures Incoming(Lopsided(L), v)
      == (if v == L.t then [Edge(L.s, 10.0)] else []) + (if v == L.m then [Edge(L.s, 6.0)] else []) + (if v == L.f then [Edge(L.s, 5.0)] else [])
       + (if v == L.t then [Edge(L.m, 6.0)] else []) + (if v == L.t then [Edge(L.b, 5.0)] else [])
  {
    IncomingLopsided(L, v);
    TurnedThree(Edge(L.t, 10.0), Edge(L.m, 6.0), Edge(L.f, 5.0), L.s, v);
    OneTurned(Edge(L.t, 10.0), L.s, v);
    OneTurned(Edge(L.m, 6.0), L.s, v);
    OneTurned(Edge(L.f, 5.0), L.s, v);
    OneTurned(Edge(L.t, 6.0), L.m, v);
    OneTurned(Edge(L.t, 5.0), L.b, v);
  }

  /** The `k`th node of the reversed graph. */
  lemma ReversedAt(L: Labels, k: nat)
    requires Apart(L) && k < 5
    ensures Reverse(Lopsided(L))[k] == Turned5(L)[k]
  {
    var v := Lopsided(L)[k].name;
    IncomingFive(L, v);
    if k == 1 {
      assert [Edge(L.s, 10.0)] + [Edge(L.m, 6.0)] + [Edge(L.b, 5.0)] == RDest(L).edges;
    }
  }

  /** `get_reversed_graph` turns every edge around, keeping the order of the nodes. */
  lemma LopsidedReversed(L: Labels)
    requires Apart(L)
    ensures Reverse(Lopsided(L)) == Turned5(L)
  {
    forall k | 0 <= k < 5
      ensures Reverse(Lopsided(L))[k] == Turned5(L)[k]
    {
      ReversedAt(L, k);
    }
  }

  // ---------------------------------------------------------------------
  // One step of a direction, in general, on a dictionary whose names grow
  // longer key by key.

  /** The names of the keys grow strictly longer, so they are distinct. */
  ghost predicate Rising(D: seq<Entry>) {
    forall i, j :: 0 <= i < j < |D| ==> |D[i].node.name| < |D[j].node.name|
  }

  /** In a rising dictionary the `k`th key is found at `k`. */
  lemma RisingFirst(D: seq<Entry>, k: nat)
    requires Rising(D) && k < |D|
    ensures Distinct(Keys(D)) && D[k].node.name in Keys(D) && FirstOf(Keys(D), D[k].node.name) == k
  {
    assert Keys(D)[k] == D[k].node.name;
    FirstAt(Keys(D), D[k].node.name, k);
  }

  /** A name of a length no key has is not a key. */
  lemma RisingMissing(D: seq<Entry>, n: string)
    requires forall i :: 0 <= i < |D| ==> |D[i].node.name| != |n|
    ensures n !in Keys(D)
  {
  }

  /** Relaxing the edge `e` of the key `k` into the key `j`, which it improves. */
  lemma RelaxAt(S: Search, u: NodeValue, e: Edge, k: nat, j: nat, d: Dist)
    requires Rising(S.dist) && k < |S.dist| && j < |S.dist| && S.dist[k].node.name == u.name && S.dist[j].node.name == e.destination
    requires S.dist[k].distance.Fin? && d == Fin(S.dist[k].distance.r + e.cost) && Lt(d, S.dist[j].distance)
    ensures u.name in Keys(S.dist)
    ensures Relax(S, u, e) == Search(S.dist[j := Entry(S.dist[j].node, d)], S.pred[e.destination := Some(u)], S.result)
    ensures Rising(Relax(S, u, e).dist)
  {
    RisingFirst(S.dist, k);
    RisingFirst(S.dist, j);
  }

  /** Relaxing the edge `e` of the key `k` into the key `j`, which it does not improve. */
  lemma RelaxIdle(S: Search, u: NodeValue, e: Edge, k: nat, j: nat)
    requires Rising(S.dist) && k < |S.dist| && j < |S.dist| && S.dist[k].node.name == u.name && S.dist[j].node.name == e.destination
    requires S.dist[k].distance.Fin? && !Lt(Fin(S.dist[k].distance.r + e.cost), S.dist[j].distance)
    ensures u.name in Keys(S.dist) && Relax(S, u, e) == S
  {
    RisingFirst(S.dist, k);
    RisingFirst(S.dist, j);
  }

  /** A node with no edges relaxes nothing; one with one edge relaxes it. */
  lemma RelaxAllShort(S: Search, u: NodeValue)
    requires u.name in Keys(S.dist)
    ensures |u.edges| == 0 ==> RelaxAll(S, u, u.edges) == S
    ensures |u.edges| == 1 ==> RelaxAll(S, u, u.edges) == Relax(S, u, u.edges[0])
  {
    if |u.edges| == 1 {
      assert u.edges[..0] == [];
    }
  }

  /** Relaxing one more edge of `u`. */
  lemma RelaxAllSnoc(S: Search, u: NodeValue, E: seq<Edge>, e: Edge)
    requires u.name in Keys(S.dist)
    ensures RelaxAll(S, u, E + [e]) == Relax(RelaxAll(S, u, E), u, e)
  {
    assert (E + [e])[..|E|] == E;
  }

  /** A node with two edges relaxes them in order. */
  lemma RelaxAllTwo(S: Search, u: NodeValue, e0: Edge, e1: Edge)
    requires u.name in Keys(S.dist)
    ensures RelaxAll(S, u, [e0, e1]) == Relax(Relax(S, u, e0), u, e1)
  {
    RelaxAllSnoc(S, u, [], e0);
    RelaxAllSnoc(S, u, [e0], e1);
    assert [] + [e0] == [e0] && [e0] + [e1] == [e0, e1];
  }

  /** A node with three edges relaxes them in order. */
  lemma RelaxAllThree(S: Search, u: NodeValue, e0: Edge, e1: Edge, e2: Edge)
    requires u.name in Keys(S.dist)
    ensures RelaxAll(S, u, [e0, e1, e2]) == Relax(Relax(Relax(S, u, e0), u, e1), u, e2)
  {
    RelaxAllTwo(S, u, e0, e1);
    RelaxAllSnoc(S, u, [e0, e1], e2);
    assert [e0, e1] + [e2] == [e0, e1, e2];
  }

  /** Popping the `k`th key of a rising dictionary drops it and keeps it rising. */
  lemma PopAt(D: seq<Entry>, k: nat)
    requires Rising(D) && k < |D|
    ensures D[k].node.name in Keys(D) && PopKey(D, D[k].node.name) == D[..k] + D[k + 1..]
  {
    RisingFirst(D, k);
  }

  /** Dictionaries with the same keys are both rising or both not. */
  lemma RisingKeys(D: seq<Entry>, E: seq<Entry>)
    requires Rising(D) && Keys(E) == Keys(D)
    ensures Rising(E)
  {
    assert forall i :: 0 <= i < |E| ==> E[i].node.name == Keys(E)[i] == Keys(D)[i] == D[i].node.name;
  }

  /** Exploring the key `k`, whose edges leave `T`, pops it and settles it with its predecessor entry. */
  lemma ExploredAt(S: Search, k: nat, T: Search)
    requires Rising(S.dist) && k < |S.dist| && RelaxAll(S, S.dist[k].node, S.dist[k].node.edges) == T
    requires S.dist[k].node.name in T.pred && T.dist[k].node == S.dist[k].node
    ensures S.dist[k].node.name in Keys(S.dist)
    ensures Explored(S, S.dist[k].node) ==
      Success(Search(T.dist[..k] + T.dist[k + 1..], T.pred, T.result + [Triplet(S.dist[k].node, T.dist[k].distance, T.pred[S.dist[k].node.name])]))
  {
    RisingFirst(S.dist, k);
    RisingKeys(S.dist, T.dist);
    PopAt(T.dist, k);
    RisingFirst(T.dist, k);
  }

  /** A turn that settles the nearest key `k`. */
  lemma TurnSettles(S: Search, k: nat, R: Search)
    requires Rising(S.dist) && 0 < |S.dist| && NearestAmong(S.dist, |S.dist|) == k
    requires S.dist[k].distance.Fin? && S.dist[k].node.name in Keys(S.dist) && Explored(S, S.dist[k].node) == Success(R)
    ensures TurnOf(S) == Success(Settled(R, S.dist[k].node.name))
  {
    RisingFirst(S.dist, k);
  }

  // ---------------------------------------------------------------------
  // The forward direction.

  /** The predecessors the forward direction records: `s` for its three neighbours. */
  function PF(L: Labels): map<string, Option<NodeValue>> {
    Unpreceded(Lopsided(L))[L.t := Some(Src(L))][L.m := Some(Src(L))][L.f := Some(Src(L))]
  }

  function F0(L: Labels): Search {
    Search([Entry(Src(L), Fin(0.0)), Entry(Dest(L), Inf), Entry(Mid(L), Inf), Entry(Fw(L), Inf), Entry(Bward(L), Inf)], Unpreceded(Lopsided(L)), [])
  }

  /** The edges of `s` relaxed. */
  function FR(L: Labels): Search {
    Search([Entry(Src(L), Fin(0.0)), Entry(Dest(L), Fin(10.0)), Entry(Mid(L), Fin(6.0)), Entry(Fw(L), Fin(5.0)), Entry(Bward(L), Inf)], PF(L), [])
  }

  /** After settling `s`. */
  function F1(L: Labels): Search {
    Search([Entry(Dest(L), Fin(10.0)), Entry(Mid(L), Fin(6.0)), Entry(Fw(L), Fin(5.0)), Entry(Bward(L), Inf)], PF(L), [Triplet(Src(L), Fin(0.0), None)])
  }

  /** After settling `f`. */
  function F2(L: Labels): Search {
    Search([Entry(Dest(L), Fin(10.0)), Entry(Mid(L), Fin(6.0)), Entry(Bward(L), Inf)], PF(L),
           [Triplet(Src(L), Fin(0.0), None), Triplet(Fw(L), Fin(5.0), Some(Src(L)))])
  }

  /** After settling `m`. */
  function F4(L: Labels): Search {
    Search([Entry(Dest(L), Fin(10.0)), Entry(Bward(L), Inf)], PF(L),
           [Triplet(Src(L), Fin(0.0), None), Triplet(Fw(L), Fin(5.0), Some(Src(L))), Triplet(Mid(L), Fin(6.0), Some(Src(L)))])
  }

  lemma ForwardStart(L: Labels)
    requires Apart(L)
    ensures Start(Lopsided(L), Src(L)) == F0(L)
  {
    var U := Searches.Unreached(Lopsided(L));
    assert U[0].node == Src(L) && Rising(U);
    RisingFirst(U, 0);
  }

  /** The edge `s -> t` relaxed. */
  function FRa(L: Labels): Search {
    Search([Entry(Src(L), Fin(0.0)), Entry(Dest(L), Fin(10.0)), Entry(Mid(L), Inf), Entry(Fw(L), Inf), Entry(Bward(L), Inf)],
           Unpreceded(Lopsided(L))[L.t := Some(Src(L))], [])
  }

  /** The edges `s -> t` and `s -> m` relaxed. */
  function FRb(L: Labels): Search {
    Search([Entry(Src(L), Fin(0.0)), Entry(Dest(L), Fin(10.0)), Entry(Mid(L), Fin(6.0)), Entry(Fw(L), Inf), Entry(Bward(L), Inf)],
           Unpreceded(Lopsided(L))[L.t := Some(Src(L))][L.m := Some(Src(L))], [])
  }

  lemma ForwardRelaxT(L: Labels)
    requires Apart(L)
    ensures L.s in Keys(F0(L).dist) && Relax(F0(L), Src(L), Src(L).edges[0]) == FRa(L) && Rising(FRa(L).dist)
  {
    assert Rising(F0(L).dist);
    RelaxAt(F0(L), Src(L), Src(L).edges[0], 0, 1, Fin(10.0));
  }

  lemma ForwardRelaxM(L: Labels)
    requires Apart(L) && Rising(FRa(L).dist)
    ensures L.s in Keys(FRa(L).dist) && Relax(FRa(L), Src(L), Src(L).edges[1]) == FRb(L) && Rising(FRb(L).dist)
  {
    RelaxAt(FRa(L), Src(L), Src(L).edges[1], 0, 2, Fin(6.0));
  }

  lemma ForwardRelaxF(L: Labels)
    requires Apart(L) && Rising(FRb(L).dist)
    ensures L.s in Keys(FRb(L).dist) && Relax(FRb(L), Src(L), Src(L).edges[2]) == FR(L)
  {
    RelaxAt(FRb(L), Src(L), Src(L).edges[2], 0, 3, Fin(5.0));
  }

  lemma ForwardRelax0(L: Labels)
    requires Apart(L)
    ensures L.s in Keys(F0(L).dist) && RelaxAll(F0(L), Src(L), Src(L).edges) == FR(L)
  {
    ForwardRelaxT(L);
    ForwardRelaxM(L);
    ForwardRelaxF(L);
    var E := Src(L).edges;
    RelaxAllThree(F0(L), Src(L), E[0], E[1], E[2]);
  }

  /** The forward predecessor entries: none for `s`, `s` for `f` and `m`. */
  lemma ForwardPreds(L: Labels)
    requires Apart(L)
    ensures L.s in PF(L) && PF(L)[L.s] == None && L.f in PF(L) && PF(L)[L.f] == Some(Src(L)) && L.m in PF(L) && PF(L)[L.m] == Some(Src(L))
  {
    assert NamesOf(Lopsided(L))[0] == L.s;
  }

  /** Popping `s` from the relaxed dictionary and settling it gives `F1`. */
  lemma Settle0(L: Labels)
    requires Apart(L)
    ensures L.s in FR(L).pred
    ensures Search(FR(L).dist[..0] + FR(L).dist[1..], FR(L).pred, FR(L).result + [Triplet(Src(L), FR(L).dist[0].distance, FR(L).pred[L.s])]) == F1(L)
  {
    ForwardPreds(L);
    assert FR(L).dist[..0] + FR(L).dist[1..] == F1(L).dist;
  }

  /** `s` is the nearest key at the start, and the keys rise. */
  lemma Nearest0(L: Labels)
    requires Apart(L)
    ensures Rising(F0(L).dist) && NearestAmong(F0(L).dist, 5) == 0
  {
    assert Rising(F0(L).dist);
  }

  lemma Pass0(L: Labels)
    requires Apart(L)
    ensures TurnOf(F0(L)) == Success(Settled(F1(L), L.s))
  {
    var S := F0(L);
    Nearest0(L);
    ForwardRelax0(L);
    Settle0(L);
    ExploredAt(S, 0, FR(L));
    TurnSettles(S, 0, F1(L));
  }

  // ---------------------------------------------------------------------
  // The backward direction, on the reversed graph.

  /** The predecessors the backward direction records: `t` for its three neighbours. */
  function QB(L: Labels): map<string, Option<NodeValue>> {
    Unpreceded(Turned5(L))[L.s := Some(RDest(L))][L.m := Some(RDest(L))][L.b := Some(RDest(L))]
  }

  function B0(L: Labels): Search {
    Search([Entry(RSrc(L), Inf), Entry(RDest(L), Fin(0.0)), Entry(RMid(L), Inf), Entry(RFw(L), Inf), Entry(RBward(L), Inf)], Unpreceded(Turned5(L)), [])
  }

  /** The edge `t -> s` relaxed. */
  function BRa(L: Labels): Search {
    Search([Entry(RSrc(L), Fin(10.0)), Entry(RDest(L), Fin(0.0)), Entry(RMid(L), Inf), Entry(RFw(L), Inf), Entry(RBward(L), Inf)],
           Unpreceded(Turned5(L))[L.s := Some(RDest(L))], [])
  }

  /** The edges `t -> s` and `t -> m` relaxed. */
  function BRb(L: Labels): Search {
    Search([Entry(RSrc(L), Fin(10.0)), Entry(RDest(L), Fin(0.0)), Entry(RMid(L), Fin(6.0)), Entry(RFw(L), Inf), Entry(RBward(L), Inf)],
           Unpreceded(Turned5(L))[L.s := Some(RDest(L))][L.m := Some(RDest(L))], [])
  }

  /** The edges of `t` relaxed. */
  function BR(L: Labels): Search {
    Search([Entry(RSrc(L), Fin(10.0)), Entry(RDest(L), Fin(0.0)), Entry(RMid(L), Fin(6.0)), Entry(RFw(L), Inf), Entry(RBward(L), Fin(5.0))], QB(L), [])
  }

  /** After settling `t`. */
  function B1(L: Labels): Search {
    Search([Entry(RSrc(L), Fin(10.0)), Entry(RMid(L), Fin(6.0)), Entry(RFw(L), Inf), Entry(RBward(L), Fin(5.0))], QB(L), [Triplet(RDest(L), Fin(0.0), None)])
  }

  /** After settling `b`. */
  function B3(L: Labels): Search {
    Search([Entry(RSrc(L), Fin(10.0)), Entry(RMid(L), Fin(6.0)), Entry(RFw(L), Inf)], QB(L),
           [Triplet(RDest(L), Fin(0.0), None), Triplet(RBward(L), Fin(5.0), Some(RDest(L)))])
  }

  /** After settling `m`. */
  function B5(L: Labels): Search {
    Search([Entry(RSrc(L), Fin(10.0)), Entry(RFw(L), Inf)], QB(L),
           [Triplet(RDest(L), Fin(0.0), None), Triplet(RBward(L), Fin(5.0), Some(RDest(L))), Triplet(RMid(L), Fin(6.0), Some(RDest(L)))])
  }

  lemma BackwardStart(L: Labels)
    requires Apart(L)
    ensures Start(Turned5(L), Dest(L)) == B0(L)
  {
    var U := Searches.Unreached(Turned5(L));
    assert U[1].node == RDest(L) && Rising(U);
    RisingFirst(U, 1);
  }

  lemma BackwardRelaxS(L: Labels)
    requires Apart(L)
    ensures L.t in Keys(B0(L).dist) && Relax(B0(L), RDest(L), RDest(L).edges[0]) == BRa(L) && Rising(BRa(L).dist)
  {
    assert Rising(B0(L).dist);
    RelaxAt(B0(L), RDest(L), RDest(L).edges[0], 1, 0, Fin(10.0));
  }

  lemma BackwardRelaxM(L: Labels)
    requires Apart(L) && Rising(BRa(L).dist)
    ensures L.t in Keys(BRa(L).dist) && Relax(BRa(L), RDest(L), RDest(L).edges[1]) == BRb(L) && Rising(BRb(L).dist)
  {
    RelaxAt(BRa(L), RDest(L), RDest(L).edges[1], 1, 2, Fin(6.0));
  }

  lemma BackwardRelaxB(L: Labels)
    requires Apart(L) && Rising(BRb(L).dist)
    ensures L.t in Keys(BRb(L).dist) && Relax(BRb(L), RDest(L), RDest(L).edges[2]) == BR(L)
  {
    RelaxAt(BRb(L), RDest(L), RDest(L).edges[2], 1, 4, Fin(5.0));
  }

  lemma BackwardRelax1(L: Labels)
    requires Apart(L)
    ensures L.t in Keys(B0(L).dist) && RelaxAll(B0(L), RDest(L), RDest(L).edges) == BR(L)
  {
    BackwardRelaxS(L);
    BackwardRelaxM(L);
    BackwardRelaxB(L);
    var E := RDest(L).edges;
    RelaxAllThree(B0(L), RDest(L), E[0], E[1], E[2]);
  }

  /** The backward predecessor entries: none for `t`, `t` for `b` and `m`. */
  lemma BackwardPreds(L: Labels)
    requires Apart(L)
    ensures L.t in QB(L) && QB(L)[L.t] == None && L.b in QB(L) && QB(L)[L.b] == Some(RDest(L)) && L.m in QB(L) && QB(L)[L.m] == Some(RDest(L))
  {
    assert NamesOf(Turned5(L))[1] == L.t;
  }

  /** Popping `t` from the relaxed dictionary and settling it gives `B1`. */
  lemma Settle1(L: Labels)
    requires Apart(L)
    ensures L.t in BR(L).pred
    ensures Search(BR(L).dist[..1] + BR(L).dist[2..], BR(L).pred, BR(L).result + [Triplet(RDest(L), BR(L).dist[1].distance, BR(L).pred[L.t])]) == B1(L)
  {
    BackwardPreds(L);
    assert BR(L).dist[..1] + BR(L).dist[2..] == B1(L).dist;
  }

  /** `t` is the nearest key at the start, and the keys rise. */
  lemma Nearest1(L: Labels)
    requires Apart(L)
    ensures Rising(B0(L).dist) && NearestAmong(B0(L).dist, 5) == 1
  {
    assert Rising(B0(L).dist);
  }

  lemma Pass1(L: Labels)
    requires Apart(L)
    ensures TurnOf(B0(L)) == Success(Settled(B1(L), L.t))
  {
    var S := B0(L);
    Nearest1(L);
    BackwardRelax1(L);
    Settle1(L);
    ExploredAt(S, 1, BR(L));
    TurnSettles(S, 1, B1(L));
  }

  // ---------------------------------------------------------------------
  // The dead ends `f` and `b`, then `m` from both sides.

  lemma Settle2(L: Labels)
    requires Apart(L)
    ensures L.f in F1(L).pred
    ensures Search(F1(L).dist[..2] + F1(L).dist[3..], F1(L).pred, F1(L).result + [Triplet(Fw(L), F1(L).dist[2].distance, F1(L).pred[L.f])]) == F2(L)
  {
    ForwardPreds(L);
    assert F1(L).dist[..2] + F1(L).dist[3..] == F2(L).dist;
  }

  lemma Nearest2(L: Labels)
    requires Apart(L)
    ensures Rising(F1(L).dist) && NearestAmong(F1(L).dist, 4) == 2
  {
    assert Rising(F1(L).dist);
  }

  lemma Pass2(L: Labels)
    requires Apart(L)
    ensures TurnOf(F1(L)) == Success(Settled(F2(L), L.f))
  {
    var S := F1(L);
    Nearest2(L);
    RisingFirst(S.dist, 2);
    RelaxAllShort(S, Fw(L));
    Settle2(L);
    ExploredAt(S, 2, S);
    TurnSettles(S, 2, F2(L));
  }

  lemma Settle3(L: Labels)
    requires Apart(L)
    ensures L.b in B1(L).pred
    ensures Search(B1(L).dist[..3] + B1(L).dist[4..], B1(L).pred, B1(L).result + [Triplet(RBward(L), B1(L).dist[3].distance, B1(L).pred[L.b])]) == B3(L)
  {
    BackwardPreds(L);
    assert B1(L).dist[..3] + B1(L).dist[4..] == B3(L).dist;
  }

  lemma Nearest3(L: Labels)
    requires Apart(L)
    ensures Rising(B1(L).dist) && NearestAmong(B1(L).dist, 4) == 3
  {
    assert Rising(B1(L).dist);
  }

  lemma Pass3(L: Labels)
    requires Apart(L)
    ensures TurnOf(B1(L)) == Success(Settled(B3(L), L.b))
  {
    var S := B1(L);
    Nearest3(L);
    RisingFirst(S.dist, 3);
    RelaxAllShort(S, RBward(L));
    Settle3(L);
    ExploredAt(S, 3, S);
    TurnSettles(S, 3, B3(L));
  }

  /** `m -> t` does not improve on `s -> t`. */
  lemma Relax4(L: Labels)
    requires Apart(L)
    ensures L.m in Keys(F2(L).dist) && RelaxAll(F2(L), Mid(L), Mid(L).edges) == F2(L)
  {
    assert Rising(F2(L).dist);
    RelaxIdle(F2(L), Mid(L), Mid(L).edges[0], 1, 0);
    RelaxAllShort(F2(L), Mid(L));
  }

  lemma Settle4(L: Labels)
    requires Apart(L)
    ensures L.m in F2(L).pred
    ensures Search(F2(L).dist[..1] + F2(L).dist[2..], F2(L).pred, F2(L).result + [Triplet(Mid(L), F2(L).dist[1].distance, F2(L).pred[L.m])]) == F4(L)
  {
    ForwardPreds(L);
    assert F2(L).dist[..1] + F2(L).dist[2..] == F4(L).dist;
  }

  lemma Nearest4(L: Labels)
    requires Apart(L)
    ensures Rising(F2(L).dist) && NearestAmong(F2(L).dist, 3) == 1
  {
    assert Rising(F2(L).dist);
  }

  lemma Pass4(L: Labels)
    requires Apart(L)
    ensures TurnOf(F2(L)) == Success(Settled(F4(L), L.m))
  {
    var S := F2(L);
    Nearest4(L);
    Relax4(L);
    Settle4(L);
    ExploredAt(S, 1, S);
    TurnSettles(S, 1, F4(L));
  }

  /** `m -> s` does not improve on `t -> s`, backwards. */
  lemma Relax5(L: Labels)
    requires Apart(L)
    ensures L.m in Keys(B3(L).dist) && RelaxAll(B3(L), RMid(L), RMid(L).edges) == B3(L)
  {
    assert Rising(B3(L).dist);
    RelaxIdle(B3(L), RMid(L), RMid(L).edges[0], 1, 0);
    RelaxAllShort(B3(L), RMid(L));
  }

  lemma Settle5(L: Labels)
    requires Apart(L)
    ensures L.m in B3(L).pred
    ensures Search(B3(L).dist[..1] + B3(L).dist[2..], B3(L).pred, B3(L).result + [Triplet(RMid(L), B3(L).dist[1].distance, B3(L).pred[L.m])]) == B5(L)
  {
    BackwardPreds(L);
    assert B3(L).dist[..1] + B3(L).dist[2..] == B5(L).dist;
  }

  lemma Nearest5(L: Labels)
    requires Apart(L)
    ensures Rising(B3(L).dist) && NearestAmong(B3(L).dist, 3) == 1
  {
    assert Rising(B3(L).dist);
  }

  lemma Pass5(L: Labels)
    requires Apart(L)
    ensures TurnOf(B3(L)) == Success(Settled(B5(L), L.m))
  {
    var S := B3(L);
    Nearest5(L);
    Relax5(L);
    Settle5(L);
    ExploredAt(S, 1, S);
    TurnSettles(S, 1, B5(L));
  }

  // ---------------------------------------------------------------------
  // The alternating loop, pass by pass.

  /** Two non-empty rising dictionaries are keyed. */
  lemma RisingKeyed(X: Sides)
    requires Rising(X.forward.dist) && Rising(X.backward.dist) && |X.forward.dist| > 0 && |X.backward.dist| > 0
    ensures Keyed(X)
  {
    RisingFirst(X.forward.dist, 0);
    RisingFirst(X.backward.dist, 0);
  }

  /** A forward pass that settles `n`, still a backward key, goes on. */
  lemma ForwardGoesOn(X: Sides, count: nat, T: Search, n: string)
    requires Keyed(X) && count % 2 == 0 && |X.forward.dist| > 0 && |X.backward.dist| > 0
    requires TurnOf(X.forward) == Success(Settled(T, n)) && n in Keys(X.backward.dist)
    ensures NextTurn(X, count) == Continue(Sides(T, X.backward))
  {
  }

  /** A backward pass that settles `n`, still a forward key, goes on. */
  lemma BackwardGoesOn(X: Sides, count: nat, T: Search, n: string)
    requires Keyed(X) && count % 2 == 1 && |X.forward.dist| > 0 && |X.backward.dist| > 0
    requires TurnOf(X.backward) == Success(Settled(T, n)) && n in Keys(X.forward.dist)
    ensures NextTurn(X, count) == Continue(Sides(X.forward, T))
  {
  }

  /** A backward pass that settles `n`, no longer a forward key, ends the loop. */
  lemma BackwardStops(X: Sides, count: nat, T: Search, n: string)
    requires Keyed(X) && count % 2 == 1 && |X.forward.dist| > 0 && |X.backward.dist| > 0
    requires TurnOf(X.backward) == Success(Settled(T, n)) && n !in Keys(X.forward.dist)
    ensures NextTurn(X, count) == Done(Success(Sides(X.forward, T)))
  {
  }

  lemma Next0(L: Labels)
    requires Apart(L)
    ensures Keyed(Sides(F0(L), B0(L))) && NextTurn(Sides(F0(L), B0(L)), 0) == Continue(Sides(F1(L), B0(L)))
  {
    Nearest0(L);
    Nearest1(L);
    RisingKeyed(Sides(F0(L), B0(L)));
    RisingFirst(B0(L).dist, 0);
    Pass0(L);
    ForwardGoesOn(Sides(F0(L), B0(L)), 0, F1(L), L.s);
  }

  lemma Next1(L: Labels)
    requires Apart(L)
    ensures Keyed(Sides(F1(L), B0(L))) && NextTurn(Sides(F1(L), B0(L)), 1) == Continue(Sides(F1(L), B1(L)))
  {
    Nearest2(L);
    Nearest1(L);
    RisingKeyed(Sides(F1(L), B0(L)));
    RisingFirst(F1(L).dist, 0);
    Pass1(L);
    BackwardGoesOn(Sides(F1(L), B0(L)), 1, B1(L), L.t);
  }

  lemma Next2(L: Labels)
    requires Apart(L)
    ensures Keyed(Sides(F1(L), B1(L))) && NextTurn(Sides(F1(L), B1(L)), 2) == Continue(Sides(F2(L), B1(L)))
  {
    Nearest2(L);
    Nearest3(L);
    RisingKeyed(Sides(F1(L), B1(L)));
    RisingFirst(B1(L).dist, 2);
    Pass2(L);
    ForwardGoesOn(Sides(F1(L), B1(L)), 2, F2(L), L.f);
  }

  lemma Next3(L: Labels)
    requires Apart(L)
    ensures Keyed(Sides(F2(L), B1(L))) && NextTurn(Sides(F2(L), B1(L)), 3) == Continue(Sides(F2(L), B3(L)))
  {
    Nearest4(L);
    Nearest3(L);
    RisingKeyed(Sides(F2(L), B1(L)));
    RisingFirst(F2(L).dist, 2);
    Pass3(L);
    BackwardGoesOn(Sides(F2(L), B1(L)), 3, B3(L), L.b);
  }

  lemma Next4(L: Labels)
    requires Apart(L)
    ensures Keyed(Sides(F2(L), B3(L))) && NextTurn(Sides(F2(L), B3(L)), 4) == Continue(Sides(F4(L), B3(L)))
  {
    Nearest4(L);
    Nearest5(L);
    RisingKeyed(Sides(F2(L), B3(L)));
    RisingFirst(B3(L).dist, 1);
    Pass4(L);
    ForwardGoesOn(Sides(F2(L), B3(L)), 4, F4(L), L.m);
  }

  lemma Next5(L: Labels)
    requires Apart(L)
    ensures Keyed(Sides(F4(L), B3(L))) && NextTurn(Sides(F4(L), B3(L)), 5) == Done(Success(Sides(F4(L), B5(L))))
  {
    assert Rising(F4(L).dist);
    Nearest5(L);
    RisingKeyed(Sides(F4(L), B3(L)));
    RisingMissing(F4(L).dist, L.m);
    Pass5(L);
    BackwardStops(Sides(F4(L), B3(L)), 5, B5(L), L.m);
  }

  /** The alternating loop on the lopsided graph stops after six passes, with `m` settled by both directions. */
  lemma LopsidedAlternation(L: Labels)
    requires Apart(L)
    ensures Keyed(Sides(F0(L), B0(L))) && Alternation(Sides(F0(L), B0(L)), 0) == Success(Sides(F4(L), B5(L)))
  {
    Next0(L);
    Next1(L);
    Next2(L);
    Next3(L);
    Next4(L);
    Next5(L);
    AlternationDone(Sides(F4(L), B3(L)), 5, Success(Sides(F4(L), B5(L))));
    AlternationContinues(Sides(F2(L), B3(L)), Sides(F4(L), B3(L)), 4);
    AlternationContinues(Sides(F2(L), B1(L)), Sides(F2(L), B3(L)), 3);
    AlternationContinues(Sides(F1(L), B1(L)), Sides(F2(L), B1(L)), 2);
    AlternationContinues(Sides(F1(L), B0(L)), Sides(F1(L), B1(L)), 1);
    AlternationContinues(Sides(F0(L), B0(L)), Sides(F1(L), B0(L)), 0);
  }

  // ---------------------------------------------------------------------
  // The terminators and the continued directions.

  /** The nodes of both graphs have distinct names. */
  lemma LopsidedNames(L: Labels)
    requires Apart(L)
    ensures Distinct(NamesOf(Lopsided(L))) && Distinct(NamesOf(Turned5(L)))
  {
    assert forall i :: 0 <= i < 5 ==> |NamesOf(Lopsided(L))[i]| == i + 1 && |NamesOf(Turned5(L))[i]| == i + 1;
  }

  /** The alternating loop leaves `F4` and `B5`. */
  lemma LopsidedTurns(L: Labels)
    requires Apart(L)
    ensures Distinct(NamesOf(Lopsided(L))) && Distinct(NamesOf(Turned5(L)))
    ensures Turns(Lopsided(L), Turned5(L), Src(L), Dest(L)) == Success(Sides(F4(L), B5(L)))
  {
    LopsidedNames(L);
    ForwardStart(L);
    BackwardStart(L);
    LopsidedAlternation(L);
  }

  /** Both terminators are `6 + 6 - 5`. */
  lemma LopsidedTerminators(L: Labels)
    ensures FiniteResult(F4(L)) && FiniteResult(B5(L))
    ensures ForwardTerminator(Sides(F4(L), B5(L))) == 7.0 && BackwardTerminator(Sides(F4(L), B5(L))) == 7.0
  {
  }

  /** The nearest forward key, `t` at 10, is beyond 7: the forward direction stops at once. */
  lemma ForwardStays(L: Labels)
    requires Apart(L)
    ensures Distinct(Keys(F4(L).dist)) && Continued(F4(L), 7.0) == Success(F4(L))
  {
    assert Rising(F4(L).dist);
    RisingFirst(F4(L).dist, 0);
    assert NearestAmong(F4(L).dist, 2) == 0;
  }

  /** The nearest backward key, `s` at 10, is beyond 7: the backward direction stops at once. */
  lemma BackwardStays(L: Labels)
    requires Apart(L)
    ensures Distinct(Keys(B5(L).dist)) && Continued(B5(L), 7.0) == Success(B5(L))
  {
    assert Rising(B5(L).dist);
    RisingFirst(B5(L).dist, 0);
    assert NearestAmong(B5(L).dist, 2) == 0;
  }

  /** Everything both directions settle on the lopsided graph. */
  lemma LopsidedBoth(L: Labels)
    requires Apart(L)
    ensures Distinct(NamesOf(Lopsided(L))) && Distinct(NamesOf(Turned5(L)))
    ensures BothDirections(Lopsided(L), Turned5(L), Src(L), Dest(L)) == Success(Sides(F4(L), B5(L)))
  {
    LopsidedTurns(L);
    LopsidedTerminators(L);
    ForwardStays(L);
    BackwardStays(L);
    BothContinued(Lopsided(L), Turned5(L), Src(L), Dest(L), Sides(F4(L), B5(L)), F4(L), B5(L));
  }

  // ---------------------------------------------------------------------
  // The answer.

  /** The graph is closed, and holds the source, the target and more than one node: `bidirectional_dijkstra` returns an answer. */
  lemma LopsidedRuns(L: Labels)
    requires Apart(L)
    ensures Closed(Lopsided(L)) && L.s in NamesOf(Lopsided(L)) && L.t in NamesOf(Lopsided(L)) && |Lopsided(L)| >= 2
  {
    assert NamesOf(Lopsided(L))[0] == L.s && NamesOf(Lopsided(L))[1] == L.t;
    assert NamesOf(Lopsided(L))[2] == L.m && NamesOf(Lopsided(L))[3] == L.f;
  }

  /** The direct edge: the walk `s, t` costs 10. */
  lemma DirectCost(L: Labels)
    requires Apart(L)
    ensures WalkCost(Lopsided(L), [L.s, L.t]) == Fin(10.0)
  {
    var G := Lopsided(L);
    assert NamesOf(G)[0] == L.s;
    FirstAt(NamesOf(G), L.s, 0);
    assert NodeNamed(G, L.s) == Src(L);
    assert [L.s, L.t][..1] == [L.s];
    assert MinCost(Src(L).edges, L.t) == Fin(10.0) by {
      var E := Src(L).edges;
      assert E[1..][1..][1..] == [];
      assert MinCost(E[1..][1..], L.t) == Inf;
    }
  }

  /** `m` is settled by both directions, 6 from each end. */
  lemma MidSum(L: Labels)
    requires Apart(L)
    ensures L.m in TNames(F4(L).result) && L.m in TNames(B5(L).result)
    ensures At(F4(L).result, L.m).distance == Fin(6.0) && At(B5(L).result, L.m).distance == Fin(6.0)
  {
    FirstAt(TNames(F4(L).result), L.m, 2);
    FirstAt(TNames(B5(L).result), L.m, 2);
  }

  /** `m` is the only name both directions settle. */
  lemma MeetsAtMid(L: Labels, n: string)
    requires Apart(L) && n in TNames(F4(L).result) && n in TNames(B5(L).result)
    ensures n == L.m
  {
    assert n == L.s || n == L.f || n == L.m;
    assert n == L.t || n == L.b || n == L.m;
  }

  /**
   * Whatever `bidirectional_dijkstra` returns on the lopsided graph routes
   * through `m` and costs 12, although the direct edge costs 10.
   */
  lemma DetourReturned(L: Labels, a: Answer, m: string)
    requires Apart(L) && Found(Lopsided(L), L.s, L.t, a, m) && FromBoth(Lopsided(L), Src(L), Dest(L), a)
    ensures a.path.Some? && m == L.m
    ensures WalkCost(Lopsided(L), NamesOf(a.path.value.nodes)) == Fin(12.0)
    ensures WalkCost(Lopsided(L), [L.s, L.t]) == Fin(10.0)
  {
    LopsidedReversed(L);
    LopsidedBoth(L);
    assert a.forward == F4(L).result && a.backward == B5(L).result;
    MidSum(L);
    assert Met(a.forward, a.backward);
    assert JoinedWalk(Lopsided(L), L.s, L.t, a.forward, a.backward, m, a.path.value.nodes, a.path.value.edges);
    MeetsAtMid(L, m);
    DirectCost(L);
  }
}
