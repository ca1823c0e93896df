/**
 * `binary_heap_dijkstra` (code/Dijkstra.py:16-36): single-source Dijkstra
 * on the Dijkstra heap. Between two steps the run is described by the table
 * of all triplets by name (`Table` of the heap's array) and by the list of
 * triplets settled so far; `Progress` is the invariant both keep, and
 * `FinalOutcome` turns it into the certificate `DijkstraOutcome`.
 */
module Dijkstra {
  import opened Wrappers
  import opened Distance
  import opened Seqs
  import opened Nodes
  import opened Reversal
  import opened Heaps
  import opened DijkstraHeaps
  import opened Graphs
  import opened ShortestPaths

  // ---------------------------------------------------------------------
  // The invariant of the run, piece by piece.

  /** The table has a triplet for every node of `G`, carrying that node. */
  ghost predicate Tabled(G: seq<NodeValue>, T: map<string, Triplet>) {
    && Distinct(NamesOf(G))
    && (forall n :: n in T <==> n in NamesOf(G))
    && (forall n :: n in T ==> n in NamesOf(G) && T[n].node == NodeNamed(G, n))
  }

  /** The settled triplets are distinct entries of the table. */
  ghost predicate SettledIn(T: map<string, Triplet>, R: seq<Triplet>) {
    Distinct(TNames(R)) && forall i :: 0 <= i < |R| ==> R[i].node.name in T && T[R[i].node.name] == R[i]
  }

  /** No unsettled triplet is nearer than the last settled one. */
  ghost predicate Frontier(T: map<string, Triplet>, R: seq<Triplet>) {
    |R| > 0 ==> forall n :: n in T && n !in TNames(R) ==> Le(R[|R| - 1].distance, T[n].distance)
  }

  /** Every finite distance is non-negative. */
  ghost predicate NonNegative(T: map<string, Triplet>) {
    forall n :: n in T && T[n].distance.Fin? ==> T[n].distance.r >= 0.0
  }

  /** The source is at distance 0 without predecessor. */
  ghost predicate SourceZeroIn(T: map<string, Triplet>, src: string) {
    src in T && T[src].distance == Fin(0.0) && T[src].predecessor == None
  }

  /** Every predecessor is a node settled before its own node and accounts for its distance. */
  ghost predicate AllJustified(T: map<string, Triplet>, R: seq<Triplet>, src: string) {
    forall n :: n in T ==> JustifiedBefore(R, T[n], FirstOf(TNames(R), n), src)
  }

  /** The edges of every settled node are relaxed, of the last one only the first `done`. */
  ghost predicate RelaxedBefore(T: map<string, Triplet>, R: seq<Triplet>, done: nat) {
    && (forall i :: 0 <= i < |R| - 1 ==> RelaxedUpTo(T, R[i], |R[i].node.edges|))
    && (|R| > 0 ==> done <= |R[|R| - 1].node.edges| && RelaxedUpTo(T, R[|R| - 1], done))
  }

  /** The invariant of the run on the table `T` with settled list `R`. */
  ghost predicate Progress(G: seq<NodeValue>, src: string, T: map<string, Triplet>, R: seq<Triplet>, done: nat) {
    && Tabled(G, T) && SettledIn(T, R) && Sorted(R) && Frontier(T, R) && NonNegative(T)
    && SourceZeroIn(T, src) && AllJustified(T, R, src) && RelaxedBefore(T, R, done)
  }

  /** The number of edges of the last settled node: all of them relaxed. */
  function Full(R: seq<Triplet>): nat {
    if |R| == 0 then 0 else |R[|R| - 1].node.edges|
  }

  /** The heap array `s` of size `size` holds the settled triplets `R` past `size`, last settled first. */
  ghost predicate Linked(s: seq<Triplet>, size: nat, R: seq<Triplet>) {
    Distinct(TNames(s)) && size + |R| == |s| && forall i :: 0 <= i < |R| ==> s[|s| - 1 - i] == R[i]
  }

  /** The state of a run held in the heap array `s` of size `size`. */
  ghost predicate Run(G: seq<NodeValue>, src: string, s: seq<Triplet>, size: nat, R: seq<Triplet>, done: nat) {
    Linked(s, size, R) && Progress(G, src, Table(s), R, done)
  }

  // ---------------------------------------------------------------------
  // The start.

  /** Zipping the nodes with `Inf` and no predecessor gives each name its own node, unreached. */
  lemma InitialTable(G: seq<NodeValue>, s: seq<Triplet>)
    requires Distinct(NamesOf(G))
    requires multiset(s) == multiset(Zip(G, seq(|G|, _ => Inf), seq(|G|, _ => None)))
    ensures Linked(s, |G|, []) && |s| == |G|
    ensures forall n :: n in Table(s) <==> n in NamesOf(G)
    ensures forall n :: n in Table(s) ==> n in NamesOf(G) && Table(s)[n] == Triplet(NodeNamed(G, n), Inf, None)
  {
    var z := Zip(G, seq(|G|, _ => Inf), seq(|G|, _ => None));
    assert TNames(z) == NamesOf(G);
    SameTable(z, s);
    assert |s| == |z| by {
      assert |multiset(s)| == |multiset(z)|;
    }
  }

  /** The table with the source at 0 and every other node unreached satisfies the invariant before anything is settled. */
  lemma InitialProgress(G: seq<NodeValue>, src: string, T: map<string, Triplet>)
    requires Distinct(NamesOf(G)) && src in NamesOf(G)
    requires forall n :: n in T <==> n in NamesOf(G)
    requires forall n :: n in T ==>
      n in NamesOf(G) && T[n] == Triplet(NodeNamed(G, n), if n == src then Fin(0.0) else Inf, None)
    ensures Progress(G, src, T, [], 0)
  {
  }

  // ---------------------------------------------------------------------
  // Settling the root.

  lemma SettledSnoc(T: map<string, Triplet>, R: seq<Triplet>, x: Triplet)
    requires SettledIn(T, R) && x.node.name in T && T[x.node.name] == x && x.node.name !in TNames(R)
    ensures SettledIn(T, R + [x])
  {
    NamesSnoc(R, x);
    DistinctSnoc(TNames(R), x.node.name);
  }

  lemma SortedSnoc(T: map<string, Triplet>, R: seq<Triplet>, x: Triplet)
    requires Sorted(R) && Frontier(T, R) && x.node.name in T && T[x.node.name] == x && x.node.name !in TNames(R)
    ensures Sorted(R + [x])
  {
    var R' := R + [x];
    forall i, j | 0 <= i < j < |R'|
      ensures Le(R'[i].distance, R'[j].distance)
    {
      if j == |R| {
        LeTrans(R[i].distance, R[|R| - 1].distance, x.distance);
      }
    }
  }

  /** A justification among the first `b` settled nodes is one among the first `b2 >= b` of a longer list. */
  lemma JustifiedGrow(R: seq<Triplet>, R2: seq<Triplet>, t: Triplet, b: nat, b2: nat, src: string)
    requires JustifiedBefore(R, t, b, src) && b <= b2 && |R| <= |R2| && R2[..|R|] == R
    ensures JustifiedBefore(R2, t, b2, src)
  {
    if t.predecessor.Some? {
      var i :| 0 <= i < b && i < |R| && R[i].node == t.predecessor.value && Justifies(R[i], t);
      assert R2[i] == R[i];
    }
  }

  lemma JustifiedSnoc(T: map<string, Triplet>, R: seq<Triplet>, x: Triplet, src: string)
    requires AllJustified(T, R, src)
    ensures AllJustified(T, R + [x], src)
  {
    NamesSnoc(R, x);
    assert (R + [x])[..|R|] == R;
    forall n | n in T
      ensures JustifiedBefore(R + [x], T[n], FirstOf(TNames(R + [x]), n), src)
    {
      FirstOfSnoc(TNames(R), x.node.name, n);
      JustifiedGrow(R, R + [x], T[n], FirstOf(TNames(R), n), FirstOf(TNames(R + [x]), n), src);
    }
  }

  lemma RelaxedSnoc(T: map<string, Triplet>, R: seq<Triplet>, x: Triplet)
    requires RelaxedBefore(T, R, Full(R))
    ensures RelaxedBefore(T, R + [x], 0)
  {
    var R' := R + [x];
    forall i | 0 <= i < |R'| - 1
      ensures RelaxedUpTo(T, R'[i], |R'[i].node.edges|)
    {
      assert R'[i] == R[i];
    }
  }

  /** Settling the nearest unsettled node keeps the invariant, with none of its edges relaxed yet. */
  lemma ExtractStep(G: seq<NodeValue>, src: string, T: map<string, Triplet>, R: seq<Triplet>, x: Triplet)
    requires Progress(G, src, T, R, Full(R))
    requires x.node.name in T && T[x.node.name] == x && x.node.name !in TNames(R)
    requires forall n :: n in T && n !in TNames(R + [x]) ==> Le(x.distance, T[n].distance)
    ensures Progress(G, src, T, R + [x], 0)
  {
    SettledSnoc(T, R, x);
    SortedSnoc(T, R, x);
    JustifiedSnoc(T, R, x, src);
    RelaxedSnoc(T, R, x);
  }

  /** An unsettled name of the array sits inside the heap. */
  lemma InHeap(s: seq<Triplet>, size: nat, R: seq<Triplet>, n: string)
    requires Linked(s, size, R) && n in TNames(s) && n !in TNames(R)
    ensures FirstOf(TNames(s), n) < size
  {
    LinkedTail(s, size, R);
  }

  /** Past the heap, the array holds settled names only. */
  lemma LinkedTail(s: seq<Triplet>, size: nat, R: seq<Triplet>)
    requires Linked(s, size, R)
    ensures forall p :: size <= p < |s| ==> TNames(s)[p] in TNames(R)
  {
    forall p | size <= p < |s|
      ensures TNames(s)[p] in TNames(R)
    {
      assert s[p] == R[|s| - 1 - p];
      assert TNames(R)[|s| - 1 - p] == TNames(s)[p];
    }
  }

  /** After `remove_root` the array still holds the settled triplets, now with the root last settled. */
  lemma LinkedExtractShape(s: seq<Triplet>, t: seq<Triplet>, size: nat, R: seq<Triplet>, x: Triplet)
    requires Linked(s, size, R) && 0 < size
    requires multiset(t) == multiset(s) && |t| == |s| && t[size - 1] == x
    requires forall j :: size <= j < |s| ==> t[j] == s[j]
    ensures Linked(t, size - 1, R + [x]) && Table(t) == Table(s)
  {
    SameTable(s, t);
    var R' := R + [x];
    forall i | 0 <= i < |R'|
      ensures t[|t| - 1 - i] == R'[i]
    {
      if i < |R| {
        assert t[|t| - 1 - i] == s[|s| - 1 - i];
      }
    }
  }

  /** The root of a heap holding the unsettled triplets is the table's triplet of an unsettled name. */
  lemma LinkedExtractRoot(s: seq<Triplet>, size: nat, R: seq<Triplet>)
    requires Linked(s, size, R) && 0 < size
    ensures s[0].node.name in Table(s) && Table(s)[s[0].node.name] == s[0] && s[0].node.name !in TNames(R)
  {
    var x := s[0];
    assert TNames(s)[0] == x.node.name;
    DistinctFirstOf(TNames(s), 0);
  }

  /** The removed root is no farther than any triplet still unsettled. */
  lemma LinkedExtractNearest(t: seq<Triplet>, size: nat, R: seq<Triplet>, x: Triplet)
    requires Linked(t, size, R + [x])
    requires forall j :: 0 <= j < size ==> Le(x.distance, t[j].distance)
    ensures forall n :: n in Table(t) && n !in TNames(R + [x]) ==> Le(x.distance, Table(t)[n].distance)
  {
    LinkedTail(t, size, R + [x]);
  }

  // ---------------------------------------------------------------------
  // Relaxing one edge of the last settled node.

  /** An edge that brings its destination closer leads to a node neither settled nor the source. */
  lemma RelaxUnsettled(G: seq<NodeValue>, src: string, T: map<string, Triplet>, R: seq<Triplet>, done: nat)
    requires Progress(G, src, T, R, done) && |R| > 0 && done < |R[|R| - 1].node.edges|
    requires var u := R[|R| - 1]; var e := u.node.edges[done];
      e.destination in T && Lt(Add(u.distance, e.cost), T[e.destination].distance)
    ensures var n := R[|R| - 1].node.edges[done].destination; n !in TNames(R) && n != src
  {
    var u := R[|R| - 1];
    var e := u.node.edges[done];
    var n := e.destination;
    var d := Add(u.distance, e.cost);
    forall i | 0 <= i < |R|
      ensures TNames(R)[i] != n
    {
      if i < |R| - 1 {
        LeTrans(R[i].distance, u.distance, d);
      }
      assert Le(T[TNames(R)[i]].distance, d);
    }
    assert T[u.node.name] == u;
  }

  /** The table with the triplet of `n` replaced by one of the same node. */
  ghost function Relabel(T: map<string, Triplet>, n: string, d: Dist, p: NodeValue): map<string, Triplet>
    requires n in T
  {
    T[n := Triplet(T[n].node, d, Some(p))]
  }

  lemma RelabelTabled(G: seq<NodeValue>, T: map<string, Triplet>, n: string, d: Dist, p: NodeValue)
    requires Tabled(G, T) && n in T
    ensures Tabled(G, Relabel(T, n, d, p))
  {
  }

  lemma RelabelSettled(T: map<string, Triplet>, R: seq<Triplet>, n: string, d: Dist, p: NodeValue)
    requires SettledIn(T, R) && n in T && n !in TNames(R)
    ensures SettledIn(Relabel(T, n, d, p), R)
  {
    forall i | 0 <= i < |R|
      ensures R[i].node.name != n
    {
      assert TNames(R)[i] == R[i].node.name;
    }
  }

  lemma RelabelFrontier(T: map<string, Triplet>, R: seq<Triplet>, n: string, d: Dist, p: NodeValue)
    requires Frontier(T, R) && n in T && |R| > 0 && Le(R[|R| - 1].distance, d)
    ensures Frontier(Relabel(T, n, d, p), R)
  {
  }

  lemma RelabelNonNegative(T: map<string, Triplet>, n: string, d: Dist, p: NodeValue)
    requires NonNegative(T) && n in T && (d.Fin? ==> d.r >= 0.0)
    ensures NonNegative(Relabel(T, n, d, p))
  {
  }

  lemma RelabelSourceZero(T: map<string, Triplet>, src: string, n: string, d: Dist, p: NodeValue)
    requires SourceZeroIn(T, src) && n in T && n != src
    ensures SourceZeroIn(Relabel(T, n, d, p), src)
  {
  }

  /** A relaxed edge lowers at most the distance of its destination. */
  lemma RelaxedLowered(T: map<string, Triplet>, T2: map<string, Triplet>, u: Triplet, m: nat)
    requires RelaxedUpTo(T, u, m)
    requires forall n :: n in T ==> n in T2 && Le(T2[n].distance, T[n].distance)
    ensures RelaxedUpTo(T2, u, m)
  {
    forall k | 0 <= k < m && k < |u.node.edges|
      ensures Le(T2[u.node.edges[k].destination].distance, Add(u.distance, u.node.edges[k].cost))
    {
      var d := u.node.edges[k].destination;
      LeTrans(T2[d].distance, T[d].distance, Add(u.distance, u.node.edges[k].cost));
    }
  }

  lemma RelabelRelaxed(T: map<string, Triplet>, R: seq<Triplet>, done: nat, u: Triplet, n: string, d: Dist)
    requires RelaxedBefore(T, R, done) && |R| > 0 && u == R[|R| - 1] && done < |u.node.edges|
    requires n in T && n == u.node.edges[done].destination && d == Add(u.distance, u.node.edges[done].cost)
    requires Lt(d, T[n].distance)
    ensures RelaxedBefore(Relabel(T, n, d, u.node), R, done + 1)
  {
    var T2 := Relabel(T, n, d, u.node);
    forall i | 0 <= i < |R|
      ensures RelaxedUpTo(T2, R[i], if i == |R| - 1 then done else |R[i].node.edges|)
    {
      RelaxedLowered(T, T2, R[i], if i == |R| - 1 then done else |R[i].node.edges|);
    }
    assert Le(T2[n].distance, d);
  }

  lemma RelabelJustified(G: seq<NodeValue>, T: map<string, Triplet>, R: seq<Triplet>, src: string, done: nat, u: Triplet, n: string, d: Dist)
    requires Tabled(G, T) && AllJustified(T, R, src) && |R| > 0 && u == R[|R| - 1] && done < |u.node.edges|
    requires n in T && n !in TNames(R) && n == u.node.edges[done].destination && d == Add(u.distance, u.node.edges[done].cost)
    requires d.Fin?
    ensures AllJustified(Relabel(T, n, d, u.node), R, src)
  {
    var T2 := Relabel(T, n, d, u.node);
    assert NamesOf(G)[FirstOf(NamesOf(G), n)] == n;
    assert Justifies(R[|R| - 1], T2[n]);
    assert FirstOf(TNames(R), n) == |R|;
    assert JustifiedBefore(R, T2[n], |R|, src);
  }

  /** Lowering the distance of the destination of an edge of the last settled node keeps the invariant. */
  lemma RelaxStep(G: seq<NodeValue>, src: string, T: map<string, Triplet>, R: seq<Triplet>, done: nat)
    requires Progress(G, src, T, R, done) && |R| > 0 && done < |R[|R| - 1].node.edges|
    requires var u := R[|R| - 1]; var e := u.node.edges[done];
      e.destination in T && Lt(Add(u.distance, e.cost), T[e.destination].distance)
    ensures var u := R[|R| - 1]; var e := u.node.edges[done];
      e.destination !in TNames(R) && Progress(G, src, Relabel(T, e.destination, Add(u.distance, e.cost), u.node), R, done + 1)
  {
    var u := R[|R| - 1];
    var e := u.node.edges[done];
    var n := e.destination;
    var d := Add(u.distance, e.cost);
    RelaxUnsettled(G, src, T, R, done);
    assert T[u.node.name] == u;
    assert Le(u.distance, d) by {
      AddCheaper(u.distance, 0.0, e.cost);
    }
    RelabelFrontier(T, R, n, d, u.node);
    RelabelNonNegative(T, n, d, u.node);
    RelabelSourceZero(T, src, n, d, u.node);
    RelabelTabled(G, T, n, d, u.node);
    RelabelSettled(T, R, n, d, u.node);
    RelabelRelaxed(T, R, done, u, n, d);
    RelabelJustified(G, T, R, src, done, u, n, d);
  }

  /** `RelaxStep` on the heap array: the array after the update holds the run one edge further. */
  lemma RelaxRun(G: seq<NodeValue>, src: string, s: seq<Triplet>, t: seq<Triplet>, size: nat, R: seq<Triplet>, done: nat)
    requires Run(G, src, s, size, R, done) && |R| > 0 && done < |R[|R| - 1].node.edges|
    requires var u := R[|R| - 1]; var e := u.node.edges[done];
      e.destination in Table(s) && Lt(Add(u.distance, e.cost), Table(s)[e.destination].distance)
    requires var u := R[|R| - 1]; var e := u.node.edges[done];
      Linked(t, size, R) && Table(t) == Relabel(Table(s), e.destination, Add(u.distance, e.cost), u.node)
    ensures Run(G, src, t, size, R, done + 1)
  {
    RelaxStep(G, src, Table(s), R, done);
  }

  /** One edge explored, whether it brought its destination closer or not: the run is one edge further. */
  lemma EdgeRun(G: seq<NodeValue>, src: string, s: seq<Triplet>, t: seq<Triplet>, size: nat, R: seq<Triplet>, done: nat, improved: bool)
    requires Run(G, src, s, size, R, done) && |R| > 0 && done < |R[|R| - 1].node.edges|
    requires var u := R[|R| - 1]; var e := u.node.edges[done];
      e.destination in TNames(s) && (improved <==> Lt(Add(u.distance, e.cost), At(s, e.destination).distance))
    requires Linked(t, size, R)
    requires var u := R[|R| - 1]; var e := u.node.edges[done];
      improved ==> Table(t) == Relabel(Table(s), e.destination, Add(u.distance, e.cost), u.node)
    requires !improved ==> t == s
    ensures Run(G, src, t, size, R, done + 1)
  {
    var e := R[|R| - 1].node.edges[done];
    assert e.destination in Table(s) && Table(s)[e.destination] == At(s, e.destination);
    if improved {
      RelaxRun(G, src, s, t, size, R, done);
    } else {
      SkipStep(G, src, Table(s), R, done);
    }
  }

  /** An edge of the last settled node that cannot bring its destination closer is relaxed as it stands. */
  lemma SkipStep(G: seq<NodeValue>, src: string, T: map<string, Triplet>, R: seq<Triplet>, done: nat)
    requires Progress(G, src, T, R, done) && |R| > 0 && done < |R[|R| - 1].node.edges|
    requires var u := R[|R| - 1]; var e := u.node.edges[done];
      e.destination in T && !Lt(Add(u.distance, e.cost), T[e.destination].distance)
    ensures Progress(G, src, T, R, done + 1)
  {
    SkipRelaxed(T, R, done);
  }

  lemma SkipRelaxed(T: map<string, Triplet>, R: seq<Triplet>, done: nat)
    requires RelaxedBefore(T, R, done) && |R| > 0 && done < |R[|R| - 1].node.edges|
    requires var u := R[|R| - 1]; var e := u.node.edges[done];
      e.destination in T && !Lt(Add(u.distance, e.cost), T[e.destination].distance)
    ensures RelaxedBefore(T, R, done + 1)
  {
  }

  /** What a decrease of an unsettled node's distance does to the array: an update of its triplet. */
  lemma LinkedDecrease(s: seq<Triplet>, t: seq<Triplet>, size: nat, R: seq<Triplet>, n: string, d: Dist)
    requires Linked(s, size, R) && n in TNames(s) && n !in TNames(R)
    requires multiset(t) == multiset(Decreased(s, n, d)) && |t| == |s|
    requires forall j :: size <= j < |s| ==> t[j] == s[j]
    ensures Linked(t, size, R) && n in TNames(t) && n in Table(s)
    ensures Table(t) == Table(s)[n := Table(s)[n].(distance := d)]
  {
    var s1 := Decreased(s, n, d);
    ReplacedTable(s, n, At(s, n).(distance := d));
    assert Table(s1) == Table(s)[n := At(s, n).(distance := d)];
    SameTable(s1, t);
    LinkedSameTail(s, t, size, R);
    assert n in Table(t);
  }

  /** An array with distinct names that agrees with a linked one past the heap is linked too. */
  lemma LinkedSameTail(s: seq<Triplet>, t: seq<Triplet>, size: nat, R: seq<Triplet>)
    requires Linked(s, size, R) && Distinct(TNames(t)) && |t| == |s|
    requires forall j :: size <= j < |s| ==> t[j] == s[j]
    ensures Linked(t, size, R)
  {
    forall i | 0 <= i < |R|
      ensures t[|t| - 1 - i] == R[i]
    {
      assert t[|t| - 1 - i] == s[|s| - 1 - i];
    }
  }

  /** What setting an unsettled node's predecessor does to the array: an update of its triplet. */
  lemma LinkedPrecede(s: seq<Triplet>, t: seq<Triplet>, size: nat, R: seq<Triplet>, n: string, p: NodeValue)
    requires Linked(s, size, R) && n in TNames(s) && n !in TNames(R)
    requires t == Preceded(s, n, p)
    ensures Linked(t, size, R) && n in Table(s)
    ensures Table(t) == Table(s)[n := Table(s)[n].(predecessor := Some(p))]
  {
    InHeap(s, size, R, n);
    ReplacedTable(s, n, At(s, n).(predecessor := Some(p)));
  }

  /** An edge of the last settled node to a name without a triplet leads out of the graph. */
  lemma LeavesGraph(G: seq<NodeValue>, src: string, s: seq<Triplet>, size: nat, R: seq<Triplet>, i: nat)
    requires Run(G, src, s, size, R, i) && |R| > 0 && i < |R[|R| - 1].node.edges|
    requires R[|R| - 1].node.edges[i].destination !in TNames(s)
    ensures !Closed(G)
  {
    var u := R[|R| - 1];
    assert u.node.name in Table(s);
    var k := FirstOf(NamesOf(G), u.node.name);
    assert u.node == G[k];
    assert G[k].edges[i].destination !in NamesOf(G);
  }

  // ---------------------------------------------------------------------
  // The end.

  /** With the heap empty, every name of the array is settled, as the array's own triplet. */
  lemma FinalNames(s: seq<Triplet>, R: seq<Triplet>)
    requires Linked(s, 0, R) && SettledIn(Table(s), R)
    ensures forall n :: n in TNames(s) ==> n in TNames(R) && At(R, n) == Table(s)[n]
  {
    forall n | n in TNames(s)
      ensures n in TNames(R) && At(R, n) == Table(s)[n]
    {
      var p := FirstOf(TNames(s), n);
      var i := |s| - 1 - p;
      assert s[p] == R[i] && R[i].node.name == n;
      assert Table(s)[n] == s[p];
      AtSettled(R, i);
    }
  }

  /** With the heap empty, the table of the array is the table of the settled list. */
  lemma FinalTable(s: seq<Triplet>, R: seq<Triplet>)
    requires Linked(s, 0, R) && SettledIn(Table(s), R)
    ensures Table(R) == Table(s)
    ensures forall n :: n in TNames(R) <==> n in TNames(s)
  {
    FinalNames(s, R);
    forall n | n in TNames(R)
      ensures n in TNames(s)
    {
      var i :| 0 <= i < |R| && TNames(R)[i] == n;
    }
    MapEq(Table(R), Table(s));
  }

  lemma MapEq(A: map<string, Triplet>, B: map<string, Triplet>)
    requires forall n :: n in A <==> n in B
    requires forall n :: n in A ==> A[n] == B[n]
    ensures A == B
  {
    assert A.Keys == B.Keys;
  }

  /** With every node settled, the settled list has the size of the graph. */
  lemma FinalSettles(G: seq<NodeValue>, R: seq<Triplet>, T: map<string, Triplet>)
    requires Tabled(G, T) && SettledIn(T, R)
    requires forall n :: n in TNames(R) <==> n in T
    ensures Settles(G, R)
  {
    assert (set x | x in TNames(R)) == (set x | x in NamesOf(G));
    SetOfSeqSize(TNames(R));
    SetOfSeqSize(NamesOf(G));
  }

  lemma FinalJustified(R: seq<Triplet>, T: map<string, Triplet>, src: string)
    requires SettledIn(T, R) && AllJustified(T, R, src)
    ensures Justified(R, src)
  {
    forall i | 0 <= i < |R|
      ensures JustifiedBefore(R, R[i], i, src)
    {
      AtSettled(R, i);
    }
  }

  /** A run that has settled every node has produced a `DijkstraOutcome`. */
  lemma FinalOutcome(G: seq<NodeValue>, src: string, s: seq<Triplet>, R: seq<Triplet>)
    requires Run(G, src, s, 0, R, Full(R))
    ensures DijkstraOutcome(G, src, R)
  {
    var T := Table(s);
    FinalTable(s, R);
    FinalSettles(G, R, T);
    FinalJustified(R, T, src);
  }

  // ---------------------------------------------------------------------
  // The algorithm.

  /** Taking out the root settles it: the run goes on with one more settled triplet and no edge explored yet. */
  lemma ExtractRun(G: seq<NodeValue>, src: string, s: seq<Triplet>, t: seq<Triplet>, size: nat, R: seq<Triplet>, x: Triplet)
    requires Run(G, src, s, size, R, Full(R)) && 0 < size && x == s[0]
    requires multiset(t) == multiset(s) && |t| == |s| && t[size - 1] == x
    requires forall j :: size <= j < |s| ==> t[j] == s[j]
    requires forall j :: 0 <= j < size - 1 ==> Le(x.distance, t[j].distance)
    ensures Run(G, src, t, size - 1, R + [x], 0)
  {
    LinkedExtractRoot(s, size, R);
    LinkedExtractShape(s, t, size, R, x);
    LinkedExtractNearest(t, size - 1, R, x);
    ExtractStep(G, src, Table(s), R, x);
  }

  /**
   * `remove_root` on the Dijkstra heap, stated on its contents: the root
   * moves to the end of the shrunk heap and is nearest of all that remain.
   */
  method TakeRoot(dbmh: DijkstraBinaryMinHeap) returns (x: Triplet)
    requires dbmh.Valid() && dbmh.heap.size > 0
    modifies dbmh.heap, dbmh.heap.A
    ensures dbmh.Valid() && dbmh.heap.size == old(dbmh.heap.size) - 1
    ensures x == old(dbmh.Contents())[0]
    ensures multiset(dbmh.Contents()) == multiset(old(dbmh.Contents())) && |dbmh.Contents()| == |old(dbmh.Contents())|
    ensures dbmh.Contents()[dbmh.heap.size] == x
    ensures forall j :: old(dbmh.heap.size) <= j < |dbmh.Contents()| ==> dbmh.Contents()[j] == old(dbmh.Contents())[j]
    ensures forall j :: 0 <= j < dbmh.heap.size ==> Le(x.distance, dbmh.Contents()[j].distance)
  {
    var current := dbmh.heap.RemoveRoot();
    x := current.value;
  }

  /** `remove_root` at the head of the main loop (line 25): the root becomes the next settled triplet. */
  method SettleRoot(dbmh: DijkstraBinaryMinHeap, ghost G: seq<NodeValue>, ghost src: string, ghost R: seq<Triplet>)
    returns (cur: Triplet)
    requires dbmh.Valid() && dbmh.heap.size > 0
    requires Run(G, src, dbmh.Contents(), dbmh.heap.size, R, Full(R))
    modifies dbmh.heap, dbmh.heap.A
    ensures dbmh.Valid() && dbmh.heap.size == old(dbmh.heap.size) - 1
    ensures Run(G, src, dbmh.Contents(), dbmh.heap.size, R + [cur], 0)
  {
    ghost var s := dbmh.Contents();
    ghost var size := dbmh.heap.size;
    cur := TakeRoot(dbmh);
    ExtractRun(G, src, s, dbmh.Contents(), size, R, cur);
  }

  /**
   * The loop over the edges of the node just settled (lines 30-35); it
   * stops at the first edge whose step fails.
   */
  method ExploreEdges(dbmh: DijkstraBinaryMinHeap, cur: Triplet, ghost G: seq<NodeValue>, ghost src: string, ghost R: seq<Triplet>)
    returns (r: Outcome<DijkstraHeapError>)
    requires dbmh.Valid() && |R| > 0 && R[|R| - 1] == cur
    requires Run(G, src, dbmh.Contents(), dbmh.heap.size, R, 0)
    modifies dbmh.heap.A
    ensures dbmh.Valid()
    ensures r.Fail? ==> r.error == NotStored && !Closed(G)
    ensures r.Pass? ==> Run(G, src, dbmh.Contents(), dbmh.heap.size, R, Full(R))
  {
    var i := 0;
    ghost var s := dbmh.Contents();
    ghost var size := dbmh.heap.size;
    while i < |cur.node.edges|
      invariant 0 <= i <= |cur.node.edges|
      invariant dbmh.Valid() && s == dbmh.Contents() && size == dbmh.heap.size
      invariant Run(G, src, s, size, R, i)
    {
      ghost var e := cur.node.edges[i];
      if e.destination in Table(s) && Lt(Add(cur.distance, e.cost), Table(s)[e.destination].distance) {
        RelaxUnsettled(G, src, Table(s), R, i);
      }
      var step, improved := ExploreEdge(dbmh, cur, i, R);
      if step.Fail? {
        LeavesGraph(G, src, s, size, R, i);
        return step;
      }
      EdgeRun(G, src, s, dbmh.Contents(), size, R, i, improved);
      s := dbmh.Contents();
      i := i + 1;
    }
    r := Pass;
  }

  /**
   * One pass of the loop of lines 30-35 for edge `i` of `cur`: an edge
   * that brings its destination closer lowers that distance and makes
   * `cur`'s node its predecessor (`improved`); any other edge changes
   * nothing. An edge to a name with no triplet makes
   * `get_distance_of_a_node` fail.
   */
  method ExploreEdge(dbmh: DijkstraBinaryMinHeap, cur: Triplet, i: nat, ghost R: seq<Triplet>)
    returns (r: Outcome<DijkstraHeapError>, ghost improved: bool)
    requires dbmh.Valid() && Linked(dbmh.Contents(), dbmh.heap.size, R) && i < |cur.node.edges|
    requires var e := cur.node.edges[i];
      e.destination in TNames(dbmh.Contents()) && Lt(Add(cur.distance, e.cost), At(dbmh.Contents(), e.destination).distance) ==>
        e.destination !in TNames(R)
    modifies dbmh.heap.A
    ensures dbmh.Valid() && Linked(dbmh.Contents(), dbmh.heap.size, R)
    ensures var e := cur.node.edges[i]; r.Fail? <==> e.destination !in TNames(old(dbmh.Contents()))
    ensures r.Fail? ==> r.error == NotStored && dbmh.Contents() == old(dbmh.Contents())
    ensures var e := cur.node.edges[i]; r.Pass? ==>
      (improved <==> Lt(Add(cur.distance, e.cost), old(At(dbmh.Contents(), e.destination)).distance))
    ensures var e := cur.node.edges[i]; r.Pass? && improved ==>
      e.destination in old(Table(dbmh.Contents())) &&
      Table(dbmh.Contents()) == Relabel(old(Table(dbmh.Contents())), e.destination, Add(cur.distance, e.cost), cur.node)
    ensures r.Pass? && !improved ==> dbmh.Contents() == old(dbmh.Contents())
  {
    var e := cur.node.edges[i];
    var newPathCost := Add(cur.distance, e.cost);
    var known := dbmh.GetDistanceOfANode(e.destination);
    if known.Failure? {
      return Fail(known.error), false;
    }
    var better := Lt(newPathCost, known.value);
    improved := better;
    if better {
      Improve(dbmh, e.destination, newPathCost, cur.node, R);
    }
    r := Pass;
  }

  /**
   * Lines 34-35: the distance of the unsettled `n` lowered to `d`, then
   * `p` made its predecessor; neither call can fail on a triplet in the heap.
   */
  method Improve(dbmh: DijkstraBinaryMinHeap, n: string, d: Dist, p: NodeValue, ghost R: seq<Triplet>)
    requires dbmh.Valid() && Linked(dbmh.Contents(), dbmh.heap.size, R)
    requires n in TNames(dbmh.Contents()) && n !in TNames(R) && !Lt(At(dbmh.Contents(), n).distance, d)
    modifies dbmh.heap.A
    ensures dbmh.Valid() && Linked(dbmh.Contents(), dbmh.heap.size, R)
    ensures n in old(Table(dbmh.Contents())) && Table(dbmh.Contents()) == Relabel(old(Table(dbmh.Contents())), n, d, p)
  {
    ghost var s := dbmh.Contents();
    ghost var size := dbmh.heap.size;
    InHeap(s, size, R, n);
    var lowered := dbmh.DecreaseDistance(n, d);
    assert lowered.Pass?;
    ghost var s2 := dbmh.Contents();
    LinkedDecrease(s, s2, size, R, n, d);
    var preceded := dbmh.SetPredecessorOfANode(n, p);
    assert preceded.Pass?;
    LinkedPrecede(s2, dbmh.Contents(), size, R, n, p);
    RelabelInTwo(Table(s), n, d, p);
  }

  /** Updating the distance, then the predecessor, of one triplet relabels it. */
  lemma RelabelInTwo(T: map<string, Triplet>, n: string, d: Dist, p: NodeValue)
    requires n in T
    ensures var T2 := T[n := T[n].(distance := d)];
      T2[n := T2[n].(predecessor := Some(p))] == Relabel(T, n, d, p)
  {
  }

  /** The all-`inf` distances and all-`None` predecessors of lines 17-18, as zipped with the nodes. */
  ghost function Unreached(G: seq<NodeValue>): seq<Triplet> {
    Zip(G, seq(|G|, _ => Inf), seq(|G|, _ => None))
  }

  /** The heap after `decrease_distance(source, 0)` starts the run: nothing settled, the source at 0. */
  lemma InitialRun(G: seq<NodeValue>, src: string, s0: seq<Triplet>, s1: seq<Triplet>)
    requires Distinct(NamesOf(G)) && multiset(s0) == multiset(Unreached(G)) && src in TNames(s0)
    requires multiset(s1) == multiset(Decreased(s0, src, Fin(0.0))) && |s1| == |s0|
    ensures Run(G, src, s1, |G|, [], 0)
  {
    InitialTable(G, s0);
    assert src in Table(s0);
    LinkedDecrease(s0, s1, |G|, [], src, Fin(0.0));
    InitialProgress(G, src, Table(s1));
  }

  /**
   * Lines 17-22: the heap of every node at `inf` with no predecessor, then
   * the source lowered to 0, which fails exactly when no node has the
   * source's name.
   */
  method StartHeap(nodes: seq<NodeValue>, src: string) returns (dbmh: DijkstraBinaryMinHeap, r: Outcome<DijkstraHeapError>)
    requires Distinct(NamesOf(nodes))
    ensures r.Fail? <==> src !in NamesOf(nodes)
    ensures r.Fail? ==> r.error == NotStored
    ensures fresh(dbmh) && fresh(dbmh.heap) && fresh(dbmh.heap.A)
    ensures r.Pass? ==> dbmh.Valid() && Run(nodes, src, dbmh.Contents(), dbmh.heap.size, [], 0)
  {
    var distances := seq(|nodes|, _ => Inf);
    var predecessors: seq<Option<NodeValue>> := seq(|nodes|, _ => None);
    var built := NewDijkstraBinaryMinHeap(nodes, distances, predecessors);
    assert built.Success?;
    dbmh := built.value;
    ghost var s0 := dbmh.Contents();
    InitialTable(nodes, s0);
    assert src in NamesOf(nodes) <==> src in TNames(s0) by {
      assert src in NamesOf(nodes) <==> src in Table(s0);
    }
    r := dbmh.DecreaseDistance(src, Fin(0.0));
    if r.Pass? {
      InitialRun(nodes, src, s0, dbmh.Contents());
    }
  }

  /** Lines 23-35 on the nodes' values: the heap is emptied one settled triplet at a time. */
  method SettleAll(nodes: seq<NodeValue>, src: string) returns (r: Result<seq<Triplet>, DijkstraHeapError>)
    requires Distinct(NamesOf(nodes))
    ensures r.Failure? <==> src !in NamesOf(nodes) || !Closed(nodes)
    ensures r.Failure? ==> r.error == NotStored
    ensures r.Success? ==> DijkstraOutcome(nodes, src, r.value)
  {
    var dbmh, start := StartHeap(nodes, src);
    if start.Fail? {
      return Failure(start.error);
    }
    var result := [];
    while dbmh.heap.size > 0
      invariant dbmh.Valid()
      invariant Run(nodes, src, dbmh.Contents(), dbmh.heap.size, result, Full(result))
      decreases dbmh.heap.size
    {
      var cur := SettleRoot(dbmh, nodes, src, result);
      result := result + [cur];
      var explored := ExploreEdges(dbmh, cur, nodes, src, result);
      if explored.Fail? {
        return Failure(explored.error);
      }
    }
    FinalOutcome(nodes, src, dbmh.Contents(), result);
    OutcomeClosed(nodes, result);
    r := Success(result);
  }

  /**
   * `binary_heap_dijkstra` (lines 16-36) on the values of `G`'s nodes: it
   * fails exactly when no node has the source's name or an edge leaves
   * `G`, and otherwise settles every node at its shortest distance.
   */
  method BinaryHeapDijkstra(G: Graph, source: Node) returns (r: Result<seq<Triplet>, DijkstraHeapError>)
    requires G.Valid()
    ensures r.Failure? <==> source.name !in G.Names() || !Closed(G.Values())
    ensures r.Failure? ==> r.error == NotStored
    ensures r.Success? ==> DijkstraOutcome(G.Values(), source.name, r.value)
  {
    var nodes := seq(|G.nodes|, k requires 0 <= k < |G.nodes| reads G, set k | 0 <= k < |G.nodes| :: G.nodes[k] => G.nodes[k].Value());
    assert nodes == G.Values();
    r := SettleAll(nodes, source.name);
  }
}
