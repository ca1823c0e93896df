/**
 * `bidirectional_dijkstra` with the continuation bound it evidently
 * intends (code/Dijkstra.py:148-192): once the alternating loop has found a
 * node settled by both directions, each direction goes on up to the cost of
 * the walk through that node. Every walk from the source to the target is
 * then matched by a node both directions settle, whose two distances add up
 * to no more than the walk, so the joined path is a shortest walk.
 */
module Meeting {
  import opened Wrappers
  import opened Distance
  import opened Seqs
  import opened Nodes
  import opened Reversal
  import opened DijkstraHeaps
  import opened ShortestPaths
  import opened Walks
  import opened Searches
  import opened Frontiers
  import opened Continuation
  import opened Trails
  import opened Bidirectional
  import opened Paths
  import opened Graphs
  import opened Answers

  // ---------------------------------------------------------------------
  // A direction settled up to a bound.

  /**
   * The settled list of a direction that has left nothing within `r`: the
   * start at distance 0, nodes of `G`, and every edge of a settled node that
   * ends within `r` relaxed onto a settled node.
   */
  ghost predicate Covered(G: seq<NodeValue>, s: string, R: seq<Triplet>, r: real) {
    && s in TNames(R) && At(R, s).distance == Fin(0.0)
    && (forall i :: 0 <= i < |R| ==> R[i].node.name in NamesOf(G) && R[i].node == NodeNamed(G, R[i].node.name))
    && forall i, j :: 0 <= i < |R| && 0 <= j < |R[i].node.edges| && Le(Add(R[i].distance, R[i].node.edges[j].cost), Fin(r)) ==>
         SettledEdge(G, R, R[i], R[i].node.edges[j])
  }

  /** A direction whose keys are all beyond `r` has covered everything within `r`. */
  lemma CoveredSearch(G: seq<NodeValue>, s: string, S: Search, r: real)
    requires Searching(G, s, S) && Frontier(G, S) && |S.result| > 0 && AllBeyond(S.dist, Fin(r))
    ensures Covered(G, s, S.result, r)
  {
    var R := S.result;
    SettledFirst(G, s, R);
    var z := SettledAt(G, s, R, s);
    forall i, j | 0 <= i < |R| && 0 <= j < |R[i].node.edges| && Le(Add(R[i].distance, R[i].node.edges[j].cost), Fin(r))
      ensures SettledEdge(G, R, R[i], R[i].node.edges[j])
    {
      var e := R[i].node.edges[j];
      assert EdgeRelaxed(G, S, R[i], e);
      if e.destination in NamesOf(G) && e.destination !in TNames(R) && e.destination in Keys(S.dist) {
        var q := FirstOf(Keys(S.dist), e.destination);
        assert Lt(Fin(r), S.dist[q].distance);
        LeFacts();
        assert false;
      }
    }
  }

  /** A walk within the bound, less its last step, is within it too. */
  lemma PrefixWithin(w: Dist, c: real, wc: Dist, r: real)
    requires w.Fin? && c >= 0.0 && wc == Plus(w, Fin(c)) && Le(wc, Fin(r))
    ensures Le(w, Fin(r))
  {
  }

  /** The last step of a walk within the bound, from a node settled no further than the rest of the walk, ends within it. */
  lemma StepWithin(da: Dist, w: Dist, c: real, wc: Dist, r: real)
    requires Le(da, w) && w.Fin? && wc == Plus(w, Fin(c)) && Le(wc, Fin(r))
    ensures Le(Add(da, c), Fin(r))
  {
  }

  /** The step of `CoveredWalk` over a cheapest edge from the settled `a`, which ends within the bound. */
  lemma CoveredStep(G: seq<NodeValue>, s: string, R: seq<Triplet>, r: real, a: string, x: string, c: real)
    requires Covered(G, s, R, r) && a in TNames(R) && x in NamesOf(G) && StepCost(G, a, x) == Fin(c)
    requires Le(Add(At(R, a).distance, c), Fin(r))
    ensures x in TNames(R) && Le(At(R, x).distance, Add(At(R, a).distance, c))
  {
    var i := FirstOf(TNames(R), a);
    var y := R[i];
    assert y.node == NodeNamed(G, a);
    var j :| 0 <= j < |y.node.edges| && y.node.edges[j].destination == x && y.node.edges[j].cost == c;
    assert SettledEdge(G, R, y, y.node.edges[j]);
  }

  /**
   * A walk from the start to a node of `G` that costs no more than `r` ends
   * at a settled node of a direction covered up to `r`, no further than the
   * walk costs.
   */
  lemma {:induction false} CoveredWalk(G: seq<NodeValue>, s: string, R: seq<Triplet>, r: real, w: seq<string>)
    requires Covered(G, s, R, r)
    requires |w| > 0 && w[0] == s && w[|w| - 1] in NamesOf(G) && WalkCost(G, w).Fin? && Le(WalkCost(G, w), Fin(r))
    ensures w[|w| - 1] in TNames(R) && Le(At(R, w[|w| - 1]).distance, WalkCost(G, w))
    decreases |w|
  {
    if |w| == 1 {
      LeFacts();
    } else {
      var w' := w[..|w| - 1];
      var a := w[|w| - 2];
      var x := w[|w| - 1];
      var c := StepCost(G, a, x);
      assert WalkCost(G, w) == Plus(WalkCost(G, w'), c);
      assert a in NamesOf(G);
      MinCostNonNegative(NodeNamed(G, a).edges, x);
      PrefixWithin(WalkCost(G, w'), c.r, WalkCost(G, w), r);
      CoveredWalk(G, s, R, r, w');
      StepWithin(At(R, a).distance, WalkCost(G, w'), c.r, WalkCost(G, w), r);
      CoveredStep(G, s, R, r, a, x, c.r);
      ExhaustedArith(At(R, x).distance, At(R, a).distance, c.r, WalkCost(G, w'));
    }
  }

  // ---------------------------------------------------------------------
  // The bound: the walk through the first node settled by both.

  /**
   * The forward plus the backward distance of the first name, from the
   * `i`th forward triplet on, that the backward direction settled too;
   * `Inf` when there is none.
   */
  function MeetFrom(F: seq<Triplet>, B: seq<Triplet>, i: nat): Dist
    requires i <= |F|
    decreases |F| - i
  {
    if i == |F| then Inf
    else if F[i].node.name in TNames(B) then Plus(F[i].distance, B[FirstOf(TNames(B), F[i].node.name)].distance)
    else MeetFrom(F, B, i + 1)
  }

  /** The cost of the walk through the first name the forward direction settled that the backward one settled too. */
  function MeetSum(F: seq<Triplet>, B: seq<Triplet>): Dist {
    MeetFrom(F, B, 0)
  }

  /** A finite bound is the sum of the two distances of a name both directions settled. */
  lemma {:induction false} MeetFromWitness(F: seq<Triplet>, B: seq<Triplet>, i: nat) returns (n: string)
    requires Distinct(TNames(F)) && i <= |F| && MeetFrom(F, B, i).Fin?
    ensures n in TNames(F) && n in TNames(B) && MeetFrom(F, B, i) == Plus(At(F, n).distance, At(B, n).distance)
    decreases |F| - i
  {
    if F[i].node.name in TNames(B) {
      n := F[i].node.name;
      assert TNames(F)[i] == n;
      DistinctFirstOf(TNames(F), i);
    } else {
      n := MeetFromWitness(F, B, i + 1);
    }
  }

  /** With finite distances, a name settled by both from the `i`th forward triplet on makes the bound finite. */
  lemma {:induction false} MeetFromFinite(F: seq<Triplet>, B: seq<Triplet>, i: nat, k: nat)
    requires i <= k < |F| && F[k].node.name in TNames(B)
    requires forall q :: 0 <= q < |F| ==> F[q].distance.Fin?
    requires forall q :: 0 <= q < |B| ==> B[q].distance.Fin?
    ensures MeetFrom(F, B, i).Fin?
    decreases k - i
  {
    if F[i].node.name !in TNames(B) {
      MeetFromFinite(F, B, i + 1, k);
    }
  }

  /** With finite distances, the bound is `Inf` exactly when no name is settled by both. */
  lemma MeetSumInf(F: seq<Triplet>, B: seq<Triplet>)
    requires forall q :: 0 <= q < |F| ==> F[q].distance.Fin?
    requires forall q :: 0 <= q < |B| ==> B[q].distance.Fin?
    ensures MeetSum(F, B).Inf? <==> !Met(F, B)
  {
    if Met(F, B) {
      var n :| n in TNames(F) && n in TNames(B);
      var k := FirstOf(TNames(F), n);
      MeetFromFinite(F, B, 0, k);
    } else if MeetSum(F, B).Fin? {
      var k := MeetFromIndex(F, B, 0);
      assert false;
    }
  }

  /** A finite bound comes from a forward triplet whose name the backward direction settled. */
  lemma {:induction false} MeetFromIndex(F: seq<Triplet>, B: seq<Triplet>, i: nat) returns (k: nat)
    requires i <= |F| && MeetFrom(F, B, i).Fin?
    ensures i <= k < |F| && F[k].node.name in TNames(B) && TNames(F)[k] == F[k].node.name
    decreases |F| - i
  {
    if F[i].node.name in TNames(B) {
      k := i;
    } else {
      k := MeetFromIndex(F, B, i + 1);
    }
  }

  /** A settled list that grows keeps the triplet of each name it had settled. */
  lemma AtPrefix(R: seq<Triplet>, R': seq<Triplet>, n: string)
    requires |R| <= |R'| && R'[..|R|] == R && n in TNames(R)
    ensures n in TNames(R') && At(R', n) == At(R, n)
  {
    var k := FirstOf(TNames(R), n);
    assert TNames(R')[k] == n;
    assert forall i :: 0 <= i < k ==> TNames(R')[i] == TNames(R)[i];
  }

  // ---------------------------------------------------------------------
  // Every walk matched by a meeting node.

  /**
   * Every walk of finite cost from `s` to `t` is matched by a name both
   * directions settled, whose two distances add up to no more than the walk.
   */
  ghost predicate Matched(G: seq<NodeValue>, s: string, t: string, F: seq<Triplet>, B: seq<Triplet>) {
    forall w {:trigger WalkCost(G, w)} :: |w| > 0 && w[0] == s && w[|w| - 1] == t && WalkCost(G, w).Fin? ==>
      exists n :: n in TNames(F) && n in TNames(B) && Le(Plus(At(F, n).distance, At(B, n).distance), WalkCost(G, w))
  }

  /** Without a walk from `s` to `t` there is nothing to match. */
  lemma Unmatched(G: seq<NodeValue>, s: string, t: string, F: seq<Triplet>, B: seq<Triplet>)
    requires !Reaches(G, s, t)
    ensures Matched(G, s, t, F, B)
  {
  }


  /** A walk beyond the bound `mu` costs more than a sum equal to `mu`. */
  lemma BeyondBound(d: Dist, mu: real, wc: Dist)
    requires d == Fin(mu) && !Le(wc, Fin(mu))
    ensures Le(d, wc)
  {
  }

  /**
   * Both directions continued up to the bound `mu`, the cost of the walk
   * through a node the alternating loop left settled by both: a walk within
   * `mu` ends at the target, which the forward direction then settled no
   * further than the walk and the backward one at 0; a walk beyond `mu`
   * costs more than the walk through that node.
   */
  lemma MeetingMatched(G: seq<NodeValue>, RG: seq<NodeValue>, s: string, t: string, X: Sides, F: Search, B: Search, mu: real)
    requires Distinct(NamesOf(G)) && RG == Reverse(G) && BothSearching(G, RG, s, t, X)
    requires Searching(G, s, F) && Frontier(G, F) && AllBeyond(F.dist, Fin(mu)) && Searching(RG, t, B)
    requires |X.forward.result| <= |F.result| && F.result[..|X.forward.result|] == X.forward.result
    requires |X.backward.result| <= |B.result| && B.result[..|X.backward.result|] == X.backward.result
    requires MeetSum(X.forward.result, X.backward.result) == Fin(mu)
    ensures Matched(G, s, t, F.result, B.result)
  {
    var n0 := MeetFromWitness(X.forward.result, X.backward.result, 0);
    AtPrefix(X.forward.result, F.result, n0);
    AtPrefix(X.backward.result, B.result, n0);
    assert F.result[0] == X.forward.result[0] && B.result[0] == X.backward.result[0];
    CoveredSearch(G, s, F, mu);
    SettledFirst(RG, t, B.result);
    var z := SettledAt(RG, t, B.result, t);
    forall w {:trigger WalkCost(G, w)} | |w| > 0 && w[0] == s && w[|w| - 1] == t && WalkCost(G, w).Fin?
      ensures exists n :: n in TNames(F.result) && n in TNames(B.result) && Le(Plus(At(F.result, n).distance, At(B.result, n).distance), WalkCost(G, w))
    {
      if Le(WalkCost(G, w), Fin(mu)) {
        CoveredWalk(G, s, F.result, mu, w);
        var i := SettledAt(G, s, F.result, t);
        PlusZero(At(F.result, t).distance, WalkCost(G, w));
      } else {
        BeyondBound(Plus(At(F.result, n0).distance, At(B.result, n0).distance), mu, WalkCost(G, w));
      }
    }
  }

  /** A route through the best meeting node of matched directions is a shortest walk: it costs no more than any walk from `s` to `t`. */
  lemma RouteShortest(G: seq<NodeValue>, s: string, t: string, F: seq<Triplet>, B: seq<Triplet>, m: string, p: Path, w: seq<string>)
    requires Route(G, s, t, F, B, m, p) && Matched(G, s, t, F, B)
    requires |w| > 0 && w[0] == s && w[|w| - 1] == t && WalkCost(G, w).Fin?
    ensures Le(WalkCost(G, NamesOf(p.nodes)), WalkCost(G, w))
  {
    var n :| n in TNames(F) && n in TNames(B) && Le(Plus(At(F, n).distance, At(B, n).distance), WalkCost(G, w));
    LeTrans(WalkCost(G, NamesOf(p.nodes)), Plus(At(F, n).distance, At(B, n).distance), WalkCost(G, w));
  }

  // ---------------------------------------------------------------------
  // The corrected search.

  /**
   * Both directions as the corrected search leaves them: the alternating
   * loop, then, when it left a name settled by both, each direction
   * continued up to the cost of the walk through the first such name.
   */
  function MeetingDirections(G: seq<NodeValue>, RG: seq<NodeValue>, source: NodeValue, target: NodeValue): Result<Sides, SearchError>
    requires Distinct(NamesOf(G)) && Distinct(NamesOf(RG))
  {
    match Turns(G, RG, source, target)
    case Failure(e) => Failure(e)
    case Success(X) =>
      match MeetSum(X.forward.result, X.backward.result)
      case Inf => Success(X)
      case Fin(mu) =>
        match Continued(X.forward, mu)
        case Failure(e) => Failure(e)
        case Success(F) =>
          match Continued(X.backward, mu)
          case Failure(e) => Failure(e)
          case Success(B) => Success(Sides(F, B))
  }

  /** Both directions keep their invariant, meet when the target is reachable, and match every walk from `s` to `t`. */
  ghost predicate Settling(G: seq<NodeValue>, RG: seq<NodeValue>, s: string, t: string, X: Sides) {
    && BothSearching(G, RG, s, t, X)
    && (Reaches(G, s, t) ==> Met(X.forward.result, X.backward.result))
    && Matched(G, s, t, X.forward.result, X.backward.result)
  }

  /**
   * The searches of the corrected `bidirectional_dijkstra`: they fail as the
   * original does, keep their invariant, meet when the target is reachable,
   * and match every walk from the source to the target.
   */
  method SearchMeeting(G: seq<NodeValue>, RG: seq<NodeValue>, source: NodeValue, target: NodeValue) returns (r: Result<Sides, SearchError>)
    requires Distinct(NamesOf(G)) && RG == Reverse(G)
    ensures r.Failure? <==> source.name !in NamesOf(G) || target.name !in NamesOf(G) || |G| < 2
    ensures r.Failure? ==> r.error == if source.name !in NamesOf(G) || (target.name !in NamesOf(G) && |G| >= 2) then MissingKey else NoResult
    ensures r.Success? ==> Settling(G, RG, source.name, target.name, r.value)
    ensures r == MeetingDirections(G, RG, source, target)
  {
    r := SearchTurns(G, RG, source, target);
    if r.Success? {
      var X := r.value;
      var mu := MeetSum(X.forward.result, X.backward.result);
      MeetSumInf(X.forward.result, X.backward.result);
      if mu.Inf? {
        Unmatched(G, source.name, target.name, X.forward.result, X.backward.result);
      } else {
        var F := ContinueSearch(G, source.name, X.forward, mu.r);
        var B := ContinueSearch(RG, target.name, X.backward, mu.r);
        MetGrows(X.forward.result, X.backward.result, F.result, B.result);
        MeetingMatched(G, RG, source.name, target.name, X, F, B, mu.r);
        r := Success(Sides(F, B));
      }
    }
  }

  /** The nodes named `v` make a walk from `s` to `t` that costs no more than any other. */
  ghost predicate ShortestWalk(G: seq<NodeValue>, s: string, t: string, v: seq<string>) {
    && |v| > 0
    && forall w {:trigger WalkCost(G, w)} :: |w| > 0 && w[0] == s && w[|w| - 1] == t && WalkCost(G, w).Fin? ==> Le(WalkCost(G, v), WalkCost(G, w))
  }

  /** The end of the corrected search: the meeting node and the joined path, now a shortest walk. */
  method JoinMeeting(graph: Graph, ghost G: seq<NodeValue>, ghost RG: seq<NodeValue>, X: Sides, source: NodeValue, target: NodeValue)
    returns (a: Answer, ghost m: string)
    requires graph.Valid() && graph.Values() == G && Distinct(NamesOf(G)) && RG == Reverse(G)
    requires BothSearching(G, RG, source.name, target.name, X)
    requires Reaches(G, source.name, target.name) ==> Met(X.forward.result, X.backward.result)
    requires Matched(G, source.name, target.name, X.forward.result, X.backward.result)
    ensures Found(G, source.name, target.name, a, m)
    ensures a.path.None? <==> !Reaches(G, source.name, target.name)
    ensures a.path.Some? ==> fresh(a.path.value) && ShortestWalk(G, source.name, target.name, NamesOf(a.path.value.nodes))
  {
    a, m := Conclude(graph, G, X.forward.result, X.backward.result, source, target);
    FoundReaches(G, source.name, target.name, a, m);
    if a.path.Some? {
      var p := a.path.value;
      forall w {:trigger WalkCost(G, w)} | |w| > 0 && w[0] == source.name && w[|w| - 1] == target.name && WalkCost(G, w).Fin?
        ensures Le(WalkCost(G, NamesOf(p.nodes)), WalkCost(G, w))
      {
        RouteShortest(G, source.name, target.name, X.forward.result, X.backward.result, m, p, w);
      }
    }
  }

  /**
   * `bidirectional_dijkstra` with the corrected continuation bound: it fails
   * exactly as the original does, and otherwise returns a path exactly when
   * the target is reachable, which is then a shortest walk from the source
   * to the target.
   */
  method MeetingDijkstra(graph: Graph, source: NodeValue, target: NodeValue) returns (r: Result<Answer, SearchError>, ghost m: string)
    requires graph.Valid()
    ensures r.Failure? <==> !Closed(old(graph.Values())) || source.name !in graph.Names() || target.name !in graph.Names() || |graph.nodes| < 2
    ensures r.Success? ==> Found(old(graph.Values()), source.name, target.name, r.value, m)
    ensures r.Success? ==> (r.value.path.None? <==> !Reaches(old(graph.Values()), source.name, target.name))
    ensures r.Success? && r.value.path.Some? ==> ShortestWalk(old(graph.Values()), source.name, target.name, NamesOf(r.value.path.value.nodes))
  {
    m := "";
    ghost var G := graph.Values();
    var nodes := graph.GetNodes();
    var reversed := ReversedNodes(graph, G);
    if reversed.Failure? {
      return Failure(Unreversible), m;
    }
    r, m := MeetOnNodes(graph, nodes, reversed.value, source, target);
  }

  /** The corrected searches on the nodes of the graph and of its reverse, then the path through the best meeting node. */
  method MeetOnNodes(graph: Graph, nodes: seq<NodeValue>, reversedNodes: seq<NodeValue>, source: NodeValue, target: NodeValue)
    returns (r: Result<Answer, SearchError>, ghost m: string)
    requires graph.Valid() && graph.Values() == nodes && reversedNodes == Reverse(nodes)
    ensures r.Failure? <==> source.name !in NamesOf(nodes) || target.name !in NamesOf(nodes) || |nodes| < 2
    ensures r.Success? ==> Found(nodes, source.name, target.name, r.value, m)
    ensures r.Success? ==> (r.value.path.None? <==> !Reaches(nodes, source.name, target.name))
    ensures r.Success? && r.value.path.Some? ==> ShortestWalk(nodes, source.name, target.name, NamesOf(r.value.path.value.nodes))
  {
    var sides := MeetingSides(graph, nodes, reversedNodes, source, target);
    r, m := MeetOrFail(graph, nodes, reversedNodes, sides, source, target);
  }

  /** The corrected searches on the nodes of the graph and of its reverse: they fail on a missing end or a graph of fewer than two nodes, and otherwise settle. */
  method MeetingSides(ghost graph: Graph, nodes: seq<NodeValue>, reversedNodes: seq<NodeValue>, source: NodeValue, target: NodeValue)
    returns (sides: Result<Sides, SearchError>)
    requires graph.Valid() && graph.Values() == nodes && reversedNodes == Reverse(nodes)
    ensures Distinct(NamesOf(nodes))
    ensures sides.Failure? <==> source.name !in NamesOf(nodes) || target.name !in NamesOf(nodes) || |nodes| < 2
    ensures sides.Success? ==> Settling(nodes, reversedNodes, source.name, target.name, sides.value)
  {
    sides := SearchMeeting(nodes, reversedNodes, source, target);
  }

  /** The failure of the corrected searches `sides`, passed on, or the path through the best meeting node once they have settled. */
  method MeetOrFail(graph: Graph, ghost G: seq<NodeValue>, ghost RG: seq<NodeValue>, sides: Result<Sides, SearchError>, source: NodeValue, target: NodeValue)
    returns (r: Result<Answer, SearchError>, ghost m: string)
    requires graph.Valid() && graph.Values() == G && Distinct(NamesOf(G)) && RG == Reverse(G)
    requires sides.Success? ==> Settling(G, RG, source.name, target.name, sides.value)
    ensures r.Failure? <==> sides.Failure?
    ensures r.Success? ==> Found(G, source.name, target.name, r.value, m)
    ensures r.Success? ==> (r.value.path.None? <==> !Reaches(G, source.name, target.name))
    ensures r.Success? && r.value.path.Some? ==> ShortestWalk(G, source.name, target.name, NamesOf(r.value.path.value.nodes))
  {
    m := "";
    if sides.Failure? {
      return Failure(sides.error), m;
    }
    var answer;
    answer, m := JoinMeeting(graph, G, RG, sides.value, source, target);
    r := Success(answer);
  }
}
