/**
 * `bidirectional_dijkstra` (code/Dijkstra.py:75-260): a search from the
 * source through the graph and one from the target through the reversed
 * graph, taken in turns until a node settled by one is no longer waiting in
 * the other, each then continued up to a distance bound, and the path
 * through the common settled node whose two distances add up least.
 */
module Bidirectional {
  import opened Wrappers
  import opened Distance
  import opened Seqs
  import opened Nodes
  import opened Reversal
  import opened Graphs
  import opened Paths
  import opened DijkstraHeaps
  import opened ShortestPaths
  import opened Searches
  import opened Walks
  import opened Trails
  import opened Answers
  import opened Continuation
  import opened Frontiers

  /** Both directions: from the source through the graph, from the target through the reversed graph. */
  datatype Sides = Sides(forward: Search, backward: Search)

  // ---------------------------------------------------------------------
  // The alternating loop (code/Dijkstra.py:108-146).

  /**
   * What the alternating loop leaves: the forward direction has settled at
   * least the source; with two nodes or more the backward one has settled
   * at least the target, and with fewer nothing; and the loop stopped
   * because a dictionary ran empty, the nearest key of one was unreached,
   * or a node was settled by both. Both directions keep every edge of a
   * settled node relaxed.
   */
  ghost predicate Alternated(G: seq<NodeValue>, RG: seq<NodeValue>, s: string, t: string, X: Sides) {
    var F := X.forward;
    var B := X.backward;
    && Searching(G, s, F) && |F.result| > 0
    && (|G| >= 2 ==> t in NamesOf(G) && Searching(RG, t, B) && |B.result| > 0)
    && (|G| < 2 ==> |B.result| == 0)
    && Frontier(G, F) && Frontier(RG, B)
    && (|F.dist| == 0 || |B.dist| == 0 || AllUnreached(F.dist) || AllUnreached(B.dist) || Met(F.result, B.result))
  }

  /** One turn of one direction: its nearest key was unreached, or it settled the node named `name`. */
  datatype Turn = Unreached | Settled(search: Search, name: string)

  /**
   * One turn of one direction (code/Dijkstra.py:114-123 forward, 132-141
   * backward): the nearest key, unreached, or explored, or the KeyError of
   * a key without a predecessor entry.
   */
  function TurnOf(S: Search): (r: Result<Turn, SearchError>)
    requires |S.dist| > 0 && Distinct(Keys(S.dist))
    ensures r.Success? && r.value.Settled? ==> var T := r.value.search;
      && |T.dist| == |S.dist| - 1 && Distinct(Keys(T.dist)) && r.value.name !in Keys(T.dist)
      && (FiniteResult(S) ==> FiniteResult(T))
  {
    var k := NearestAmong(S.dist, |S.dist|);
    var u := S.dist[k].node;
    assert Keys(S.dist)[k] == u.name;
    DistinctFirstOf(Keys(S.dist), k);
    if S.dist[k].distance.Inf? then Success(Unreached)
    else
      match Explored(S, u)
      case Failure(e) => Failure(e)
      case Success(T) => ExploredKeys(S, u); Success(Settled(T, u.name))
  }

  /** Both dictionaries hold each name at most once. */
  ghost predicate Keyed(X: Sides) {
    Distinct(Keys(X.forward.dist)) && Distinct(Keys(X.backward.dist))
  }

  /** What one pass of the alternating loop does: it goes on with new directions, or the loop is done with a result. */
  datatype Next = Continue(sides: Sides) | Done(result: Result<Sides, SearchError>)

  /**
   * The pass numbered `count` of the `while` loop of
   * code/Dijkstra.py:108-146: the forward direction takes the even turns,
   * the backward one the odd turns; the loop is done when a dictionary is
   * empty, when the nearest key is unreached, or when the node just settled
   * is no longer a key of the other direction.
   */
  function NextTurn(X: Sides, count: nat): (n: Next)
    requires Keyed(X)
    ensures n.Continue? ==> Keyed(n.sides) && |n.sides.forward.dist| + |n.sides.backward.dist| < |X.forward.dist| + |X.backward.dist|
    ensures n.Continue? && FiniteResult(X.forward) && FiniteResult(X.backward) ==> FiniteResult(n.sides.forward) && FiniteResult(n.sides.backward)
    ensures n.Done? && n.result.Success? ==> Keyed(n.result.value)
    ensures n.Done? && n.result.Success? && FiniteResult(X.forward) && FiniteResult(X.backward) ==> FiniteResult(n.result.value.forward) && FiniteResult(n.result.value.backward)
  {
    var F := X.forward;
    var B := X.backward;
    if |F.dist| == 0 || |B.dist| == 0 then Done(Success(X))
    else if count % 2 == 0 then
      match TurnOf(F)
      case Failure(e) => Done(Failure(e))
      case Success(Unreached) => Done(Success(X))
      case Success(Settled(T, n)) => if n in Keys(B.dist) then Continue(Sides(T, B)) else Done(Success(Sides(T, B)))
    else
      match TurnOf(B)
      case Failure(e) => Done(Failure(e))
      case Success(Unreached) => Done(Success(X))
      case Success(Settled(T, n)) => if n in Keys(F.dist) then Continue(Sides(F, T)) else Done(Success(Sides(F, T)))
  }

  /** What the alternating loop leaves when it starts at the pass numbered `count` with the directions `X`. */
  function Alternation(X: Sides, count: nat): (r: Result<Sides, SearchError>)
    requires Keyed(X)
    ensures r.Success? ==> Keyed(r.value)
    ensures r.Success? && FiniteResult(X.forward) && FiniteResult(X.backward) ==> FiniteResult(r.value.forward) && FiniteResult(r.value.backward)
    decreases |X.forward.dist| + |X.backward.dist|
  {
    match NextTurn(X, count)
    case Done(r) => r
    case Continue(Y) => Alternation(Y, count + 1)
  }

  /** The directions before each of the passes numbered 0 to `count` of the alternating loop, each pass going on to the next. */
  ghost predicate TraceTo(trace: seq<Sides>, count: nat) {
    && |trace| == count + 1
    && (forall i :: 0 <= i < |trace| ==> Keyed(trace[i]))
    && (forall i :: 0 <= i < |trace| - 1 ==> NextTurn(trace[i], i) == Continue(trace[i + 1]))
  }

  /** The directions before each pass of the alternating loop, until it is done with `r`. */
  ghost predicate Trace(trace: seq<Sides>, r: Result<Sides, SearchError>) {
    && |trace| > 0 && TraceTo(trace, |trace| - 1)
    && NextTurn(trace[|trace| - 1], |trace| - 1) == Done(r)
  }

  /** A pass that goes on extends the trace. */
  lemma TraceGrows(trace: seq<Sides>, count: nat, Y: Sides)
    requires TraceTo(trace, count) && NextTurn(trace[count], count) == Continue(Y)
    ensures TraceTo(trace + [Y], count + 1) && (trace + [Y])[0] == trace[0] && (trace + [Y])[count + 1] == Y
  {
    var T := trace + [Y];
    forall i | 0 <= i < |T| - 1
      ensures NextTurn(T[i], i) == Continue(T[i + 1])
    {
      if i < count {
        TraceStep(trace, count, i);
        assert T[i] == trace[i] && T[i + 1] == trace[i + 1];
      } else {
        assert T[i] == trace[count] && T[i + 1] == Y;
      }
    }
  }

  /** Pass `i` of a trace goes on to the next. */
  lemma TraceStep(trace: seq<Sides>, count: nat, i: nat)
    requires TraceTo(trace, count) && i < count
    ensures NextTurn(trace[i], i) == Continue(trace[i + 1])
  {
  }

  /** A pass that is done completes the trace. */
  lemma TraceEnds(trace: seq<Sides>, count: nat, r: Result<Sides, SearchError>)
    requires TraceTo(trace, count) && NextTurn(trace[count], count) == Done(r)
    ensures Trace(trace, r)
  {
  }

  /** A trace of the alternating loop ends where `Alternation` from the first pass does: each pass that goes on leaves the rest to the next. */
  lemma TraceAlternation(trace: seq<Sides>, r: Result<Sides, SearchError>)
    requires Trace(trace, r)
    ensures Alternation(trace[0], 0) == r
  {
    var k := |trace| - 1;
    AlternationDone(trace[k], k, r);
    while k > 0
      invariant 0 <= k < |trace| && Alternation(trace[k], k) == r
    {
      var j := k - 1;
      TraceStep(trace, |trace| - 1, j);
      AlternationContinues(trace[j], trace[j + 1], j);
      k := j;
    }
  }


  /** A pass that goes on leaves the rest of the loop to the next pass. */
  lemma AlternationContinues(X: Sides, Y: Sides, count: nat)
    requires Keyed(X) && NextTurn(X, count) == Continue(Y)
    ensures Keyed(Y) && Alternation(X, count) == Alternation(Y, count + 1)
  {
  }

  /** A pass that is done ends the loop with its result. */
  lemma AlternationDone(X: Sides, count: nat, r: Result<Sides, SearchError>)
    requires Keyed(X) && NextTurn(X, count) == Done(r)
    ensures Alternation(X, count) == r
  {
  }

  /**
   * The body of one branch of the alternating loop, without the stopping
   * test (code/Dijkstra.py:114-123 forward, 132-141 backward): find the
   * nearest key; stop if it is unreached; otherwise explore it. On the first
   * turn of a direction, which starts at `start`, the nearest key is `start`
   * itself, and exploring fails exactly when `start` is not a node of `G`.
   */
  method TakeTurn(ghost G: seq<NodeValue>, ghost start: NodeValue, S: Search, ghost first: bool) returns (r: Result<Turn, SearchError>)
    requires Distinct(NamesOf(G)) && Distinct(Keys(S.dist)) && |S.dist| > 0
    requires first ==> S == Start(G, start)
    requires !first ==> start.name in NamesOf(G) && Searching(G, start.name, S)
    requires Frontier(G, S)
    ensures r.Failure? <==> first && start.name !in NamesOf(G)
    ensures r.Failure? ==> r.error == MissingKey
    ensures r.Success? && r.value.Unreached? ==> !first && AllUnreached(S.dist)
    ensures r.Success? && r.value.Settled? ==> var T := r.value.search; var n := r.value.name;
      && start.name in NamesOf(G) && Searching(G, start.name, T) && Frontier(G, T)
      && n in NamesOf(G) && n in TNames(T.result) && n !in Keys(T.dist)
      && |T.result| == |S.result| + 1 && |T.dist| == |S.dist| - 1
      && (first ==> n == start.name)
    ensures r == TurnOf(S)
  {
    var nearest := FindNearestNode(S.dist);
    var u := nearest.value;
    ghost var k := FirstOf(Keys(S.dist), u.name);
    NearestIsAmong(S.dist, k);
    if first {
      StartNearest(G, start, k);
    }
    if DistOf(S.dist, u.name).Inf? {
      NearestUnreached(S.dist, k);
      return Success(Unreached);
    }
    if first && start.name in NamesOf(G) {
      StartSearching(G, start);
    }
    if !first || start.name in NamesOf(G) {
      ExploreKeeps(G, start.name, S, u);
      ExploreFrontier(G, start.name, S, u, k);
    }
    var explored := ExploreNodeNeighbors(u, S);
    if explored.Failure? {
      return Failure(explored.error);
    }
    r := Success(Settled(explored.value, u.name));
  }

  /**
   * The invariant of the alternating loop before the pass numbered `count`:
   * the forward direction has settled the source from the first pass on, the
   * backward one the target from the second pass on, and until then each is
   * still its start.
   */
  ghost predicate Alternating(G: seq<NodeValue>, RG: seq<NodeValue>, source: NodeValue, target: NodeValue, X: Sides, count: nat) {
    var F := X.forward;
    var B := X.backward;
    && Keyed(X) && Frontier(G, F) && Frontier(RG, B)
    && (count == 0 ==> F == Start(G, source))
    && (count <= 1 ==> B == Start(RG, target))
    && (count == 1 ==> |F.result| == 1)
    && (count >= 1 ==> source.name in NamesOf(G) && Searching(G, source.name, F) && |F.result| > 0)
    && (count >= 2 ==> |G| >= 2 && target.name in NamesOf(G) && Searching(RG, target.name, B) && |B.result| > 0)
  }

  /**
   * How the alternating loop may end with `r`: with the KeyError of a source
   * outside the graph, or of a target outside it once the graph has a second
   * node; otherwise with both directions as `Alternated` describes them.
   */
  ghost predicate Ended(G: seq<NodeValue>, RG: seq<NodeValue>, source: NodeValue, target: NodeValue, r: Result<Sides, SearchError>) {
    && (r.Failure? <==> source.name !in NamesOf(G) || (target.name !in NamesOf(G) && |G| >= 2))
    && (r.Failure? ==> r.error == MissingKey)
    && (r.Success? ==> Alternated(G, RG, source.name, target.name, r.value))
  }

  /** The pass numbered `count` of the alternating loop: on even passes the forward turn, on odd passes the backward one. */
  method Pass(G: seq<NodeValue>, RG: seq<NodeValue>, source: NodeValue, target: NodeValue, X: Sides, count: nat) returns (n: Next)
    requires Distinct(NamesOf(G)) && NamesOf(RG) == NamesOf(G)
    requires Alternating(G, RG, source, target, X, count)
    requires |X.forward.dist| > 0 && |X.backward.dist| > 0
    ensures n == NextTurn(X, count)
    ensures n.Continue? ==> Alternating(G, RG, source, target, n.sides, count + 1)
    ensures n.Done? ==> Ended(G, RG, source, target, n.result)
  {
    if count % 2 == 0 {
      n := ForwardPass(G, RG, source, target, X, count);
    } else {
      n := BackwardPass(G, RG, source, target, X, count);
    }
  }

  /** An even pass of the alternating loop: the forward turn (code/Dijkstra.py:114-128). */
  method ForwardPass(G: seq<NodeValue>, RG: seq<NodeValue>, source: NodeValue, target: NodeValue, X: Sides, ghost count: nat) returns (n: Next)
    requires Distinct(NamesOf(G)) && NamesOf(RG) == NamesOf(G)
    requires Alternating(G, RG, source, target, X, count) && count % 2 == 0
    requires |X.forward.dist| > 0 && |X.backward.dist| > 0
    ensures n == NextTurn(X, count)
    ensures n.Continue? ==> Alternating(G, RG, source, target, n.sides, count + 1)
    ensures n.Done? ==> Ended(G, RG, source, target, n.result)
  {
    EvenPass(G, RG, source, target, X, count);
    var turn := TakeTurn(G, source, X.forward, count == 0);
    if turn.Failure? {
      return Done(Failure(turn.error));
    }
    if turn.value.Unreached? {
      BothEnded(G, RG, source, target, X);
      return Done(Success(X));
    }
    var Y := Sides(turn.value.search, X.backward);
    if turn.value.name !in Keys(X.backward.dist) {
      SettledElsewhere(RG, target.name, X.backward, turn.value.name);
      MetAt(Y.forward.result, Y.backward.result, turn.value.name);
      BothEnded(G, RG, source, target, Y);
      return Done(Success(Y));
    }
    n := Continue(Y);
  }

  /** An odd pass of the alternating loop: the backward turn (code/Dijkstra.py:132-146). */
  method BackwardPass(G: seq<NodeValue>, RG: seq<NodeValue>, source: NodeValue, target: NodeValue, X: Sides, ghost count: nat) returns (n: Next)
    requires Distinct(NamesOf(G)) && NamesOf(RG) == NamesOf(G)
    requires Alternating(G, RG, source, target, X, count) && count % 2 == 1
    requires |X.forward.dist| > 0 && |X.backward.dist| > 0
    ensures n == NextTurn(X, count)
    ensures n.Continue? ==> Alternating(G, RG, source, target, n.sides, count + 1)
    ensures n.Done? ==> Ended(G, RG, source, target, n.result)
  {
    OddPass(G, RG, source, target, X, count);
    var turn := TakeTurn(RG, target, X.backward, count == 1);
    if turn.Failure? {
      return Done(Failure(turn.error));
    }
    if turn.value.Unreached? {
      BothEnded(G, RG, source, target, X);
      return Done(Success(X));
    }
    var Y := Sides(X.forward, turn.value.search);
    if turn.value.name !in Keys(X.forward.dist) {
      SettledElsewhere(G, source.name, X.forward, turn.value.name);
      MetAt(Y.forward.result, Y.backward.result, turn.value.name);
      BothEnded(G, RG, source, target, Y);
      return Done(Success(Y));
    }
    n := Continue(Y);
  }

  /**
   * On the first pass both directions are their starts; on a later even
   * pass both have settled their starts.
   */
  lemma EvenPass(G: seq<NodeValue>, RG: seq<NodeValue>, source: NodeValue, target: NodeValue, X: Sides, count: nat)
    requires Alternating(G, RG, source, target, X, count) && count % 2 == 0 && NamesOf(RG) == NamesOf(G)
    requires Distinct(NamesOf(G))
    ensures count == 0 ==> X.forward == Start(G, source) && X.backward == Start(RG, target) && |X.forward.result| == 0
    ensures count == 0 ==> forall n :: n in NamesOf(G) ==> n in Keys(X.backward.dist)
    ensures count != 0 ==> source.name in NamesOf(G) && Searching(G, source.name, X.forward) && |X.forward.result| > 0
    ensures count != 0 ==> |G| >= 2 && target.name in NamesOf(G) && Searching(RG, target.name, X.backward) && |X.backward.result| > 0
  {
    StartKeys(G, source);
    StartKeys(RG, target);
  }

  /**
   * On an odd pass the forward direction has settled the source; on the
   * second pass it has settled only the source and still holds a key, so
   * the graph has a second node.
   */
  lemma OddPass(G: seq<NodeValue>, RG: seq<NodeValue>, source: NodeValue, target: NodeValue, X: Sides, count: nat)
    requires Alternating(G, RG, source, target, X, count) && count % 2 == 1 && |X.forward.dist| > 0
    ensures source.name in NamesOf(G) && Searching(G, source.name, X.forward) && |X.forward.result| > 0 && |G| >= 2
    ensures count == 1 ==> X.backward == Start(RG, target)
    ensures count != 1 ==> target.name in NamesOf(G) && Searching(RG, target.name, X.backward) && |X.backward.result| > 0
  {
  }

  /** A node of the graph that is no longer a key of a direction has been settled by it. */
  lemma SettledElsewhere(G: seq<NodeValue>, s: string, S: Search, n: string)
    requires Pending(G, s, S) && n in NamesOf(G) && n !in Keys(S.dist)
    ensures n in TNames(S.result)
  {
  }

  /** A node settled by both directions is a meeting node. */
  lemma MetAt(F: seq<Triplet>, B: seq<Triplet>, n: string)
    requires n in TNames(F) && n in TNames(B)
    ensures Met(F, B)
  {
  }

  /** Directions that have both settled their starts and stopped as the loop stops end it as `Alternated` describes. */
  lemma BothEnded(G: seq<NodeValue>, RG: seq<NodeValue>, source: NodeValue, target: NodeValue, X: Sides)
    requires NamesOf(RG) == NamesOf(G) && |G| >= 2
    requires source.name in NamesOf(G) && Searching(G, source.name, X.forward) && |X.forward.result| > 0
    requires target.name in NamesOf(G) && Searching(RG, target.name, X.backward) && |X.backward.result| > 0
    requires Frontier(G, X.forward) && Frontier(RG, X.backward)
    requires AllUnreached(X.forward.dist) || AllUnreached(X.backward.dist) || Met(X.forward.result, X.backward.result)
    ensures Ended(G, RG, source, target, Success(X))
  {
  }

  /** Before the first pass, both directions are their starts. */
  lemma StartAlternating(G: seq<NodeValue>, RG: seq<NodeValue>, source: NodeValue, target: NodeValue)
    requires Distinct(NamesOf(G)) && NamesOf(RG) == NamesOf(G)
    ensures var X := Sides(Start(G, source), Start(RG, target));
      Alternating(G, RG, source, target, X, 0) && |X.forward.dist| > 0 && |X.backward.dist| > 0
  {
    StartKeys(G, source);
    StartKeys(RG, target);
    StartFrontier(G, source);
    StartFrontier(RG, target);
  }

  /** The alternating loop that stops because a dictionary is empty ends as `Alternated` describes. */
  lemma EmptyEnds(G: seq<NodeValue>, RG: seq<NodeValue>, source: NodeValue, target: NodeValue, X: Sides, count: nat)
    requires Distinct(NamesOf(G)) && NamesOf(RG) == NamesOf(G)
    requires Alternating(G, RG, source, target, X, count)
    requires |X.forward.dist| == 0 || |X.backward.dist| == 0
    ensures Ended(G, RG, source, target, Success(X))
  {
    StartKeys(RG, target);
  }

  /**
   * The `while` loop of code/Dijkstra.py:108-146: on even passes the forward
   * direction takes its turn, on odd passes the backward one; an unreached
   * nearest key, or a just settled node that the other direction no longer
   * holds, ends the loop. A source or a target outside the graph has no
   * predecessor entry, and exploring it raises the KeyError; the target is
   * only explored when the graph has a second node. The ghost `trace` holds
   * the directions before each pass.
   */
  method AlternateSearch(G: seq<NodeValue>, RG: seq<NodeValue>, source: NodeValue, target: NodeValue, F0: Search, B0: Search)
    returns (r: Result<Sides, SearchError>, ghost trace: seq<Sides>)
    requires Distinct(NamesOf(G)) && NamesOf(RG) == NamesOf(G)
    requires F0 == Start(G, source) && B0 == Start(RG, target)
    ensures Ended(G, RG, source, target, r)
    ensures Trace(trace, r) && trace[0] == Sides(F0, B0)
  {
    var X := Sides(F0, B0);
    var count := 0;
    trace := [X];
    StartAlternating(G, RG, source, target);
    while |X.forward.dist| > 0 && |X.backward.dist| > 0
      invariant Alternating(G, RG, source, target, X, count)
      invariant TraceTo(trace, count) && trace[0] == Sides(F0, B0) && trace[count] == X
      decreases |X.forward.dist| + |X.backward.dist|
    {
      var next := Pass(G, RG, source, target, X, count);
      if next.Done? {
        TraceEnds(trace, count, next.result);
        return next.result, trace;
      }
      TraceGrows(trace, count, next.sides);
      X := next.sides;
      trace := trace + [X];
      count := count + 1;
    }
    EmptyEnds(G, RG, source, target, X, count);
    r := Success(X);
    TraceEnds(trace, count, r);
  }

  /**
   * When some walk of finite cost leads from the source to the target, the
   * alternating loop stops with a node settled by both: a direction that
   * stopped with every key unreached has settled every node its start
   * reaches, the other end included.
   */
  lemma AlternatedMeets(G: seq<NodeValue>, RG: seq<NodeValue>, s: string, t: string, X: Sides)
    requires Alternated(G, RG, s, t, X) && |G| >= 2 && RG == Reverse(G) && Reaches(G, s, t)
    ensures Met(X.forward.result, X.backward.result)
  {
    var F := X.forward;
    var B := X.backward;
    SettledFirst(G, s, F.result);
    SettledFirst(RG, t, B.result);
    if AllUnreached(F.dist) {
      var w :| |w| > 0 && w[0] == s && w[|w| - 1] == t && WalkCost(G, w).Fin?;
      ExhaustiveSearch(G, s, F);
      Exhausted(G, s, F.result, w);
      assert t in TNames(F.result) && t in TNames(B.result);
    } else if AllUnreached(B.dist) {
      var w :| |w| > 0 && w[0] == s && w[|w| - 1] == t && WalkCost(G, w).Fin?;
      ExhaustiveSearch(RG, t, B);
      var r := ReversedWalk(G, w);
      Exhausted(RG, t, B.result, r);
      assert s in TNames(F.result) && s in TNames(B.result);
    }
  }

  /** A node settled by both directions stays so when each settles more. */
  lemma MetGrows(F: seq<Triplet>, B: seq<Triplet>, F': seq<Triplet>, B': seq<Triplet>)
    requires |F| <= |F'| && F'[..|F|] == F && |B| <= |B'| && B'[..|B|] == B && Met(F, B)
    ensures Met(F', B')
  {
    var n :| n in TNames(F) && n in TNames(B);
    var i :| 0 <= i < |F| && TNames(F)[i] == n;
    var j :| 0 <= j < |B| && TNames(B)[j] == n;
    assert F'[i] == F[i] && B'[j] == B[j];
    assert TNames(F')[i] == n && TNames(B')[j] == n;
    assert n in TNames(F') && n in TNames(B');
  }

  // ---------------------------------------------------------------------
  // Continuing each direction (code/Dijkstra.py:150-192).

  /** `R[len(R) - 2]`: the triplet before the last, or, by Python's index -1 for a single triplet, the last itself. */
  function BeforeLast(R: seq<Triplet>): (x: Triplet)
    requires |R| > 0
    ensures x == R[|R| - 1] || (|R| >= 2 && x == R[|R| - 2])
  {
    R[if |R| >= 2 then |R| - 2 else |R| - 1]
  }

  // ---------------------------------------------------------------------
  // Choosing the meeting node (code/Dijkstra.py:196-222).

  /**
   * The dictionary of code/Dijkstra.py:199-203: every settled name, with its
   * triplet; for a name settled twice, the later triplet wins.
   */
  method ResultDictionary(R: seq<Triplet>) returns (m: map<string, Triplet>)
    ensures forall n :: n in m <==> n in TNames(R)
    ensures forall i :: 0 <= i < |R| && (forall j :: i < j < |R| ==> R[j].node.name != R[i].node.name) ==> m[R[i].node.name] == R[i]
    ensures Distinct(TNames(R)) ==> m == Table(R)
  {
    m := map[];
    for i := 0 to |R|
      invariant forall n :: n in m <==> n in TNames(R[..i])
      invariant forall l :: 0 <= l < i && (forall j :: l < j < i ==> R[j].node.name != R[l].node.name) ==> m[R[l].node.name] == R[l]
    {
      assert TNames(R[..i + 1]) == TNames(R[..i]) + [R[i].node.name];
      m := m[R[i].node.name := R[i]];
    }
    assert R[..|R|] == R;
    if Distinct(TNames(R)) {
      forall n | n in TNames(R)
        ensures m[n] == At(R, n)
      {
        var i := FirstOf(TNames(R), n);
        assert forall j :: i < j < |R| ==> TNames(R)[j] != TNames(R)[i];
      }
    }
  }

  /** The forward distance plus the backward distance of `n`. */
  function Through(Fm: map<string, Triplet>, Bm: map<string, Triplet>, n: string): Dist
    requires n in Fm && n in Bm
  {
    Plus(Fm[n].distance, Bm[n].distance)
  }

  /**
   * The loop of code/Dijkstra.py:212-222: over the names settled in both
   * directions, in an order the model leaves open, keep the graph's node of
   * each name whose sum of distances is strictly below the best so far. The
   * node kept, named `m`, has the least sum; None is kept only when every sum
   * is unreached, in particular when no name is common.
   */
  method ChooseMeet(graph: Graph, Fm: map<string, Triplet>, Bm: map<string, Triplet>) returns (meet: Option<Node>, ghost m: string)
    requires forall n :: n in Fm ==> n in graph.Names()
    ensures meet.None? <==> forall n :: n in Fm && n in Bm ==> Through(Fm, Bm, n).Inf?
    ensures meet.Some? ==> m in Fm && m in Bm && Through(Fm, Bm, m).Fin?
    ensures meet.Some? ==> FirstOf(graph.Names(), m) < |graph.nodes| && meet.value == graph.nodes[FirstOf(graph.Names(), m)]
    ensures meet.Some? ==> forall n :: n in Fm && n in Bm ==> Le(Through(Fm, Bm, m), Through(Fm, Bm, n))
  {
    var intersection := set n | n in Bm && n in Fm;
    var minCost := Inf;
    meet := None;
    m := "";
    ghost var common := intersection;
    while intersection != {}
      invariant forall n :: n in common <==> n in Bm && n in Fm
      invariant intersection <= common
      invariant meet.None? ==> minCost == Inf
      invariant meet.Some? ==> m in common && minCost == Through(Fm, Bm, m) && minCost.Fin?
      invariant meet.Some? ==> FirstOf(graph.Names(), m) < |graph.nodes| && meet.value == graph.nodes[FirstOf(graph.Names(), m)]
      invariant forall n :: n in common && n !in intersection ==> Le(minCost, Through(Fm, Bm, n))
      decreases |intersection|
    {
      var node :| node in intersection;
      var forwardCost := Fm[node].distance;
      var backwardCost := Bm[node].distance;
      var cost := Plus(forwardCost, backwardCost);
      if Lt(cost, minCost) {
        forall n | n in common && n !in intersection
          ensures Le(cost, Through(Fm, Bm, n))
        {
          LeTrans(cost, minCost, Through(Fm, Bm, n));
        }
        minCost := cost;
        meet := graph.GetNode(node);
        m := node;
      }
      intersection := intersection - {node};
    }
  }

  // ---------------------------------------------------------------------
  // Building the path (code/Dijkstra.py:224-258).

  /**
   * The predecessor of a node `n` settled by the backward search, other than
   * the target: settled before `n`, and `n` has an edge to it in the graph
   * whose cheapest cost is the difference of their backward distances.
   */
  lemma BackwardStep(G: seq<NodeValue>, t: string, B: seq<Triplet>, n: string) returns (p: NodeValue)
    requires Searched(Reverse(G), t, B) && n in TNames(B) && n != t
    ensures At(B, n).predecessor == Some(p)
    ensures p.name in NamesOf(G) && p.name in TNames(B) && FirstOf(TNames(B), p.name) < FirstOf(TNames(B), n)
    ensures At(B, n).distance == Plus(At(B, p.name).distance, StepCost(G, n, p.name))
    ensures n in NamesOf(G) && HasEdgeTo(NodeNamed(G, n).edges, p.name)
  {
    var i := SettledAt(Reverse(G), t, B, n);
    p := B[i].predecessor.value;
    var j :| 0 <= j < i && j < |B| && B[j].node == p && B[i].distance == Plus(B[j].distance, MinCost(p.edges, n));
    var k := SettledAt(Reverse(G), t, B, p.name);
    DistinctFirstOf(TNames(B), j);
    MinCostReversed(G, n, p.name);
  }

  /**
   * The predecessor of a node `n` settled by the forward search, other than
   * the source: a node of the graph settled before `n`, with an edge to `n`
   * whose cheapest cost is the difference of their forward distances.
   */
  lemma ForwardStep(G: seq<NodeValue>, s: string, F: seq<Triplet>, n: string) returns (p: NodeValue)
    requires Searched(G, s, F) && n in TNames(F) && n != s
    ensures At(F, n).predecessor == Some(p)
    ensures p.name in NamesOf(G) && p == NodeNamed(G, p.name)
    ensures p.name in TNames(F) && FirstOf(TNames(F), p.name) < FirstOf(TNames(F), n)
    ensures At(F, n).distance == Plus(At(F, p.name).distance, StepCost(G, p.name, n))
    ensures HasEdgeTo(p.edges, n)
  {
    var i := SettledAt(G, s, F, n);
    p := F[i].predecessor.value;
    var j :| 0 <= j < i && j < |F| && F[j].node == p && F[i].distance == Plus(F[j].distance, MinCost(p.edges, n));
    var k := SettledAt(G, s, F, p.name);
    DistinctFirstOf(TNames(F), j);
  }

  /** The state of the loop of code/Dijkstra.py:229-239: the backward search, its dictionary and the nodes so far. */
  ghost predicate BackwardTrail(G: seq<NodeValue>, t: string, B: seq<Triplet>, Bm: map<string, Triplet>, meet: NodeValue, N: seq<NodeValue>) {
    Searched(Reverse(G), t, B) && Bm == Table(B) && BackwardSoFar(G, B, meet, N)
  }

  /** The backward predecessor of the last node, looked up in the dictionary, is a node of the graph that the last node has an edge to, and it extends the trail. */
  lemma BackwardLink(G: seq<NodeValue>, t: string, B: seq<Triplet>, Bm: map<string, Triplet>, meet: NodeValue, N: seq<NodeValue>)
    requires BackwardTrail(G, t, B, Bm, meet, N) && N[|N| - 1].name != t
    ensures N[|N| - 1].name in Bm && Bm[N[|N| - 1].name].predecessor.Some?
    ensures var q := Bm[N[|N| - 1].name].predecessor.value.name;
      && q in NamesOf(G) && FirstOf(TNames(B), q) < FirstOf(TNames(B), N[|N| - 1].name)
      && HasEdgeTo(N[|N| - 1].edges, q) && BackwardTrail(G, t, B, Bm, meet, N + [NodeNamed(G, q)])
  {
    var n := N[|N| - 1].name;
    var p := BackwardStep(G, t, B, n);
    assert Bm[n] == At(B, n);
    BackwardExtend(G, B, meet, N, NodeNamed(G, p.name));
  }

  /** `add_connection` on a path whose target has an edge to `next`; the graph, whose nodes are not paths, keeps its nodes. */
  method Connect(ghost graph: Graph, ghost G: seq<NodeValue>, p: Path, next: NodeValue)
    requires graph.Valid() && graph.Values() == G && p.Valid() && HasEdgeTo(p.target.edges, next.name)
    modifies p
    ensures graph.Values() == G
    ensures p.Valid() && p.source == old(p.source) && p.target == next && p.nodes == old(p.nodes) + [next]
  {
    var connected := p.AddConnection(next);
  }

  /**
   * One step of the loop of code/Dijkstra.py:233-239: look up the backward
   * predecessor of the path's last node, take the graph's node of that name
   * and connect it.
   */
  method BackwardHop(graph: Graph, ghost G: seq<NodeValue>, ghost t: string, ghost B: seq<Triplet>, Bm: map<string, Triplet>, ghost meet: NodeValue, p: Path)
    returns (next: NodeValue)
    requires graph.Valid() && graph.Values() == G && p.Valid() && p.target.name != t && BackwardTrail(G, t, B, Bm, meet, p.nodes)
    modifies p
    ensures p.Valid() && p.source == old(p.source) && p.target == next
    ensures FirstOf(TNames(B), next.name) < FirstOf(TNames(B), old(p.target).name)
    ensures BackwardTrail(G, t, B, Bm, meet, p.nodes) && graph.Values() == G
  {
    next := BackwardNext(graph, G, t, B, Bm, meet, p.nodes, p.target);
    Connect(graph, G, p, next);
  }

  /** The graph's node named after the backward predecessor of `node`, the last of the nodes `N` so far. */
  method BackwardNext(graph: Graph, ghost G: seq<NodeValue>, ghost t: string, ghost B: seq<Triplet>, Bm: map<string, Triplet>, ghost meet: NodeValue,
                      ghost N: seq<NodeValue>, node: NodeValue)
    returns (next: NodeValue)
    requires graph.Valid() && graph.Values() == G && BackwardTrail(G, t, B, Bm, meet, N) && node == N[|N| - 1] && node.name != t
    ensures HasEdgeTo(node.edges, next.name) && FirstOf(TNames(B), next.name) < FirstOf(TNames(B), node.name)
    ensures BackwardTrail(G, t, B, Bm, meet, N + [next])
  {
    BackwardLink(G, t, B, Bm, meet, N);
    var destinationName := Bm[node.name].predecessor.value.name;
    next := NamedValue(graph, G, destinationName);
  }

  /** `graph.get_node(name)` for a name of the graph, as a value: the graph's node of that name. */
  method NamedValue(graph: Graph, ghost G: seq<NodeValue>, name: string) returns (v: NodeValue)
    requires graph.Valid() && graph.Values() == G && name in NamesOf(G)
    ensures v.name == name && v == NodeNamed(G, name)
  {
    var node := graph.GetNode(name);
    v := node.value.Value();
    assert v == G[FirstOf(graph.Names(), name)];
  }

  /**
   * The path of code/Dijkstra.py:229-239: from the meeting node, follow
   * the backward predecessors, each turned into the graph's node of that
   * name, to the target. Its walk costs the meeting node's backward distance,
   * and the meeting node does not come back.
   */
  method BackwardPath(graph: Graph, ghost G: seq<NodeValue>, ghost t: string, ghost B: seq<Triplet>, Bm: map<string, Triplet>, meet: NodeValue, target: NodeValue)
    returns (p: Path)
    requires graph.Valid() && graph.Values() == G && Searched(Reverse(G), t, B) && Bm == Table(B) && target.name == t
    requires meet.name in TNames(B) && InGraph(G, [meet])
    ensures fresh(p) && p.Valid() && p.source == meet && p.target.name == t
    ensures BackwardSoFar(G, B, meet, p.nodes)
    ensures WalkCost(G, NamesOf(p.nodes)) == At(B, meet.name).distance
  {
    p := new Path(meet);
    SettledFirst(Reverse(G), t, B);
    ghost var z := SettledAt(Reverse(G), t, B, t);
    BackwardStart(G, B, meet);
    var node := meet;
    while node.name != target.name
      invariant fresh(p) && p.Valid() && p.source == meet && p.target == node
      invariant BackwardTrail(G, t, B, Bm, meet, p.nodes) && graph.Values() == G
      decreases FirstOf(TNames(B), node.name)
    {
      node := BackwardHop(graph, G, t, B, Bm, meet, p);
    }
    BackwardDone(G, t, B, meet, p.nodes);
  }

  /** The forward predecessor of the last node of a chain, looked up in the dictionary, extends the chain. */
  lemma ForwardLink(G: seq<NodeValue>, s: string, F: seq<Triplet>, Fm: map<string, Triplet>, queue: seq<NodeValue>)
    requires Searched(G, s, F) && Fm == Table(F) && |queue| > 0 && Chain(G, F, queue) && queue[|queue| - 1].name != s
    ensures queue[|queue| - 1].name in Fm && Fm[queue[|queue| - 1].name].predecessor.Some?
    ensures var p := Fm[queue[|queue| - 1].name].predecessor.value;
      && p.name in TNames(F) && FirstOf(TNames(F), p.name) < FirstOf(TNames(F), queue[|queue| - 1].name)
      && Chain(G, F, queue + [p])
  {
    var n := queue[|queue| - 1].name;
    var p := ForwardStep(G, s, F, n);
    assert Fm[n] == At(F, n);
    ChainExtend(G, F, queue, p);
  }

  /**
   * The queue of code/Dijkstra.py:241-250: the meeting node, then its forward
   * predecessors, up to the source.
   */
  method ForwardQueue(ghost G: seq<NodeValue>, ghost s: string, ghost F: seq<Triplet>, Fm: map<string, Triplet>, meet: NodeValue, source: NodeValue)
    returns (queue: seq<NodeValue>)
    requires Searched(G, s, F) && Fm == Table(F) && source.name == s
    requires meet.name in TNames(F) && InGraph(G, [meet])
    ensures |queue| > 0 && queue[0] == meet && Queued(G, s, F, queue)
  {
    queue := [meet];
    var node := meet;
    while node.name != source.name
      invariant |queue| > 0 && queue[0] == meet && queue[|queue| - 1] == node
      invariant node.name in TNames(F) && Chain(G, F, queue)
      decreases FirstOf(TNames(F), node.name)
    {
      ForwardLink(G, s, F, Fm, queue);
      var departure := Fm[node.name].predecessor.value;
      queue := queue + [departure];
      node := departure;
    }
  }

  /** The path of that loop: valid, ending at `queue[k]`, along the queue. */
  ghost predicate Forwarding(G: seq<NodeValue>, s: string, F: seq<Triplet>, queue: seq<NodeValue>, k: nat, p: Path)
    reads p
  {
    p.Valid() && k < |queue| && p.target == queue[k] && ForwardSoFar(G, s, F, queue, k, p.nodes)
  }

  /** One step of the loop of code/Dijkstra.py:254-255: connect `next`, the node of the queue before `queue[k]`. */
  method ForwardHop(ghost G: seq<NodeValue>, ghost s: string, ghost F: seq<Triplet>, ghost queue: seq<NodeValue>, ghost k: nat, p: Path, next: NodeValue)
    requires Queued(G, s, F, queue) && 0 < k && Forwarding(G, s, F, queue, k, p) && next == queue[k - 1]
    modifies p
    ensures Forwarding(G, s, F, queue, k - 1, p)
  {
    ghost var N := p.nodes;
    ForwardExtend(G, s, F, queue, k, N);
    var connected := p.AddConnection(next);
    assert p.nodes == N + [next];
  }

  /**
   * The path of code/Dijkstra.py:252-255: start at the last node of the
   * queue, the source, and connect the others, popping from the end. Its
   * walk costs the forward distance of the first node of the queue.
   */
  method ForwardPath(ghost G: seq<NodeValue>, ghost s: string, ghost F: seq<Triplet>, queue0: seq<NodeValue>) returns (p: Path)
    requires Queued(G, s, F, queue0) && At(F, s).distance == Fin(0.0)
    ensures fresh(p) && Forwarding(G, s, F, queue0, 0, p)
  {
    var queue := queue0;
    p := new Path(queue[|queue| - 1]);
    ForwardStart(G, s, F, queue0);
    queue := queue[..|queue| - 1];
    while |queue| > 0
      invariant queue == queue0[..|queue|] && |queue| < |queue0|
      invariant fresh(p) && Forwarding(G, s, F, queue0, |queue|, p)
      decreases |queue|
    {
      PrefixPop(queue0, queue);
      var next := queue[|queue| - 1];
      ForwardHop(G, s, F, queue0, |queue|, p, next);
      queue := queue[..|queue| - 1];
    }
  }
  // ---------------------------------------------------------------------
  // The whole search (code/Dijkstra.py:90-260).

  /**
   * The searches after the alternating loop of code/Dijkstra.py:94-146, or
   * the IndexError of lines 151-156 when a direction settled nothing.
   */
  function Turns(G: seq<NodeValue>, RG: seq<NodeValue>, source: NodeValue, target: NodeValue): (r: Result<Sides, SearchError>)
    requires Distinct(NamesOf(G)) && Distinct(NamesOf(RG))
    ensures r.Success? ==> var X := r.value;
      && |X.forward.result| > 0 && |X.backward.result| > 0 && FiniteResult(X.forward) && FiniteResult(X.backward)
      && Distinct(Keys(X.forward.dist)) && Distinct(Keys(X.backward.dist))
  {
    StartKeys(G, source);
    StartKeys(RG, target);
    match Alternation(Sides(Start(G, source), Start(RG, target)), 0)
    case Failure(e) => Failure(e)
    case Success(X) => if |X.forward.result| == 0 || |X.backward.result| == 0 then Failure(NoResult) else Success(X)
  }

  /**
   * The searches `bidirectional_dijkstra` leaves before choosing the
   * meeting node (code/Dijkstra.py:94-192): the alternating loop, then each
   * direction continued up to its terminator.
   */
  function BothDirections(G: seq<NodeValue>, RG: seq<NodeValue>, source: NodeValue, target: NodeValue): Result<Sides, SearchError>
    requires Distinct(NamesOf(G)) && Distinct(NamesOf(RG))
  {
    match Turns(G, RG, source, target)
    case Failure(e) => Failure(e)
    case Success(X) =>
      match Continued(X.forward, ForwardTerminator(X))
      case Failure(e) => Failure(e)
      case Success(F) =>
        match Continued(X.backward, BackwardTerminator(X))
        case Failure(e) => Failure(e)
        case Success(B) => Success(Sides(F, B))
  }

  /**
   * The terminator of the forward direction (code/Dijkstra.py:151-153): its
   * own last distance, plus the last step of the backward direction.
   */
  function ForwardTerminator(X: Sides): real
    requires |X.forward.result| > 0 && |X.backward.result| > 0 && FiniteResult(X.forward) && FiniteResult(X.backward)
  {
    var F := X.forward.result;
    var B := X.backward.result;
    F[|F| - 1].distance.r + B[|B| - 1].distance.r - BeforeLast(B).distance.r
  }

  /** The terminator of the backward direction (code/Dijkstra.py:154-156), symmetrically. */
  function BackwardTerminator(X: Sides): real
    requires |X.forward.result| > 0 && |X.backward.result| > 0 && FiniteResult(X.forward) && FiniteResult(X.backward)
  {
    var F := X.forward.result;
    var B := X.backward.result;
    B[|B| - 1].distance.r + F[|F| - 1].distance.r - BeforeLast(F).distance.r
  }

  /** Both directions continued from the alternating loop's result `X` are what `BothDirections` describes. */
  lemma BothContinued(G: seq<NodeValue>, RG: seq<NodeValue>, source: NodeValue, target: NodeValue, X: Sides, F: Search, B: Search)
    requires Distinct(NamesOf(G)) && Distinct(NamesOf(RG))
    requires Turns(G, RG, source, target) == Success(X)
    requires Continued(X.forward, ForwardTerminator(X)) == Success(F)
    requires Continued(X.backward, BackwardTerminator(X)) == Success(B)
    ensures BothDirections(G, RG, source, target) == Success(Sides(F, B))
  {
  }


  /** Both directions keep their invariant and each has settled its start. */
  ghost predicate BothSearching(G: seq<NodeValue>, RG: seq<NodeValue>, s: string, t: string, X: Sides) {
    && Searching(G, s, X.forward) && |X.forward.result| > 0
    && Searching(RG, t, X.backward) && |X.backward.result| > 0
  }

  /**
   * The start of the searches and the alternating loop of
   * code/Dijkstra.py:94-146 on the graph `G` and its reversal `RG`. It fails
   * with `MissingKey` when the source, or with a second node the target, is
   * not a node of the graph, and with `NoResult`, the `IndexError` of
   * code/Dijkstra.py:151-153, when the backward direction settled nothing
   * because the graph has a single node.
   */
  method SearchTurns(G: seq<NodeValue>, RG: seq<NodeValue>, source: NodeValue, target: NodeValue) returns (r: Result<Sides, SearchError>)
    requires Distinct(NamesOf(G)) && RG == Reverse(G)
    ensures r.Failure? <==> source.name !in NamesOf(G) || target.name !in NamesOf(G) || |G| < 2
    ensures r.Failure? ==> r.error == if source.name !in NamesOf(G) || (target.name !in NamesOf(G) && |G| >= 2) then MissingKey else NoResult
    ensures r.Success? ==> BothSearching(G, RG, source.name, target.name, r.value)
    ensures r.Success? ==> Frontier(G, r.value.forward) && Frontier(RG, r.value.backward)
    ensures r.Success? && Reaches(G, source.name, target.name) ==> Met(r.value.forward.result, r.value.backward.result)
    ensures r == Turns(G, RG, source, target)
  {
    var forwardDist, forwardPred := InitializeSearch(G);
    var backwardDist, backwardPred := InitializeSearch(RG);
    forwardDist := Put(forwardDist, source, Fin(0.0));
    backwardDist := Put(backwardDist, target, Fin(0.0));
    ghost var trace;
    r, trace := AlternateSearch(G, RG, source, target, Search(forwardDist, forwardPred, []), Search(backwardDist, backwardPred, []));
    StartKeys(G, source);
    StartKeys(RG, target);
    TraceAlternation(trace, r);
    if r.Success? && |r.value.backward.result| == 0 {
      r := Failure(NoResult);
    }
    if r.Success? && Reaches(G, source.name, target.name) {
      AlternatedMeets(G, RG, source.name, target.name, r.value);
    }
  }

  /**
   * The searches of code/Dijkstra.py:94-192: the alternating loop, then each
   * direction continued up to its terminator, which adds to its own last
   * distance the last step of the other direction.
   */
  method SearchBoth(G: seq<NodeValue>, RG: seq<NodeValue>, source: NodeValue, target: NodeValue) returns (r: Result<Sides, SearchError>)
    requires Distinct(NamesOf(G)) && RG == Reverse(G)
    ensures r.Failure? <==> source.name !in NamesOf(G) || target.name !in NamesOf(G) || |G| < 2
    ensures r.Failure? ==> r.error == if source.name !in NamesOf(G) || (target.name !in NamesOf(G) && |G| >= 2) then MissingKey else NoResult
    ensures r.Success? ==> BothSearching(G, RG, source.name, target.name, r.value)
    ensures r.Success? && Reaches(G, source.name, target.name) ==> Met(r.value.forward.result, r.value.backward.result)
    ensures r == BothDirections(G, RG, source, target)
  {
    r := SearchTurns(G, RG, source, target);
    if r.Success? {
      var X := r.value;
      var forwardTerminator := ForwardTerminator(X);
      var backwardTerminator := BackwardTerminator(X);
      var F := ContinueSearch(G, source.name, X.forward, forwardTerminator);
      var B := ContinueSearch(RG, target.name, X.backward, backwardTerminator);
      if Met(X.forward.result, X.backward.result) {
        MetGrows(X.forward.result, X.backward.result, F.result, B.result);
      }
      BothContinued(G, RG, source, target, X, F, B);
      r := Success(Sides(F, B));
    }
  }

  /** Some sum of distances over the common settled names is finite exactly when some name is settled by both. */
  lemma MetThrough(G: seq<NodeValue>, RG: seq<NodeValue>, s: string, t: string, F: seq<Triplet>, B: seq<Triplet>, Fm: map<string, Triplet>, Bm: map<string, Triplet>)
    requires Searched(G, s, F) && Searched(RG, t, B) && Fm == Table(F) && Bm == Table(B)
    ensures (forall n :: n in Fm && n in Bm ==> Through(Fm, Bm, n).Inf?) <==> !Met(F, B)
  {
    SearchedFinite(G, s, F);
    SearchedFinite(RG, t, B);
    MetFinite(F, B, Fm, Bm);
  }

  /** Every distance of the dictionary is finite. */
  ghost predicate AllFinite(m: map<string, Triplet>) {
    forall n :: n in m ==> m[n].distance.Fin?
  }

  /** The result dictionary of a search holds finite distances only. */
  lemma SearchedFinite(G: seq<NodeValue>, s: string, R: seq<Triplet>)
    requires Searched(G, s, R)
    ensures AllFinite(Table(R))
  {
    forall n | n in Table(R)
      ensures Table(R)[n].distance.Fin?
    {
      var i := SettledAt(G, s, R, n);
    }
  }

  /** Over dictionaries of finite distances, a common name has a finite sum exactly when there is a common name. */
  lemma MetFinite(F: seq<Triplet>, B: seq<Triplet>, Fm: map<string, Triplet>, Bm: map<string, Triplet>)
    requires Fm == Table(F) && Bm == Table(B) && AllFinite(Fm) && AllFinite(Bm)
    ensures (forall n :: n in Fm && n in Bm ==> Through(Fm, Bm, n).Inf?) <==> !Met(F, B)
  {
    if Met(F, B) {
      var n :| n in TNames(F) && n in TNames(B);
      assert n in Fm && n in Bm && Through(Fm, Bm, n).Fin?;
    }
  }

  /** `forward_path + backward_path` of code/Dijkstra.py:258, when the second path starts where the first ends and does not come back there. */
  method Append(p: Path, q: Path)
    requires p.Valid() && q.Valid() && p != q && p.target == q.source
    requires forall i :: 1 <= i < |q.nodes| ==> q.nodes[i] != q.source
    modifies p
    ensures p.Valid() && p.nodes == old(p.nodes) + q.nodes[1..]
  {
    var joined := p.Add(q);
  }

  /** The least sum over the dictionaries is the least sum over the result lists. */
  lemma LeastThrough(F: seq<Triplet>, B: seq<Triplet>, Fm: map<string, Triplet>, Bm: map<string, Triplet>, m: string)
    requires Fm == Table(F) && Bm == Table(B) && m in Fm && m in Bm
    requires forall n :: n in Fm && n in Bm ==> Le(Through(Fm, Bm, m), Through(Fm, Bm, n))
    ensures m in TNames(F) && m in TNames(B)
    ensures forall n :: n in TNames(F) && n in TNames(B) ==> Le(Plus(At(F, m).distance, At(B, m).distance), Plus(At(F, n).distance, At(B, n).distance))
  {
    forall n | n in TNames(F) && n in TNames(B)
      ensures Le(Plus(At(F, m).distance, At(B, m).distance), Plus(At(F, n).distance, At(B, n).distance))
    {
      assert n in Fm && n in Bm;
    }
  }

  /**
   * The paths of code/Dijkstra.py:224-258 through the meeting node: the
   * backward one to the target, the forward one from the source, and the
   * second added to the first.
   */
  method JoinPaths(graph: Graph, ghost G: seq<NodeValue>, ghost s: string, ghost t: string, ghost F: seq<Triplet>, ghost B: seq<Triplet>,
                   Fm: map<string, Triplet>, Bm: map<string, Triplet>, meet: NodeValue, source: NodeValue, target: NodeValue)
    returns (p: Path)
    requires graph.Valid() && graph.Values() == G
    requires Searched(G, s, F) && Searched(Reverse(G), t, B) && Fm == Table(F) && Bm == Table(B)
    requires source.name == s && target.name == t
    requires meet.name in TNames(F) && meet.name in TNames(B) && InGraph(G, [meet])
    ensures fresh(p) && Joined(G, s, t, F, B, meet.name, p)
  {
    var backwardPath := BackwardPath(graph, G, t, B, Bm, meet, target);
    var queue := ForwardQueue(G, s, F, Fm, meet, source);
    SettledFirst(G, s, F);
    ghost var z := SettledAt(G, s, F, s);
    p := ForwardPath(G, s, F, queue);
    ghost var N1 := p.nodes;
    ghost var N2 := backwardPath.nodes;
    BackwardOnce(G, B, meet, N2);
    Append(p, backwardPath);
    JoinWalks(G, s, t, F, B, N1, N2, p.nodes, p.edges);
  }

  /** The current value of `graph.get_node(m)`, the meeting node of code/Dijkstra.py:222: the node of the graph named `m`. */
  method MeetValue(graph: Graph, ghost G: seq<NodeValue>, meet: Node, ghost m: string) returns (v: NodeValue)
    requires graph.Valid() && graph.Values() == G && m in NamesOf(G)
    requires FirstOf(graph.Names(), m) < |graph.nodes| && meet == graph.nodes[FirstOf(graph.Names(), m)]
    ensures v.name == m && InGraph(G, [v]) && graph.Values() == G
  {
    v := meet.Value();
    assert v == G[FirstOf(NamesOf(G), m)];
  }

  /**
   * The result lists of an answer are those of both directions as
   * `BothDirections` runs them on the graph and its reverse: the answer is
   * determined by the graph, the source and the target.
   */
  ghost predicate FromBoth(G: seq<NodeValue>, source: NodeValue, target: NodeValue, a: Answer) {
    Distinct(NamesOf(G)) && Answered(BothDirections(G, Reverse(G), source, target), a)
  }

  /** The result lists of `a` are those of the directions `r`. */
  ghost predicate Answered(r: Result<Sides, SearchError>, a: Answer) {
    r.Success? && a.forward == r.value.forward.result && a.backward == r.value.backward.result
  }

  /** An answer carrying the result lists of `BothDirections` is its outcome. */
  lemma Concluded(G: seq<NodeValue>, RG: seq<NodeValue>, source: NodeValue, target: NodeValue, X: Sides, a: Answer)
    requires Distinct(NamesOf(G)) && RG == Reverse(G) && BothDirections(G, RG, source, target) == Success(X)
    requires a.forward == X.forward.result && a.backward == X.backward.result
    ensures FromBoth(G, source, target, a)
  {
  }

  /**
   * The end of `bidirectional_dijkstra` (code/Dijkstra.py:194-260) once both
   * directions are settled: the result dictionaries, the meeting node, and
   * the path through it, None when there is none.
   */
  method Conclude(graph: Graph, ghost G: seq<NodeValue>, F: seq<Triplet>, B: seq<Triplet>, source: NodeValue, target: NodeValue)
    returns (a: Answer, ghost m: string)
    requires graph.Valid() && graph.Values() == G
    requires Searched(G, source.name, F) && Searched(Reverse(G), target.name, B)
    ensures Found(G, source.name, target.name, a, m) && a.forward == F && a.backward == B
    ensures a.path.Some? ==> fresh(a.path.value)
  {
    var Fm := ResultDictionary(F);
    var Bm := ResultDictionary(B);
    assert graph.Values() == G;
    var meet;
    meet, m := ChooseMeet(graph, Fm, Bm);
    assert graph.Values() == G;
    MetThrough(G, Reverse(G), source.name, target.name, F, B, Fm, Bm);
    if meet.None? {
      return Answer(None, F, B), m;
    }
    ghost var i := SettledAt(G, source.name, F, m);
    LeastThrough(F, B, Fm, Bm, m);
    var meetNode := MeetValue(graph, G, meet.value, m);
    var p := JoinPaths(graph, G, source.name, target.name, F, B, Fm, Bm, meetNode, source, target);
    a := Answer(Some(p), F, B);
  }

  /**
   * `bidirectional_dijkstra` on a graph with the nodes `G` once reversed
   * into `RG` (code/Dijkstra.py:94-260): run both searches, then conclude.
   */
  method SearchAndJoin(graph: Graph, nodes: seq<NodeValue>, reversedNodes: seq<NodeValue>, source: NodeValue, target: NodeValue)
    returns (r: Result<Answer, SearchError>, ghost m: string)
    requires graph.Valid() && graph.Values() == nodes && reversedNodes == Reverse(nodes)
    ensures r.Failure? <==> source.name !in NamesOf(nodes) || target.name !in NamesOf(nodes) || |nodes| < 2
    ensures r.Failure? ==> r.error == if source.name !in NamesOf(nodes) || (target.name !in NamesOf(nodes) && |nodes| >= 2) then MissingKey else NoResult
    ensures r.Success? ==> Found(nodes, source.name, target.name, r.value, m)
    ensures r.Success? ==> FromBoth(nodes, source, target, r.value)
    ensures r.Success? ==> (r.value.path.None? <==> !Reaches(nodes, source.name, target.name))
    ensures r.Success? && r.value.path.Some? ==> fresh(r.value.path.value)
  {
    var sides := SearchBoth(nodes, reversedNodes, source, target);
    r, m := JoinOrFail(graph, nodes, reversedNodes, sides, source, target);
  }

  /** The failure of the searches `sides`, passed on, or the end of `bidirectional_dijkstra` once they have settled. */
  method JoinOrFail(graph: Graph, ghost G: seq<NodeValue>, ghost RG: seq<NodeValue>, sides: Result<Sides, SearchError>, source: NodeValue, target: NodeValue)
    returns (r: Result<Answer, SearchError>, ghost m: string)
    requires graph.Valid() && graph.Values() == G && Distinct(NamesOf(G)) && RG == Reverse(G)
    requires sides == BothDirections(G, RG, source, target)
    requires sides.Failure? <==> source.name !in NamesOf(G) || target.name !in NamesOf(G) || |G| < 2
    requires sides.Failure? ==> sides.error == if source.name !in NamesOf(G) || (target.name !in NamesOf(G) && |G| >= 2) then MissingKey else NoResult
    requires sides.Success? ==> BothSearching(G, RG, source.name, target.name, sides.value)
    requires sides.Success? && Reaches(G, source.name, target.name) ==> Met(sides.value.forward.result, sides.value.backward.result)
    ensures r.Failure? <==> source.name !in NamesOf(G) || target.name !in NamesOf(G) || |G| < 2
    ensures r.Failure? ==> r.error == if source.name !in NamesOf(G) || (target.name !in NamesOf(G) && |G| >= 2) then MissingKey else NoResult
    ensures r.Success? ==> Found(G, source.name, target.name, r.value, m)
    ensures r.Success? ==> FromBoth(G, source, target, r.value)
    ensures r.Success? ==> (r.value.path.None? <==> !Reaches(G, source.name, target.name))
    ensures r.Success? && r.value.path.Some? ==> fresh(r.value.path.value)
  {
    m := "";
    if sides.Failure? {
      return Failure(sides.error), m;
    }
    var answer;
    answer, m := JoinSides(graph, G, RG, sides.value, source, target);
    r := Success(answer);
  }

  /** The end of `bidirectional_dijkstra` once both directions `X`, as `BothDirections` runs them, have settled. */
  method JoinSides(graph: Graph, ghost G: seq<NodeValue>, ghost RG: seq<NodeValue>, X: Sides, source: NodeValue, target: NodeValue)
    returns (a: Answer, ghost m: string)
    requires graph.Valid() && graph.Values() == G && Distinct(NamesOf(G)) && RG == Reverse(G)
    requires BothSearching(G, RG, source.name, target.name, X) && BothDirections(G, RG, source, target) == Success(X)
    requires Reaches(G, source.name, target.name) ==> Met(X.forward.result, X.backward.result)
    ensures Found(G, source.name, target.name, a, m) && FromBoth(G, source, target, a)
    ensures a.path.None? <==> !Reaches(G, source.name, target.name)
    ensures a.path.Some? ==> fresh(a.path.value)
  {
    a, m := Conclude(graph, G, X.forward.result, X.backward.result, source, target);
    FoundReaches(G, source.name, target.name, a, m);
    Concluded(G, RG, source, target, X, a);
  }

  /** `graph.get_reversed_graph()` (code/Dijkstra.py:92) and the nodes of the reversed graph; the graph keeps its nodes. */
  method ReversedNodes(graph: Graph, ghost G: seq<NodeValue>) returns (r: Result<seq<NodeValue>, GraphError>)
    requires graph.Valid() && graph.Values() == G
    ensures graph.Values() == G
    ensures r.Failure? <==> !Closed(G)
    ensures r.Success? ==> r.value == Reverse(G)
  {
    var reversed := graph.GetReversedGraph();
    if reversed.Failure? {
      return Failure(reversed.error);
    }
    var nodes := reversed.value.GetNodes();
    r := Success(nodes);
  }

  /**
   * `bidirectional_dijkstra(graph, source, target)`: reverse the graph, run
   * both searches, choose the meeting node and join the two paths through
   * it. It fails exactly when the graph cannot be reversed, when the source
   * is not one of its nodes, or the target is not, or it has fewer than two
   * nodes; otherwise it returns both searches and a path through a best
   * meeting node, None when no node is settled by both, which is exactly
   * when no walk of finite cost leads from the source to the target.
   */
  method BidirectionalDijkstra(graph: Graph, source: NodeValue, target: NodeValue) returns (r: Result<Answer, SearchError>, ghost m: string)
    requires graph.Valid()
    ensures r.Failure? <==> !Closed(old(graph.Values())) || source.name !in graph.Names() || target.name !in graph.Names() || |graph.nodes| < 2
    ensures r.Failure? && !Closed(old(graph.Values())) ==> r.error == Unreversible
    ensures r.Failure? && Closed(old(graph.Values())) ==>
      r.error == if source.name !in graph.Names() || (target.name !in graph.Names() && |graph.nodes| >= 2) then MissingKey else NoResult
    ensures r.Success? ==> Found(old(graph.Values()), source.name, target.name, r.value, m) && FromBoth(old(graph.Values()), source, target, r.value)
    ensures r.Success? ==> (r.value.path.None? <==> !Reaches(old(graph.Values()), source.name, target.name))
    ensures r.Success? && r.value.path.Some? ==> fresh(r.value.path.value)
  {
    m := "";
    ghost var G := graph.Values();
    var nodes := graph.GetNodes();
    var reversed := ReversedNodes(graph, G);
    if reversed.Failure? {
      r := Failure(Unreversible);
    } else {
      r, m := SearchAndJoin(graph, nodes, reversed.value, source, target);
    }
  }
}
