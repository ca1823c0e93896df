/**
 * Continuing one direction of `bidirectional_dijkstra` up to a distance
 * bound (code/Dijkstra.py:150-192).
 */
module Continuation {
  import opened Wrappers
  import opened Distance
  import opened Seqs
  import opened Nodes
  import opened DijkstraHeaps
  import opened Searches
  import opened Frontiers

  /** Every key of `D` is further than `d`. */
  ghost predicate AllBeyond(D: seq<Entry>, d: Dist) {
    forall q :: 0 <= q < |D| ==> Lt(d, D[q].distance)
  }

  /** When the nearest key is further than `d`, so is every key. */
  lemma NearestBeyond(D: seq<Entry>, k: nat, d: Dist)
    requires Nearest(D, k) && Lt(d, D[k].distance)
    ensures AllBeyond(D, d)
  {
    LeFacts();
  }

  /**
   * What one of the `while` loops of code/Dijkstra.py:159-192 leaves: while
   * a key is left and the nearest one is reached and within `terminator`,
   * explore it; the KeyError of a key without a predecessor entry.
   */
  function Continued(S: Search, terminator: real): Result<Search, SearchError>
    requires Distinct(Keys(S.dist))
    decreases |S.dist|
  {
    if |S.dist| == 0 then Success(S)
    else
      var k := NearestAmong(S.dist, |S.dist|);
      var u := S.dist[k].node;
      assert Keys(S.dist)[k] == u.name;
      if S.dist[k].distance.Inf? || Lt(Fin(terminator), S.dist[k].distance) then Success(S)
      else
        match Explored(S, u)
        case Failure(e) => Failure(e)
        case Success(T) => ExploredKeys(S, u); Continued(T, terminator)
  }

  /**
   * One pass of the loop: stop, changing nothing, when the nearest key is
   * unreached or further than `terminator`, which leaves every key beyond
   * it; otherwise explore the nearest key, which settles it within the bound.
   */
  method ContinueStep(ghost G: seq<NodeValue>, ghost s: string, S: Search, terminator: real) returns (T: Search, stop: bool)
    requires Searching(G, s, S) && Frontier(G, S) && |S.dist| > 0
    ensures Searching(G, s, T) && Frontier(G, T)
    ensures stop ==> T == S && AllBeyond(S.dist, Fin(terminator))
    ensures !stop ==> |T.dist| < |S.dist| && |T.result| == |S.result| + 1 && T.result[..|S.result|] == S.result
    ensures !stop ==> Le(T.result[|S.result|].distance, Fin(terminator))
    ensures Continued(S, terminator) == if stop then Success(S) else Continued(T, terminator)
  {
    var nearest := FindNearestNode(S.dist);
    var u := nearest.value;
    ghost var k := FirstOf(Keys(S.dist), u.name);
    NearestIsAmong(S.dist, k);
    var d := DistOf(S.dist, u.name);
    if d.Inf? || Lt(Fin(terminator), d) {
      NearestBeyond(S.dist, k, Fin(terminator));
      return S, true;
    }
    ExploreKeeps(G, s, S, u);
    ExploreFrontier(G, s, S, u, k);
    var explored := ExploreNodeNeighbors(u, S);
    T := explored.value;
    stop := false;
    assert T.result[..|S.result|] == S.result;
  }

  /**
   * One of the `while` loops of code/Dijkstra.py:159-192: settle the nearest
   * key of a direction until none is left, the nearest is unreached, or it
   * is further than `terminator`. The direction keeps its invariant, every
   * node it settles here is within the bound and every key left is beyond it.
   */
  method ContinueSearch(ghost G: seq<NodeValue>, ghost s: string, S0: Search, terminator: real) returns (S: Search)
    requires Searching(G, s, S0) && Frontier(G, S0)
    ensures Searching(G, s, S) && Frontier(G, S)
    ensures |S0.result| <= |S.result| && S.result[..|S0.result|] == S0.result
    ensures forall i :: |S0.result| <= i < |S.result| ==> Le(S.result[i].distance, Fin(terminator))
    ensures AllBeyond(S.dist, Fin(terminator))
    ensures Continued(S0, terminator) == Success(S)
  {
    S := S0;
    while |S.dist| > 0
      invariant Searching(G, s, S) && Frontier(G, S)
      invariant |S0.result| <= |S.result| && S.result[..|S0.result|] == S0.result
      invariant forall i :: |S0.result| <= i < |S.result| ==> Le(S.result[i].distance, Fin(terminator))
      invariant Continued(S0, terminator) == Continued(S, terminator)
      decreases |S.dist|
    {
      var next, stop := ContinueStep(G, s, S, terminator);
      if stop {
        break;
      }
      ghost var R := S.result;
      S := next;
      PrefixTrans(S0.result, R, S.result);
      WithinTerminator(S0.result, R, S.result, terminator);
    }
  }

  /** Settling one more node within the bound keeps every node settled since `A` within it. */
  lemma WithinTerminator(A: seq<Triplet>, R: seq<Triplet>, C: seq<Triplet>, terminator: real)
    requires |A| <= |R| && |C| == |R| + 1 && C[..|R|] == R && Le(C[|R|].distance, Fin(terminator))
    requires forall i :: |A| <= i < |R| ==> Le(R[i].distance, Fin(terminator))
    ensures forall i :: |A| <= i < |C| ==> Le(C[i].distance, Fin(terminator))
  {
    forall i | |A| <= i < |C|
      ensures Le(C[i].distance, Fin(terminator))
    {
      if i < |R| {
        assert C[i] == R[i];
      }
    }
  }
}
