/**
 * What `bidirectional_dijkstra` (code/Dijkstra.py:90-260) returns, and what
 * it promises about it.
 */
module Answers {
  import opened Wrappers
  import opened Nodes
  import opened Reversal
  import opened Paths
  import opened DijkstraHeaps
  import opened Searches
  import opened Trails
  import opened Walks

  /** What `bidirectional_dijkstra` returns: the path, None when there is none, and both result lists. */
  datatype Answer = Answer(path: Option<Path>, forward: seq<Triplet>, backward: seq<Triplet>)

  /**
   * The promise about an answer: two searches, forward from the
   * source and backward from the target, and a path exactly when some node
   * is settled by both, routed through one that minimises the sum.
   */
  ghost predicate Found(G: seq<NodeValue>, s: string, t: string, a: Answer, m: string)
    reads if a.path.Some? then {a.path.value} else {}
  {
    && Searched(G, s, a.forward) && Searched(Reverse(G), t, a.backward)
    && (a.path.None? <==> !Met(a.forward, a.backward))
    && (a.path.Some? ==> Route(G, s, t, a.forward, a.backward, m, a.path.value))
  }

  /**
   * An answer has no path exactly when the target is unreachable from the
   * source, given that two searches from ends that are connected meet.
   */
  lemma FoundReaches(G: seq<NodeValue>, s: string, t: string, a: Answer, m: string)
    requires Found(G, s, t, a, m) && (Reaches(G, s, t) ==> Met(a.forward, a.backward))
    ensures a.path.None? <==> !Reaches(G, s, t)
  {
    if a.path.Some? {
      JoinedReaches(G, s, t, a.forward, a.backward, m, a.path.value.nodes, a.path.value.edges);
    }
  }
}
