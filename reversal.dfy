/**
 * The reversed graph of code/Graph.py:53-70 as a function on node values:
 * the same names in the same order, every edge turned around.
 */
module Reversal {
  import opened Distance
  import opened Nodes
  import opened Seqs

  /** The names of a list of nodes, in order. */
  function NamesOf(G: seq<NodeValue>): (names: seq<string>)
    ensures |names| == |G| && forall k :: 0 <= k < |G| ==> names[k] == G[k].name
  {
    seq(|G|, k requires 0 <= k < |G| => G[k].name)
  }

  /** Every edge of the graph leads to one of its nodes. */
  ghost predicate Closed(G: seq<NodeValue>) {
    forall k, i :: 0 <= k < |G| && 0 <= i < |G[k].edges| ==> G[k].edges[i].destination in NamesOf(G)
  }

  /** The edges of `E` (leaving node `un`) that lead to `v`, turned into edges `v -> un`, in order. */
  function Turned(E: seq<Edge>, un: string, v: string): seq<Edge> {
    if |E| == 0 then []
    else Turned(E[..|E| - 1], un, v) + (if E[|E| - 1].destination == v then [Edge(un, E[|E| - 1].cost)] else [])
  }

  /** One more edge of `un` turns into at most one more edge into `v`. */
  lemma TurnedStep(E: seq<Edge>, j: nat, un: string, v: string)
    requires j < |E|
    ensures Turned(E[..j + 1], un, v) == Turned(E[..j], un, v) + (if E[j].destination == v then [Edge(un, E[j].cost)] else [])
  {
    assert E[..j + 1][..j] == E[..j];
  }

  /** The edges of the reversed node `v`: the turned edges of every node of `G`, in the order of `G`. */
  function Incoming(G: seq<NodeValue>, v: string): seq<Edge> {
    if |G| == 0 then []
    else Incoming(G[..|G| - 1], v) + Turned(G[|G| - 1].edges, G[|G| - 1].name, v)
  }

  /** The reversed graph. */
  function Reverse(G: seq<NodeValue>): (R: seq<NodeValue>)
    ensures NamesOf(R) == NamesOf(G)
  {
    seq(|G|, k requires 0 <= k < |G| => NodeValue(G[k].name, Incoming(G, G[k].name)))
  }

  /** Turning the edges of `un` yields `Edge(w, c)` once per edge `un -> v` of cost `c`, and only for `w == un`. */
  lemma {:induction false} TurnedCount(E: seq<Edge>, un: string, v: string, w: string, c: Cost)
    ensures multiset(Turned(E, un, v))[Edge(w, c)] == if w == un then multiset(E)[Edge(v, c)] else 0
  {
    if |E| > 0 {
      var t := E[..|E| - 1];
      var e := E[|E| - 1];
      TurnedCount(t, un, v, w, c);
      assert multiset(E) == multiset(t) + multiset([e]) by {
        assert E == t + [e];
      }
      var tail := if e.destination == v then [Edge(un, e.cost)] else [];
      assert multiset(Turned(E, un, v)) == multiset(Turned(t, un, v)) + multiset(tail);
      TurnedOne(e, un, v, w, c);
    }
  }

  /** The one edge `e` of `un` turns into `Edge(w, c)` as often as it is `Edge(v, c)`, and only for `w == un`. */
  lemma TurnedOne(e: Edge, un: string, v: string, w: string, c: Cost)
    ensures multiset(if e.destination == v then [Edge(un, e.cost)] else [])[Edge(w, c)] == if w == un then multiset([e])[Edge(v, c)] else 0
  {
  }

  /**
   * Each edge `w -> v` of cost `c` of the graph becomes exactly one edge
   * `v -> w` of cost `c` of the reversed node `v`, and the reversed node has
   * no other edges.
   */
  lemma {:induction false} IncomingCount(G: seq<NodeValue>, v: string, w: string, c: Cost)
    requires Distinct(NamesOf(G))
    ensures multiset(Incoming(G, v))[Edge(w, c)] ==
      if w in NamesOf(G) then multiset(G[FirstOf(NamesOf(G), w)].edges)[Edge(v, c)] else 0
  {
    if |G| > 0 {
      var H := G[..|G| - 1];
      var u := G[|G| - 1];
      assert NamesOf(G) == NamesOf(H) + [u.name];
      assert Distinct(NamesOf(H)) by {
        forall i, j | 0 <= i < j < |H|
          ensures NamesOf(H)[i] != NamesOf(H)[j]
        {
          assert NamesOf(G)[i] != NamesOf(G)[j];
        }
      }
      IncomingCount(H, v, w, c);
      TurnedCount(u.edges, u.name, v, w, c);
      if w == u.name {
        forall i | 0 <= i < |H|
          ensures NamesOf(H)[i] != w
        {
          assert NamesOf(G)[i] != NamesOf(G)[|G| - 1];
        }
        assert FirstOf(NamesOf(G), w) == |G| - 1;
      } else if w in NamesOf(H) {
        var k := FirstOf(NamesOf(H), w);
        assert NamesOf(G)[k] == w;
        DistinctFirstOf(NamesOf(G), k);
        assert G[k] == H[k];
      } else {
        assert w !in NamesOf(G);
      }
    }
  }

  /** In the doubly reversed node `k`, the edge `e` occurs as often as in node `k` itself. */
  lemma ReverseTwiceCount(G: seq<NodeValue>, k: nat, e: Edge)
    requires Distinct(NamesOf(G)) && Closed(G) && k < |G|
    ensures multiset(Incoming(Reverse(G), G[k].name))[e] == multiset(G[k].edges)[e]
  {
    var R := Reverse(G);
    var names := NamesOf(G);
    var v := G[k].name;
    DistinctFirstOf(names, k);
    IncomingCount(R, v, e.destination, e.cost);
    if e.destination in names {
      var t := FirstOf(names, e.destination);
      assert R[t].edges == Incoming(G, e.destination);
      IncomingCount(G, e.destination, v, e.cost);
    } else {
      forall i | 0 <= i < |G[k].edges|
        ensures G[k].edges[i] != e
      {
        assert G[k].edges[i].destination in names;
      }
    }
  }

  /** Reversing twice gives every node back the same multiset of edges. */
  lemma ReverseTwice(G: seq<NodeValue>)
    requires Distinct(NamesOf(G)) && Closed(G)
    ensures |Reverse(Reverse(G))| == |G|
    ensures forall k :: 0 <= k < |G| ==> Reverse(Reverse(G))[k].name == G[k].name
    ensures forall k :: 0 <= k < |G| ==> multiset(Reverse(Reverse(G))[k].edges) == multiset(G[k].edges)
  {
    var R := Reverse(G);
    forall k | 0 <= k < |G|
      ensures multiset(Reverse(R)[k].edges) == multiset(G[k].edges)
    {
      assert Reverse(R)[k].edges == Incoming(R, G[k].name);
      forall e: Edge
        ensures multiset(Incoming(R, G[k].name))[e] == multiset(G[k].edges)[e]
      {
        ReverseTwiceCount(G, k, e);
      }
      assert multiset(Incoming(R, G[k].name)) == multiset(G[k].edges);
    }
  }
}
