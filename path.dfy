/**
 * Paths in a weighted graph (code/Path.py): a source, a target, the list of
 * nodes passed through, the edges crossed and the running total cost.
 */
module Paths {
  import opened Wrappers
  import opened Distance
  import opened Seqs
  import opened Nodes

  datatype PathError = Disconnected

  /** The sum of the costs of `E`. */
  function SumCosts(E: seq<Edge>): (s: real)
    ensures s >= 0.0
  {
    if |E| == 0 then 0.0 else SumCosts(E[..|E| - 1]) + E[|E| - 1].cost
  }

  lemma {:induction false} SumCostsAppend(a: seq<Edge>, b: seq<Edge>)
    ensures SumCosts(a + b) == SumCosts(a) + SumCosts(b)
    decreases |b|
  {
    if |b| == 0 {
      assert a + b == a;
    } else {
      assert (a + b)[..|a + b| - 1] == a + b[..|b| - 1];
      SumCostsAppend(a, b[..|b| - 1]);
    }
  }

  /** The nodes of `s` other than `x`, in order. */
  function Skip(s: seq<NodeValue>, x: NodeValue): (t: seq<NodeValue>)
    ensures |t| <= |s|
    ensures forall v :: v in t ==> v in s && v != x
  {
    if |s| == 0 then []
    else Skip(s[..|s| - 1], x) + (if s[|s| - 1] == x then [] else [s[|s| - 1]])
  }

  /** The first edge of `u` to `v` exists and is `e`. */
  ghost predicate FirstEdge(u: NodeValue, v: NodeValue, e: Edge) {
    var k := FirstIndex(u.edges, v.name);
    k < |u.edges| && u.edges[k] == e
  }

  /** `e` is the edge `add_connection` takes from `u` to `v`. */
  ghost predicate Link(u: NodeValue, v: NodeValue, e: Edge) {
    FirstEdge(u, v, e) && e.destination == v.name
  }

  /** Every edge of the path is the one taken from the node before it to the node after it. */
  ghost predicate Connected(nodes: seq<NodeValue>, edges: seq<Edge>) {
    |nodes| == |edges| + 1 && forall i :: 0 <= i < |edges| ==> Link(nodes[i], nodes[i + 1], edges[i])
  }

  /** One more link at the end keeps a path connected. */
  lemma ConnectedSnoc(nodes: seq<NodeValue>, edges: seq<Edge>, v: NodeValue, e: Edge)
    requires Connected(nodes, edges) && Link(nodes[|nodes| - 1], v, e)
    ensures Connected(nodes + [v], edges + [e])
  {
    var N := nodes + [v];
    var E := edges + [e];
    forall i | 0 <= i < |E|
      ensures Link(N[i], N[i + 1], E[i])
    {
      if i < |edges| {
        assert N[i] == nodes[i] && N[i + 1] == nodes[i + 1] && E[i] == edges[i];
      }
    }
  }

  class Path {
    var source: NodeValue
    var target: NodeValue
    var nodes: seq<NodeValue>
    var edges: seq<Edge>
    var totalCost: real

    /** The invariant of every path: connected from `source` to `target`, with the cost of its edges. */
    ghost predicate Valid()
      reads this
    {
      Connected(nodes, edges) && nodes[0] == source && nodes[|nodes| - 1] == target && totalCost == SumCosts(edges)
    }

    /** `Path(source)`: only the source, no edges, cost 0. */
    constructor (s: NodeValue)
      ensures Valid()
      ensures source == s && target == s && nodes == [s] && edges == [] && totalCost == 0.0
    {
      source := s;
      target := s;
      nodes := [s];
      edges := [];
      totalCost := 0.0;
    }

    /**
     * `add_connection(next)`: appends the first edge of the target that leads
     * to `next` and moves the target there; with no such edge it refuses and
     * changes nothing.
     */
    method AddConnection(next: NodeValue) returns (r: Outcome<PathError>)
      requires Valid()
      modifies this
      ensures Valid()
      ensures r.Fail? <==> !HasEdgeTo(old(target).edges, next.name)
      ensures r.Fail? ==> r.error == Disconnected && unchanged(this)
      ensures r.Pass? ==> var e := old(target).edges[FirstIndex(old(target).edges, next.name)];
        && edges == old(edges) + [e] && nodes == old(nodes) + [next]
        && target == next && source == old(source) && totalCost == old(totalCost) + e.cost
    {
      var i := 0;
      while i < |target.edges|
        invariant 0 <= i <= |target.edges|
        invariant forall j :: 0 <= j < i ==> target.edges[j].destination != next.name
      {
        var e := target.edges[i];
        if e.destination == next.name {
          assert FirstIndex(target.edges, next.name) == i;
          assert Link(target, next, e);
          ConnectedSnoc(nodes, edges, next, e);
          SumCostsAppend(edges, [e]);
          edges := edges + [e];
          totalCost := totalCost + e.cost;
          nodes := nodes + [next];
          target := next;
          return Pass;
        }
        i := i + 1;
      }
      r := Fail(Disconnected);
    }

    /**
     * `__add__(other)`: extends this path by every node of `other` except
     * `other`'s source, one connection at a time; the first disconnected node
     * stops it with the nodes before it already added.
     */
    method Add(other: Path) returns (r: Outcome<PathError>)
      requires Valid() && other.Valid() && other != this
      modifies this
      ensures Valid()
      ensures source == old(source)
      ensures |old(edges)| <= |edges| && edges[..|old(edges)|] == old(edges)
      ensures exists k :: 0 <= k <= |other.nodes| && nodes == old(nodes) + Skip(other.nodes[..k], other.source)
      ensures r.Pass? ==> nodes == old(nodes) + Skip(other.nodes, other.source)
      ensures r.Fail? ==> r.error == Disconnected
      ensures r.Fail? ==> exists k ::
        && 0 <= k < |other.nodes| && other.nodes[k] != other.source
        && nodes == old(nodes) + Skip(other.nodes[..k], other.source) && !HasEdgeTo(target.edges, other.nodes[k].name)
      ensures old(target) == other.source && (forall i :: 1 <= i < |other.nodes| ==> other.nodes[i] != other.source) ==>
        r.Pass? && nodes == old(nodes) + other.nodes[1..] && edges == old(edges) + other.edges
        && totalCost == old(totalCost) + other.totalCost
    {
      var on := other.nodes;
      var src := other.source;
      ghost var linked := target == src && (forall i :: 1 <= i < |on| ==> on[i] != src);
      ghost var k;
      r, k := AddEach(on, src, other.edges, linked);
      if r.Pass? {
        assert on[..k] == on;
      }
      if r.Fail? {
        assert on == other.nodes && k < |other.nodes| && other.nodes[k] != other.source;
      }
      if r.Pass? && linked {
        LinkedJoin(on, other.edges, other.totalCost, old(nodes), old(edges), old(totalCost), nodes, edges, totalCost);
      }
    }

    /**
     * The loop of `__add__`: `add_connection` for every node of `on` other
     * than `src`, stopping at the first that fails; `k` nodes of `on` are
     * handled. When `on` is a path from the target on which `src` does not
     * recur (`linked`), none fails.
     */
    method AddEach(on: seq<NodeValue>, src: NodeValue, ghost oe: seq<Edge>, ghost linked: bool)
      returns (r: Outcome<PathError>, ghost k: nat)
      requires Valid()
      requires linked ==> Connected(on, oe) && on[0] == src && target == src && (forall i :: 1 <= i < |on| ==> on[i] != src)
      modifies this
      ensures Valid() && source == old(source)
      ensures |old(edges)| <= |edges| && edges[..|old(edges)|] == old(edges)
      ensures k <= |on| && nodes == old(nodes) + Skip(on[..k], src)
      ensures r.Pass? ==> k == |on|
      ensures r.Fail? ==> r.error == Disconnected && k < |on| && on[k] != src && !HasEdgeTo(target.edges, on[k].name)
      ensures linked ==> r.Pass?
    {
      ghost var n0 := nodes;
      ghost var e0 := edges;
      ghost var addedEdges: seq<Edge> := [];
      ghost var added: seq<NodeValue> := [];
      r := Pass;
      k := 0;
      var i := 0;
      while i < |on| && r.Pass?
        invariant 0 <= i <= |on| && k == i
        invariant Valid() && source == old(source)
        invariant nodes == n0 + added && added == Skip(on[..i], src)
        invariant edges == e0 + addedEdges
        invariant r.Fail? ==> r.error == Disconnected && i < |on| && on[i] != src && !HasEdgeTo(target.edges, on[i].name)
        invariant linked ==> r.Pass?
        decreases |on| - i, if r.Pass? then 1 else 0
      {
        var v := on[i];
        SkipSnoc(on, src, i);
        if v != src {
          if linked {
            LinkedNext(on, oe, n0, nodes, i);
          }
          r := AddConnection(v);
          if r.Pass? {
            AppendAssoc(e0, addedEdges, [edges[|edges| - 1]]);
            addedEdges := addedEdges + [edges[|edges| - 1]];
            AppendAssoc(n0, added, [v]);
            added := added + [v];
            i := i + 1;
          }
        } else {
          i := i + 1;
        }
        k := i;
      }
    }
  }

  /** While `__add__` continues a path `on` from its source, the next node is reachable from the current target. */
  lemma LinkedNext(on: seq<NodeValue>, oe: seq<Edge>, n0: seq<NodeValue>, nodes: seq<NodeValue>, i: nat)
    requires Connected(on, oe) && 0 < i < |on| && (forall j :: 1 <= j < |on| ==> on[j] != on[0])
    requires 0 < |n0| && n0[|n0| - 1] == on[0] && nodes == n0 + Skip(on[..i], on[0])
    ensures HasEdgeTo(nodes[|nodes| - 1].edges, on[i].name)
  {
    SkipOnlyFirst(on, on[0], i);
    assert Link(on[i - 1], on[i], oe[i - 1]);
    assert nodes[|nodes| - 1] == on[i - 1];
  }

  /** When `__add__` continues a path `on` from its source, the result is the two paths joined. */
  lemma LinkedResult(on: seq<NodeValue>, oe: seq<Edge>, n0: seq<NodeValue>, e0: seq<Edge>, nodes: seq<NodeValue>, edges: seq<Edge>)
    requires Connected(on, oe) && (forall j :: 1 <= j < |on| ==> on[j] != on[0])
    requires Connected(n0, e0) && n0[|n0| - 1] == on[0]
    requires nodes == n0 + Skip(on, on[0]) && Connected(nodes, edges)
    ensures nodes == n0 + on[1..] && edges == e0 + oe
  {
    SkipOnlyFirst(on, on[0], |on|);
    assert on[..|on|] == on;
    ConnectedAppend(n0, e0, on, oe);
    ConnectedUnique(nodes, edges, e0 + oe);
  }

  /** Skipping `x` in one more element of `s`. */
  lemma SkipSnoc(s: seq<NodeValue>, x: NodeValue, i: nat)
    requires i < |s|
    ensures s[i] == x ==> Skip(s[..i + 1], x) == Skip(s[..i], x)
    ensures s[i] != x ==> Skip(s[..i + 1], x) == Skip(s[..i], x) + [s[i]]
  {
    assert s[..i + 1][..i] == s[..i];
    assert Skip(s[..i], x) + [] == Skip(s[..i], x);
  }

  /** `LinkedResult` with the costs: the joined path costs what the two cost together. */
  lemma LinkedJoin(on: seq<NodeValue>, oe: seq<Edge>, oc: real, n0: seq<NodeValue>, e0: seq<Edge>, c0: real,
                   nodes: seq<NodeValue>, edges: seq<Edge>, c: real)
    requires Connected(on, oe) && (forall j :: 1 <= j < |on| ==> on[j] != on[0]) && oc == SumCosts(oe)
    requires Connected(n0, e0) && n0[|n0| - 1] == on[0] && c0 == SumCosts(e0)
    requires nodes == n0 + Skip(on, on[0]) && Connected(nodes, edges) && c == SumCosts(edges)
    ensures nodes == n0 + on[1..] && edges == e0 + oe && c == c0 + oc
  {
    LinkedResult(on, oe, n0, e0, nodes, edges);
    SumCostsAppend(e0, oe);
  }

  /** When `x` heads `s` and does not recur, skipping `x` in a prefix of `s` drops just the head. */
  lemma {:induction false} SkipOnlyFirst(s: seq<NodeValue>, x: NodeValue, i: nat)
    requires 0 < |s| && s[0] == x && (forall j :: 1 <= j < |s| ==> s[j] != x)
    requires i <= |s|
    ensures Skip(s[..i], x) == if i == 0 then [] else s[1..i]
  {
    if i > 0 {
      SkipOnlyFirst(s, x, i - 1);
      assert s[..i][..i - 1] == s[..i - 1];
      if i > 1 {
        assert s[1..i] == s[1..i - 1] + [s[i - 1]];
      }
    }
  }

  /** The nodes of a path determine its edges. */
  lemma ConnectedUnique(N: seq<NodeValue>, E1: seq<Edge>, E2: seq<Edge>)
    requires Connected(N, E1) && Connected(N, E2)
    ensures E1 == E2
  {
    forall i | 0 <= i < |E1|
      ensures E1[i] == E2[i]
    {
      assert Link(N[i], N[i + 1], E1[i]) && Link(N[i], N[i + 1], E2[i]);
    }
  }

  /** A path followed by one that starts where it ends is a path. */
  lemma ConnectedAppend(N1: seq<NodeValue>, E1: seq<Edge>, N2: seq<NodeValue>, E2: seq<Edge>)
    requires Connected(N1, E1) && Connected(N2, E2) && N1[|N1| - 1] == N2[0]
    ensures Connected(N1 + N2[1..], E1 + E2)
  {
    var N := N1 + N2[1..];
    var E := E1 + E2;
    forall i | 0 <= i < |E|
      ensures Link(N[i], N[i + 1], E[i])
    {
      if i < |E1| {
        assert Link(N1[i], N1[i + 1], E1[i]);
        assert N[i + 1] == N1[i + 1];
      } else {
        var j := i - |E1|;
        assert Link(N2[j], N2[j + 1], E2[j]);
        assert N[i] == N2[j];
        assert N[i + 1] == N2[j + 1];
      }
    }
  }
}
