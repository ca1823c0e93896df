/**
 * One direction of `bidirectional_dijkstra` (code/Dijkstra.py:39-72): a
 * dictionary of unsettled distances, a dictionary of predecessors and the
 * list of settled triplets, with the three helpers that fill, scan and
 * advance them. Dictionaries are keyed by node name; the distance
 * dictionary keeps insertion order, which decides ties in the nearest-node
 * scan.
 */
module Searches {
  import opened Wrappers
  import opened Distance
  import opened Seqs
  import opened Nodes
  import opened Reversal
  import opened DijkstraHeaps
  import opened ShortestPaths

  /** One key of a distance dictionary: the node it was inserted with and its distance. */
  datatype Entry = Entry(node: NodeValue, distance: Dist)

  /** The dictionaries and the result list of one direction. */
  datatype Search = Search(dist: seq<Entry>, pred: map<string, Option<NodeValue>>, result: seq<Triplet>)

  datatype SearchError =
    | MissingKey    // KeyError: a settled node has no predecessor entry
    | NoResult      // IndexError: a direction settled no node
    | Unreversible  // get_reversed_graph fails

  /** The names of the keys, in insertion order. */
  function Keys(D: seq<Entry>): (ks: seq<string>)
    ensures |ks| == |D| && forall q :: 0 <= q < |D| ==> ks[q] == D[q].node.name
  {
    seq(|D|, q requires 0 <= q < |D| => D[q].node.name)
  }

  /** `D[n]`. */
  function DistOf(D: seq<Entry>, n: string): Dist
    requires n in Keys(D)
  {
    D[FirstOf(Keys(D), n)].distance
  }

  /** `D[v] = d`: a key already present keeps its place and its node; a new key goes last. */
  function Put(D: seq<Entry>, v: NodeValue, d: Dist): (D': seq<Entry>)
    ensures v.name in Keys(D) ==> Keys(D') == Keys(D)
    ensures v.name !in Keys(D) ==> Keys(D') == Keys(D) + [v.name] && D'[|D|] == Entry(v, d)
    ensures v.name in Keys(D') && DistOf(D', v.name) == d
    ensures forall q :: 0 <= q < |D| && q != FirstOf(Keys(D), v.name) ==> D'[q] == D[q]
    ensures forall q :: 0 <= q < |D| ==> D'[q].node == D[q].node
  {
    var k := FirstOf(Keys(D), v.name);
    if k < |D| then
      var D' := D[k := Entry(D[k].node, d)];
      assert Keys(D') == Keys(D);
      D'
    else
      var D' := D + [Entry(v, d)];
      assert Keys(D') == Keys(D) + [v.name];
      FirstOfSnoc(Keys(D), v.name, v.name);
      D'
  }

  /** `D.pop(n)`. */
  function PopKey(D: seq<Entry>, n: string): (D': seq<Entry>)
    requires n in Keys(D)
    ensures |D'| == |D| - 1
    ensures forall q :: 0 <= q < |D'| ==> D'[q] == D[if q < FirstOf(Keys(D), n) then q else q + 1]
  {
    var k := FirstOf(Keys(D), n);
    D[..k] + D[k + 1..]
  }

  /** Popping a key of a dictionary removes that key and no other. */
  lemma PopKeyKeys(D: seq<Entry>, n: string)
    requires n in Keys(D) && Distinct(Keys(D))
    ensures Distinct(Keys(PopKey(D, n)))
    ensures forall m :: m in Keys(PopKey(D, n)) <==> m in Keys(D) && m != n
  {
    var k := FirstOf(Keys(D), n);
    var D' := PopKey(D, n);
    forall m
      ensures m in Keys(D') <==> m in Keys(D) && m != n
    {
      PopKeyMember(D, n, m);
    }
    forall i, j | 0 <= i < j < |D'|
      ensures Keys(D')[i] != Keys(D')[j]
    {
      assert Keys(D)[if i < k then i else i + 1] != Keys(D)[if j < k then j else j + 1];
    }
  }

  lemma PopKeyMember(D: seq<Entry>, n: string, m: string)
    requires n in Keys(D) && Distinct(Keys(D))
    ensures m in Keys(PopKey(D, n)) <==> m in Keys(D) && m != n
  {
    var k := FirstOf(Keys(D), n);
    var D' := PopKey(D, n);
    if m in Keys(D') {
      var q :| 0 <= q < |D'| && Keys(D')[q] == m;
      assert Keys(D)[if q < k then q else q + 1] == m;
      DistinctFirstOf(Keys(D), if q < k then q else q + 1);
    }
    if m in Keys(D) && m != n {
      var q :| 0 <= q < |D| && Keys(D)[q] == m;
      assert q != k;
      assert Keys(D')[if q < k then q else q - 1] == m;
    }
  }

  /** The distance dictionary `__initialize_search` builds: every node, in order, unreached. */
  function Unreached(G: seq<NodeValue>): (D: seq<Entry>)
    ensures Keys(D) == NamesOf(G)
  {
    seq(|G|, i requires 0 <= i < |G| => Entry(G[i], Inf))
  }

  /** The predecessor dictionary `__initialize_search` builds: no node has one. */
  function Unpreceded(G: seq<NodeValue>): (P: map<string, Option<NodeValue>>)
    ensures forall n :: n in P <==> n in NamesOf(G)
    ensures forall n :: n in P ==> P[n].None?
  {
    map n | n in NamesOf(G) :: None
  }

  /** A direction before its first step: `start` at distance 0 (code/Dijkstra.py:103-104). */
  function Start(G: seq<NodeValue>, start: NodeValue): Search {
    Search(Put(Unreached(G), start, Fin(0.0)), Unpreceded(G), [])
  }

  // ---------------------------------------------------------------------
  // The three helpers.

  /**
   * `__initialize_search(graph, ...)`: for every node in order, its
   * distance becomes Inf and its predecessor None.
   */
  method InitializeSearch(G: seq<NodeValue>) returns (D: seq<Entry>, P: map<string, Option<NodeValue>>)
    requires Distinct(NamesOf(G))
    ensures D == Unreached(G) && P == Unpreceded(G)
  {
    D := [];
    P := map[];
    for i := 0 to |G|
      invariant D == Unreached(G[..i])
      invariant forall n :: n in P <==> n in NamesOf(G[..i])
      invariant forall n :: n in P ==> P[n].None?
    {
      assert G[i].name !in Keys(D) by {
        assert forall j :: 0 <= j < i ==> NamesOf(G)[j] != NamesOf(G)[i];
      }
      D := Put(D, G[i], Inf);
      P := P[G[i].name := None];
      assert G[..i + 1] == G[..i] + [G[i]];
      assert NamesOf(G[..i + 1]) == NamesOf(G[..i]) + [G[i].name];
    }
    assert G[..|G|] == G;
  }

  /** Index `k` holds the first of the smallest distances among the first `n` keys. */
  ghost predicate NearestIn(D: seq<Entry>, n: nat, k: nat) {
    && k < n <= |D|
    && (forall q :: 0 <= q < n ==> Le(D[k].distance, D[q].distance))
    && (forall q :: 0 <= q < k ==> Lt(D[k].distance, D[q].distance))
  }

  /** Index `k` holds the first of the smallest distances: the key `__find_nearest_node` returns. */
  ghost predicate Nearest(D: seq<Entry>, k: nat) {
    NearestIn(D, |D|, k)
  }

  /** The index `__find_nearest_node` keeps after scanning the first `n` keys. */
  function NearestAmong(D: seq<Entry>, n: nat): (k: nat)
    requires 0 < n <= |D|
    ensures NearestIn(D, n, k)
    decreases n
  {
    if n == 1 then LeFacts(); 0
    else
      var k := NearestAmong(D, n - 1);
      LeFacts();
      if Lt(D[n - 1].distance, D[k].distance) then n - 1 else k
  }

  /** The nearest key of a non-empty dictionary is the one the whole scan keeps. */
  lemma NearestIsAmong(D: seq<Entry>, k: nat)
    requires Nearest(D, k)
    ensures k == NearestAmong(D, |D|)
  {
    NearestUnique(D, k, NearestAmong(D, |D|));
  }

  /** Only one key is the nearest. */
  lemma NearestUnique(D: seq<Entry>, k1: nat, k2: nat)
    requires Nearest(D, k1) && Nearest(D, k2)
    ensures k1 == k2
  {
    assert Le(D[k1].distance, D[k2].distance) && Le(D[k2].distance, D[k1].distance);
  }

  /**
   * `__find_nearest_node`: a scan that keeps a key whose value is strictly
   * below the smallest so far, and the first key while none is kept; None
   * for an empty dictionary.
   */
  method FindNearestNode(D: seq<Entry>) returns (r: Option<NodeValue>)
    requires Distinct(Keys(D))
    ensures r.None? <==> |D| == 0
    ensures r.Some? ==> r.value.name in Keys(D) && D[FirstOf(Keys(D), r.value.name)].node == r.value
    ensures r.Some? ==> Nearest(D, FirstOf(Keys(D), r.value.name))
  {
    var minDistance := Inf;
    var nearest: Option<NodeValue> := None;
    ghost var k := 0;
    LeFacts();
    for i := 0 to |D|
      invariant i == 0 ==> nearest.None? && minDistance == Inf
      invariant i > 0 ==> k < i && nearest == Some(D[k].node) && minDistance == D[k].distance && NearestIn(D, i, k)
    {
      var value := D[i].distance;
      if Lt(value, minDistance) {
        minDistance := value;
        nearest := Some(D[i].node);
        k := i;
      }
      if nearest.None? {
        nearest := Some(D[i].node);
        k := i;
      }
    }
    r := nearest;
    if r.Some? {
      assert Keys(D)[k] == r.value.name;
      DistinctFirstOf(Keys(D), k);
    }
  }

  /** Relaxing the edge `e` of `u` (code/Dijkstra.py:59-66). */
  function Relax(S: Search, u: NodeValue, e: Edge): (T: Search)
    requires u.name in Keys(S.dist)
    ensures Keys(T.dist) == Keys(S.dist) && T.result == S.result
  {
    var nd := Add(DistOf(S.dist, u.name), e.cost);
    var j := FirstOf(Keys(S.dist), e.destination);
    if j < |S.dist| && Lt(nd, S.dist[j].distance) then
      var D := S.dist[j := Entry(S.dist[j].node, nd)];
      assert Keys(D) == Keys(S.dist);
      Search(D, S.pred[e.destination := Some(u)], S.result)
    else S
  }

  /** Relaxing the edges `E` of `u`, in order. */
  function RelaxAll(S: Search, u: NodeValue, E: seq<Edge>): (T: Search)
    requires u.name in Keys(S.dist)
    ensures Keys(T.dist) == Keys(S.dist) && T.result == S.result
    decreases |E|
  {
    if |E| == 0 then S else Relax(RelaxAll(S, u, E[..|E| - 1]), u, E[|E| - 1])
  }

  /** What `__explore_node_neighbors(u, ...)` leaves, or the KeyError of line 66. */
  function Explored(S: Search, u: NodeValue): Result<Search, SearchError>
    requires u.name in Keys(S.dist)
  {
    var T := RelaxAll(S, u, u.edges);
    if u.name !in T.pred then Failure(MissingKey)
    else Success(Search(PopKey(T.dist, u.name), T.pred, T.result + [Triplet(u, DistOf(T.dist, u.name), T.pred[u.name])]))
  }

  /** Every settled distance is finite. */
  ghost predicate FiniteResult(S: Search) {
    forall i :: 0 <= i < |S.result| ==> S.result[i].distance.Fin?
  }

  /** Exploring a key pops it: one key fewer, still distinct, and `u` settled last. */
  lemma ExploredKeys(S: Search, u: NodeValue)
    requires u.name in Keys(S.dist) && Distinct(Keys(S.dist)) && Explored(S, u).Success?
    ensures |Explored(S, u).value.dist| == |S.dist| - 1 && Distinct(Keys(Explored(S, u).value.dist))
    ensures u.name !in Keys(Explored(S, u).value.dist)
    ensures DistOf(S.dist, u.name).Fin? && FiniteResult(S) ==> FiniteResult(Explored(S, u).value)
  {
    var T := RelaxAll(S, u, u.edges);
    PopKeyKeys(T.dist, u.name);
    RelaxAllKeepsOwn(S, u, u.edges);
  }

  /**
   * `__explore_node_neighbors(u, ...)`: relaxes every edge of `u` into a
   * destination still in the dictionary on strict improvement, appends
   * `[u, D[u], P[u]]` and pops `u`. It fails exactly when `u` has no
   * predecessor entry, since no edge of `u` can lower `u` itself.
   */
  method ExploreNodeNeighbors(u: NodeValue, S: Search) returns (r: Result<Search, SearchError>)
    requires u.name in Keys(S.dist)
    ensures r == Explored(S, u)
    ensures r.Failure? <==> u.name !in S.pred
    ensures r.Failure? ==> r.error == MissingKey
  {
    var T := S;
    for i := 0 to |u.edges|
      invariant T == RelaxAll(S, u, u.edges[..i])
    {
      var e := u.edges[i];
      var nd := Add(DistOf(T.dist, u.name), e.cost);
      var j := FirstOf(Keys(T.dist), e.destination);
      if j < |T.dist| && Lt(nd, T.dist[j].distance) {
        T := Search(T.dist[j := Entry(T.dist[j].node, nd)], T.pred[e.destination := Some(u)], T.result);
      }
      assert u.edges[..i + 1][..i] == u.edges[..i];
    }
    assert u.edges[..|u.edges|] == u.edges;
    RelaxAllKeepsOwn(S, u, u.edges);
    if u.name !in T.pred {
      return Failure(MissingKey);
    }
    r := Success(Search(PopKey(T.dist, u.name), T.pred, T.result + [Triplet(u, DistOf(T.dist, u.name), T.pred[u.name])]));
  }

  /** No edge of `u` lowers `u`'s own distance or gives `u` a predecessor. */
  lemma {:induction false} RelaxAllKeepsOwn(S: Search, u: NodeValue, E: seq<Edge>)
    requires u.name in Keys(S.dist)
    ensures DistOf(RelaxAll(S, u, E).dist, u.name) == DistOf(S.dist, u.name)
    ensures u.name in RelaxAll(S, u, E).pred <==> u.name in S.pred
    ensures u.name in S.pred ==> RelaxAll(S, u, E).pred[u.name] == S.pred[u.name]
    decreases |E|
  {
    if |E| > 0 {
      var T := RelaxAll(S, u, E[..|E| - 1]);
      RelaxAllKeepsOwn(S, u, E[..|E| - 1]);
      var e := E[|E| - 1];
      var k := FirstOf(Keys(T.dist), u.name);
      var j := FirstOf(Keys(T.dist), e.destination);
      assert j == k ==> e.destination == u.name;
      assert e.destination == u.name ==> !Lt(Add(DistOf(T.dist, u.name), e.cost), T.dist[k].distance);
    }
  }

  // ---------------------------------------------------------------------
  // The invariant of one direction.

  /**
   * The predecessor `p` accounts for the distance `d` of the node named `n`
   * in a search from `s`: the start is at 0 without predecessor, another
   * node without predecessor is unreached, and a predecessor is a node
   * settled among the first `b` of `R` whose distance plus its cheapest
   * edge to `n` is `d`.
   */
  ghost predicate Accounts(s: string, R: seq<Triplet>, b: nat, n: string, d: Dist, p: Option<NodeValue>) {
    && (d.Fin? ==> d.r >= 0.0)
    && (n == s ==> p.None? && d == Fin(0.0))
    && (n != s && p.None? ==> d.Inf?)
    && (p.Some? ==> d.Fin? && exists j :: 0 <= j < b && j < |R| && R[j].node == p.value && d == Plus(R[j].distance, MinCost(p.value.edges, n)))
  }

  /**
   * The result list of a search of `G` from `s`: distinct nodes of `G`, each
   * at a finite distance that its predecessor, settled before it, accounts
   * for.
   */
  ghost predicate Searched(G: seq<NodeValue>, s: string, R: seq<Triplet>) {
    && Distinct(NamesOf(G)) && s in NamesOf(G) && Distinct(TNames(R))
    && (forall i :: 0 <= i < |R| ==> R[i].node.name in NamesOf(G) && R[i].node == NodeNamed(G, R[i].node.name) && R[i].distance.Fin?)
    && (forall i :: 0 <= i < |R| ==> Accounts(s, R, i, R[i].node.name, R[i].distance, R[i].predecessor))
  }

  /**
   * The dictionaries of a search of `G` from `s`: every node of `G` is either
   * a key or settled, never both; each key carries its node of `G`, has a
   * predecessor entry, and its predecessor, settled, accounts for its distance.
   */
  ghost predicate Pending(G: seq<NodeValue>, s: string, S: Search) {
    && Distinct(Keys(S.dist)) && |S.dist| + |S.result| == |G|
    && (forall n :: n in NamesOf(G) ==> n in Keys(S.dist) || n in TNames(S.result))
    && (forall n :: n in Keys(S.dist) ==> n !in TNames(S.result))
    && (forall q :: 0 <= q < |S.dist| ==> S.dist[q].node.name in NamesOf(G) && S.dist[q].node == NodeNamed(G, S.dist[q].node.name))
    && (forall q :: 0 <= q < |S.dist| ==>
          S.dist[q].node.name in S.pred && Accounts(s, S.result, |S.result|, S.dist[q].node.name, S.dist[q].distance, S.pred[S.dist[q].node.name]))
  }

  /** The invariant of one direction between two steps. */
  ghost predicate Searching(G: seq<NodeValue>, s: string, S: Search) {
    Searched(G, s, S.result) && Pending(G, s, S)
  }

  /** A search that settled anything settled its start first. */
  lemma SettledFirst(G: seq<NodeValue>, s: string, R: seq<Triplet>)
    requires Searched(G, s, R) && |R| > 0
    ensures R[0].node.name == s && s in TNames(R) && FirstOf(TNames(R), s) == 0
  {
    assert Accounts(s, R, 0, R[0].node.name, R[0].distance, R[0].predecessor);
  }

  /** A settled node other than the start of its search has a finite distance, hence a predecessor. */
  lemma SettledAt(G: seq<NodeValue>, s: string, R: seq<Triplet>, n: string) returns (i: nat)
    requires Searched(G, s, R) && n in TNames(R)
    ensures i < |R| && i == FirstOf(TNames(R), n) && R[i] == At(R, n) && R[i].node.name == n
    ensures n in NamesOf(G) && R[i].node == NodeNamed(G, n) && R[i].distance.Fin?
    ensures Accounts(s, R, i, n, R[i].distance, R[i].predecessor)
    ensures n == s ==> R[i].distance == Fin(0.0)
    ensures n != s ==> R[i].predecessor.Some?
  {
    i := FirstOf(TNames(R), n);
  }

  /** A direction starting from a node of `G` satisfies the invariant. */
  lemma StartSearching(G: seq<NodeValue>, v: NodeValue)
    requires Distinct(NamesOf(G)) && v.name in NamesOf(G)
    ensures Searching(G, v.name, Start(G, v))
  {
    var S := Start(G, v);
    var U := Unreached(G);
    var k := FirstOf(Keys(U), v.name);
    forall q | 0 <= q < |S.dist|
      ensures S.dist[q].node.name in NamesOf(G) && S.dist[q].node == NodeNamed(G, S.dist[q].node.name)
      ensures Accounts(v.name, [], 0, S.dist[q].node.name, S.dist[q].distance, S.pred[S.dist[q].node.name])
    {
      assert S.dist[q].node == G[q];
      DistinctFirstOf(NamesOf(G), q);
      if q != k {
        assert Keys(U)[q] != v.name;
      }
    }
  }

  /** The keys of a start are distinct, the start is a key, and nothing is settled. */
  lemma StartKeys(G: seq<NodeValue>, v: NodeValue)
    requires Distinct(NamesOf(G))
    ensures Distinct(Keys(Start(G, v).dist)) && v.name in Keys(Start(G, v).dist) && Start(G, v).result == []
    ensures |Start(G, v).dist| > 0
    ensures forall n :: n in NamesOf(G) ==> n in Keys(Start(G, v).dist)
  {
    if v.name !in NamesOf(G) {
      DistinctSnoc(NamesOf(G), v.name);
    }
  }

  /** The nearest key of a start is the start itself, at distance 0. */
  lemma StartNearest(G: seq<NodeValue>, v: NodeValue, k: nat)
    requires Distinct(NamesOf(G)) && Nearest(Start(G, v).dist, k)
    ensures Start(G, v).dist[k].node.name == v.name && Start(G, v).dist[k].distance == Fin(0.0)
  {
    var D := Start(G, v).dist;
    var z := FirstOf(Keys(D), v.name);
    assert D[z].distance == Fin(0.0);
    assert Le(D[k].distance, D[z].distance);
  }

  // ---------------------------------------------------------------------
  // One step keeps the invariant.

  /**
   * What relaxing the edges `E` of `u`, at distance `du`, did to the key at
   * `q`: its node is the same, it is no further than `du` plus the cheapest
   * edge of `E` to it, and either nothing changed or `u` became its
   * predecessor with exactly that distance, a strict improvement.
   */
  ghost predicate Improved(S: Search, T: Search, u: NodeValue, du: Dist, E: seq<Edge>, q: nat)
    requires q < |S.dist| && q < |T.dist|
  {
    var n := S.dist[q].node.name;
    && T.dist[q].node == S.dist[q].node
    && n in T.pred
    && Le(T.dist[q].distance, Plus(du, MinCost(E, n)))
    && ((n in S.pred && T.pred[n] == S.pred[n] && T.dist[q] == S.dist[q])
        || (T.pred[n] == Some(u) && T.dist[q].distance == Plus(du, MinCost(E, n)) && Lt(T.dist[q].distance, S.dist[q].distance)))
  }

  /** What relaxing `e` does to the key at `q`: lower it to `d(u) + e.cost` when that is smaller and `e` leads there, else nothing. */
  lemma RelaxEntry(T: Search, u: NodeValue, e: Edge, q: nat)
    requires u.name in Keys(T.dist) && Distinct(Keys(T.dist)) && q < |T.dist|
    ensures |Relax(T, u, e).dist| == |T.dist| && Relax(T, u, e).dist[q].node == T.dist[q].node
    ensures forall m :: m in T.pred ==> m in Relax(T, u, e).pred
    ensures var n := T.dist[q].node.name; var nd := Add(DistOf(T.dist, u.name), e.cost);
      if e.destination == n && Lt(nd, T.dist[q].distance) then
        Relax(T, u, e).dist[q].distance == nd && n in Relax(T, u, e).pred && Relax(T, u, e).pred[n] == Some(u)
      else
        Relax(T, u, e).dist[q] == T.dist[q] && (n in T.pred ==> n in Relax(T, u, e).pred && Relax(T, u, e).pred[n] == T.pred[n])
  {
    assert Keys(T.dist)[q] == T.dist[q].node.name;
    DistinctFirstOf(Keys(T.dist), q);
  }

  /** A strictly better route through `e` means `e` is the cheapest edge so far. */
  lemma PlusMinLower(du: Dist, M: Dist, c: real, dT: Dist)
    requires du.Fin? && Le(dT, Plus(du, M)) && Lt(Add(du, c), dT)
    ensures Min(M, Fin(c)) == Fin(c) && Plus(du, Fin(c)) == Add(du, c)
  {
  }

  /** No better route through `e` keeps the bound and the exact distance. */
  lemma PlusMinKeep(du: Dist, M: Dist, c: real, dT: Dist)
    requires du.Fin? && Le(dT, Plus(du, M)) && Le(dT, Add(du, c))
    ensures Le(dT, Plus(du, Min(M, Fin(c))))
    ensures dT == Plus(du, M) ==> dT == Plus(du, Min(M, Fin(c)))
  {
  }

  /** Relaxing one more edge `e` keeps `Improved` for the key at `q`. */
  lemma ImprovedStep(S: Search, T: Search, u: NodeValue, du: Dist, E: seq<Edge>, e: Edge, q: nat)
    requires u.name in Keys(T.dist) && Distinct(Keys(T.dist)) && du == DistOf(T.dist, u.name) && du.Fin?
    requires q < |S.dist| && |T.dist| == |S.dist| && Improved(S, T, u, du, E, q)
    ensures |Relax(T, u, e).dist| == |S.dist| && Improved(S, Relax(T, u, e), u, du, E + [e], q)
  {
    var n := S.dist[q].node.name;
    var nd := Add(du, e.cost);
    var dT := T.dist[q].distance;
    var M := MinCost(E, n);
    RelaxEntry(T, u, e, q);
    MinCostSnoc(E, e, n);
    if e.destination == n {
      if Lt(nd, dT) {
        PlusMinLower(du, M, e.cost, dT);
        LeFacts();
      } else {
        PlusMinKeep(du, M, e.cost, dT);
      }
    }
  }

  /** Relaxing the edges `E` of `u` leaves every key `Improved`. */
  lemma {:induction false} RelaxAllImproves(S: Search, u: NodeValue, E: seq<Edge>)
    requires u.name in Keys(S.dist) && Distinct(Keys(S.dist)) && DistOf(S.dist, u.name).Fin?
    ensures |RelaxAll(S, u, E).dist| == |S.dist|
    ensures forall n :: n in S.pred ==> n in RelaxAll(S, u, E).pred
    ensures forall q :: 0 <= q < |S.dist| && S.dist[q].node.name in S.pred ==>
      Improved(S, RelaxAll(S, u, E), u, DistOf(S.dist, u.name), E, q)
    decreases |E|
  {
    var du := DistOf(S.dist, u.name);
    if |E| == 0 {
      forall q | 0 <= q < |S.dist| && S.dist[q].node.name in S.pred
        ensures Improved(S, S, u, du, E, q)
      {
      }
    } else {
      var E' := E[..|E| - 1];
      var e := E[|E| - 1];
      assert E == E' + [e];
      var T := RelaxAll(S, u, E');
      RelaxAllImproves(S, u, E');
      RelaxAllKeepsOwn(S, u, E');
      forall q | 0 <= q < |S.dist| && S.dist[q].node.name in S.pred
        ensures Improved(S, RelaxAll(S, u, E), u, du, E, q)
      {
        ImprovedStep(S, T, u, du, E', e, q);
      }
    }
  }

  /** A larger result list still holds the predecessor that accounts for a distance. */
  lemma AccountsGrow(s: string, R: seq<Triplet>, x: Triplet, b: nat, n: string, d: Dist, p: Option<NodeValue>)
    requires Accounts(s, R, b, n, d, p) && b <= |R|
    ensures Accounts(s, R + [x], b, n, d, p)
  {
    if p.Some? {
      var j :| 0 <= j < b && j < |R| && R[j].node == p.value && d == Plus(R[j].distance, MinCost(p.value.edges, n));
      assert (R + [x])[j] == R[j];
    }
  }

  /** A key lowered by the node `x` just settled is accounted for by `x`. */
  lemma ImprovedAccounts(s: string, R: seq<Triplet>, x: Triplet, n: string, d0: Dist, p0: Option<NodeValue>, d: Dist, p: Option<NodeValue>)
    requires Accounts(s, R, |R|, n, d0, p0) && x.distance.Fin? && x.distance.r >= 0.0
    requires (p == p0 && d == d0) || (p == Some(x.node) && d == Plus(x.distance, MinCost(x.node.edges, n)) && Lt(d, d0))
    ensures Accounts(s, R + [x], |R| + 1, n, d, p)
  {
    if p == p0 && d == d0 {
      AccountsGrow(s, R, x, |R|, n, d, p);
    } else {
      var m := MinCost(x.node.edges, n);
      if m.Fin? {
        var i :| 0 <= i < |x.node.edges| && x.node.edges[i].destination == n && x.node.edges[i].cost == m.r;
      }
      assert (R + [x])[|R|] == x;
    }
  }

  /** Settling `x`, a node of `G` waiting with a predecessor that accounts for it, keeps the result list `Searched`. */
  lemma SettleSearched(G: seq<NodeValue>, s: string, R: seq<Triplet>, x: Triplet)
    requires Searched(G, s, R) && x.node.name !in TNames(R)
    requires x.node.name in NamesOf(G) && x.node == NodeNamed(G, x.node.name) && x.distance.Fin?
    requires Accounts(s, R, |R|, x.node.name, x.distance, x.predecessor)
    ensures Searched(G, s, R + [x])
  {
    var R' := R + [x];
    assert TNames(R') == TNames(R) + [x.node.name];
    DistinctSnoc(TNames(R), x.node.name);
    forall i | 0 <= i < |R'|
      ensures Accounts(s, R', i, R'[i].node.name, R'[i].distance, R'[i].predecessor)
    {
      if i < |R| {
        assert R'[i] == R[i];
        AccountsGrow(s, R, x, i, R[i].node.name, R[i].distance, R[i].predecessor);
      } else {
        AccountsGrow(s, R, x, |R|, x.node.name, x.distance, x.predecessor);
      }
    }
  }

  /**
   * Popping the settled `u` from the relaxed dictionaries of `S` and
   * appending `x` keeps them `Pending`.
   */
  lemma SettlePending(G: seq<NodeValue>, s: string, S: Search, T: Search, u: NodeValue, x: Triplet)
    requires Searching(G, s, S) && u.name in Keys(S.dist) && Keys(T.dist) == Keys(S.dist) && T.result == S.result
    requires x.node == u && x.distance == DistOf(S.dist, u.name) && x.distance.Fin? && x.distance.r >= 0.0
    requires forall q :: 0 <= q < |S.dist| && S.dist[q].node.name in S.pred ==> Improved(S, T, u, x.distance, u.edges, q)
    ensures Pending(G, s, Search(PopKey(T.dist, u.name), T.pred, S.result + [x]))
  {
    var k := FirstOf(Keys(S.dist), u.name);
    var R := S.result;
    var R' := R + [x];
    var D' := PopKey(T.dist, u.name);
    PopKeyKeys(T.dist, u.name);
    assert TNames(R') == TNames(R) + [u.name];
    forall q' | 0 <= q' < |D'|
      ensures D'[q'].node.name in NamesOf(G) && D'[q'].node == NodeNamed(G, D'[q'].node.name)
      ensures D'[q'].node.name in T.pred && Accounts(s, R', |R'|, D'[q'].node.name, D'[q'].distance, T.pred[D'[q'].node.name])
    {
      var q := if q' < k then q' else q' + 1;
      assert D'[q'] == T.dist[q];
      assert Improved(S, T, u, x.distance, u.edges, q);
      var n := S.dist[q].node.name;
      ImprovedAccounts(s, R, x, n, S.dist[q].distance, S.pred[n], T.dist[q].distance, T.pred[n]);
    }
  }

  /**
   * Exploring a waiting node at a finite distance succeeds, appends it with
   * its distance and predecessor, and keeps the invariant.
   */
  lemma ExploreKeeps(G: seq<NodeValue>, s: string, S: Search, u: NodeValue)
    requires Searching(G, s, S) && u.name in Keys(S.dist) && S.dist[FirstOf(Keys(S.dist), u.name)].node == u
    requires DistOf(S.dist, u.name).Fin?
    ensures Explored(S, u).Success?
    ensures Explored(S, u).value.result == S.result + [Triplet(u, DistOf(S.dist, u.name), S.pred[u.name])]
    ensures Searching(G, s, Explored(S, u).value)
    ensures TNames(Explored(S, u).value.result) == TNames(S.result) + [u.name]
    ensures u.name !in Keys(Explored(S, u).value.dist) && |Explored(S, u).value.dist| == |S.dist| - 1
  {
    var du := DistOf(S.dist, u.name);
    var T := RelaxAll(S, u, u.edges);
    RelaxAllKeepsOwn(S, u, u.edges);
    RelaxAllImproves(S, u, u.edges);
    var x := Triplet(u, du, S.pred[u.name]);
    SettleSearched(G, s, S.result, x);
    SettlePending(G, s, S, T, u, x);
    NamesSnoc(S.result, x);
    PopKeyKeys(T.dist, u.name);
  }
}
