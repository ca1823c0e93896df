/**
 * Graphs (code/Graph.py): a list of nodes with unique names, the reversed
 * graph, node contraction with shortcuts, the contraction hierarchy and the
 * graph holding all of its shortcuts.
 *
 * `deepcopy` is modelled by `Copy`: fresh node objects holding the same
 * names and edge lists. Edges name their destination, so a copy shares no
 * object with the graph it was taken from.
 */
module Graphs {
  import opened Wrappers
  import opened Distance
  import opened Seqs
  import opened Nodes
  import opened Reversal
  import opened Contraction
  import opened Merging
  import opened ShortcutWalks

  datatype GraphError = DuplicateNames | UnknownDestination | TooFewNodes

  /**
   * The names of the node objects, in order. Names are constant fields, so
   * this reads no state; `ValuesOf` shows it equals `NamesOf` of the nodes'
   * values at any moment.
   */
  function NodeNames(ns: seq<Node>): (names: seq<string>)
    ensures |names| == |ns| && forall k :: 0 <= k < |ns| ==> names[k] == ns[k].name
  {
    seq(|ns|, k requires 0 <= k < |ns| => ns[k].name)
  }

  /** The nodes as values, at the current state of the heap. */
  ghost function ValuesOf(ns: seq<Node>): (vs: seq<NodeValue>)
    reads set k | 0 <= k < |ns| :: ns[k]
    ensures |vs| == |ns| && forall k :: 0 <= k < |ns| ==> vs[k] == ns[k].Value()
    ensures NamesOf(vs) == NodeNames(ns)
  {
    seq(|ns|, k requires 0 <= k < |ns| reads set k | 0 <= k < |ns| :: ns[k] => ns[k].Value())
  }

  /** `len(set(name_list)) == len(nodes)`: the names are unique. */
  function UniqueNames(names: seq<string>): (b: bool)
    ensures b <==> Distinct(names)
  {
    SetOfSeqSize(names);
    |set x | x in names| == |names|
  }

  class Graph {
    var nodes: seq<Node>

    /** The invariant the constructor establishes: node names are unique. */
    ghost predicate Valid()
      reads this
    {
      Distinct(NodeNames(nodes))
    }

    function Names(): seq<string>
      reads this
    {
      NodeNames(nodes)
    }

    ghost function Values(): seq<NodeValue>
      reads this, set k | 0 <= k < |nodes| :: nodes[k]
    {
      ValuesOf(nodes)
    }

    /** The field assignment of `__init__`; `NewGraph` adds the uniqueness check. */
    constructor Init(ns: seq<Node>)
      ensures nodes == ns
    {
      nodes := ns;
    }

    /** `get_node(name)`: the first node with that name, or None. */
    method GetNode(name: string) returns (r: Option<Node>)
      ensures r.None? <==> name !in Names()
      ensures r.Some? ==> FirstOf(Names(), name) < |nodes| && r.value == nodes[FirstOf(Names(), name)]
    {
      var i := 0;
      while i < |nodes|
        invariant 0 <= i <= |nodes|
        invariant forall j :: 0 <= j < i ==> nodes[j].name != name
      {
        if nodes[i].name == name {
          assert FirstOf(Names(), name) == i;
          return Some(nodes[i]);
        }
        i := i + 1;
      }
      r := None;
    }

    /** `get_nodes()`, read as values: the nodes in order, with their current edges. */
    method GetNodes() returns (vs: seq<NodeValue>)
      ensures vs == Values()
    {
      vs := [];
      for k := 0 to |nodes|
        invariant |vs| == k && forall j :: 0 <= j < k ==> vs[j] == nodes[j].Value()
      {
        vs := vs + [nodes[k].Value()];
      }
    }

    /** `deepcopy(self)`: a fresh graph of fresh nodes with the same names and edges. */
    method Copy() returns (g: Graph)
      ensures fresh(g) && g.Values() == Values() && g.Names() == Names()
      ensures forall k :: 0 <= k < |g.nodes| ==> fresh(g.nodes[k])
    {
      var cs: seq<Node> := [];
      var i := 0;
      while i < |nodes|
        invariant 0 <= i <= |nodes| && |cs| == i
        invariant forall k :: 0 <= k < i ==> fresh(cs[k]) && cs[k].Value() == nodes[k].Value()
      {
        var c := new Node(nodes[i].name);
        c.edges := nodes[i].edges;
        cs := cs + [c];
        i := i + 1;
      }
      g := new Graph.Init(cs);
      assert g.Values() == Values();
    }

    /**
     * `find_a_not_important_node`: a running minimum of the edge counts
     * that takes every node whose count is at most the minimum so far, so
     * the last node with the fewest edges wins.
     */
    method FindNotImportantNode() returns (n: Node, ghost k: nat)
      requires |nodes| > 0
      ensures LeastImportant(Values(), k) && n == nodes[k]
    {
      ghost var G := Values();
      var minEdges := Inf;
      n := nodes[0];
      k := 0;
      var i := 0;
      while i < |nodes|
        invariant 0 <= i <= |nodes|
        invariant i == 0 ==> minEdges == Inf && k == 0
        invariant i > 0 ==> LeastImportant(G[..i], k) && minEdges == Fin(|G[k].edges| as real) && n == nodes[k]
      {
        var count := Fin(|nodes[i].edges| as real);
        if Min(count, minEdges) == count {
          minEdges := Min(count, minEdges);
          n := nodes[i];
          k := i;
        }
        i := i + 1;
      }
      assert G[..i] == G;
    }

    /**
     * `get_reversed_graph`: a fresh node per name, in order, then for every
     * edge `u -> d` of cost `c`, in order, an edge `d -> u` of cost `c`. An
     * edge to a name outside the graph makes the dictionary lookup fail.
     */
    method GetReversedGraph() returns (r: Result<Graph, GraphError>)
      requires Valid()
      ensures r.Failure? <==> !Closed(Values())
      ensures r.Failure? ==> r.error == UnknownDestination
      ensures r.Success? ==> fresh(r.value) && r.value.Valid() && r.value.Values() == Reverse(Values())
      ensures r.Success? ==> forall k :: 0 <= k < |r.value.nodes| ==> fresh(r.value.nodes[k])
    {
      ghost var G := Values();
      var rs, ok := TurnEdges();
      if !ok {
        return Failure(UnknownDestination);
      }
      AllLeadIntoClosed(G);
      var made := NewGraph(rs);
      assert made.Success?;
      r := Success(made.value);
      ReversedValues(G, rs);
      assert Values() == G;
    }

    /**
     * The loop of `get_reversed_graph`: fresh nodes named as the graph's,
     * then every edge turned onto its destination's node, in order; it stops
     * at the first edge to a name outside the graph.
     */
    method TurnEdges() returns (rs: seq<Node>, ok: bool)
      requires Valid()
      ensures forall t :: 0 <= t < |rs| ==> fresh(rs[t])
      ensures NodeNames(rs) == Names()
      ensures ok <==> Closed(Values())
      ensures ok ==> EdgesOf(rs) == IncomingAll(Values(), Names()) && AllLeadInto(Values(), Names())
    {
      ghost var G := Values();
      var names := Names();
      rs := NewNodes(names);
      var p := 0;
      while p < |nodes|
        invariant 0 <= p <= |nodes|
        invariant forall t :: 0 <= t < |rs| ==> fresh(rs[t])
        invariant NodeNames(rs) == names
        invariant EdgesOf(rs) == IncomingAll(G[..p], names)
        invariant AllLeadInto(G[..p], names)
      {
        var u := nodes[p];
        assert u.Value() == G[p];
        ghost var before := EdgesOf(rs);
        ok := AddTurnedEdges(rs, names, u.name, u.edges);
        if !ok {
          LeadsOutOpen(G, p);
          return;
        }
        IncomingAllStep(G, p, names, before, EdgesOf(rs));
        AllLeadIntoStep(G, p, names);
        p := p + 1;
      }
      assert G[..p] == G;
      AllLeadIntoClosed(G);
      ok := true;
    }

    /**
     * `remove_one_node_and_add_his_shortcuts()`: on a copy, picks the least
     * important node, contracts it into every node of the copy (itself
     * included, in list order) and drops it. A graph of at most one node is
     * refused.
     */
    method RemoveOneNodeAndAddHisShortcuts() returns (r: Result<Graph, GraphError>)
      requires Valid()
      ensures r.Failure? <==> |nodes| <= 1
      ensures r.Failure? ==> r.error == TooFewNodes
      ensures r.Success? ==> fresh(r.value) && r.value.Valid() && ContractionStep(old(Values()), r.value.Values())
      ensures r.Success? ==> forall q :: 0 <= q < |r.value.nodes| ==> fresh(r.value.nodes[q])
    {
      if |nodes| <= 1 {
        return Failure(TooFewNodes);
      }
      var g := Copy();
      var v, k := g.FindNotImportantNode();
      g.ContractAway(v, k);
      r := Success(g);
    }

    /**
     * The loop of `remove_one_node_and_add_his_shortcuts` and the removal
     * that follows it, on the copy: every node gets the shortcuts through
     * `v`, then `v` leaves the list.
     */
    method ContractAway(v: Node, ghost k: nat)
      requires Valid() && LeastImportant(Values(), k) && v == nodes[k]
      modifies this, set q | 0 <= q < |nodes| :: nodes[q]
      ensures Valid() && ContractionStep(old(Values()), Values())
      ensures nodes == old(nodes[..k] + nodes[k + 1..])
    {
      ghost var G := Values();
      var cs := nodes;
      ContractEveryNode(cs, v, k);
      ghost var H := ValuesOf(cs);
      ContractedRemoved(G, H, k);
      // `list.remove`: the first node equal to the removed one, by name
      var at := FirstOf(NodeNames(cs), v.name);
      DistinctFirstOf(NodeNames(cs), k);
      Without(cs, k);
      nodes := cs[..at] + cs[at + 1..];
      assert Values() == NextLevel(G, k);
    }

    /**
     * `get_contraction_hierarchies()`: this graph, then `len - 1` times the
     * next level of the last one.
     */
    method GetContractionHierarchies() returns (levels: seq<Graph>, ghost vals: seq<seq<NodeValue>>)
      requires Valid()
      ensures |levels| == |vals| == if |nodes| == 0 then 1 else |nodes|
      ensures levels[0] == this && vals[0] == Values()
      ensures Mirrors(levels, vals)
      ensures forall l :: 1 <= l < |levels| ==> fresh(levels[l])
      ensures forall l :: 1 <= l < |levels| ==> forall q :: 0 <= q < |levels[l].nodes| ==> fresh(levels[l].nodes[q])
      ensures Hierarchy(vals)
    {
      levels := [this];
      vals := [Values()];
      var graph := this;
      var i := 0;
      while i < |nodes| - 1
        invariant 0 <= i <= if |nodes| == 0 then 0 else |nodes| - 1
        invariant |levels| == |vals| == i + 1 && levels[0] == this && graph == levels[i]
        invariant |graph.nodes| == |nodes| - i && graph.Valid()
        invariant Mirrors(levels, vals) && NewAbove(levels)
        invariant Hierarchy(vals)
      {
        var next := graph.RemoveOneNodeAndAddHisShortcuts();
        var h := next.value;
        ghost var hv := h.Values();
        ContractionStepSize(vals[i], hv);
        HierarchyAppend(vals, hv);
        MirrorsAppend(levels, vals, h);
        graph := h;
        levels := levels + [h];
        vals := vals + [hv];
        i := i + 1;
      }
    }

    /**
     * `add_shortcuts()`: on a copy, merges into every node, level by level
     * of the copy's contraction hierarchy, the edges of the node of the same
     * name, so that every node ends with the cheapest cost to each
     * destination over all the levels. The first level is the copy itself.
     */
    method AddShortcuts() returns (g: Graph, ghost vals: seq<seq<NodeValue>>)
      requires Valid()
      ensures fresh(g) && g.Valid() && g.Names() == Names()
      ensures |vals| == (if |nodes| == 0 then 1 else |nodes|) && vals[0] == Values() && Hierarchy(vals)
      ensures forall k, x :: 0 <= k < |g.nodes| ==> MinCost(g.Values()[k].edges, x) == LevelsMin(vals, g.nodes[k].name, x)
      ensures MergedGraph(vals, g.Values())
    {
      g := Copy();
      var levels;
      levels, vals := g.GetContractionHierarchies();
      MergeAll(g.nodes, levels, vals);
    }
  }

  /** Every graph of `levels` after the first, and every node of it, is new since the previous state. */
  twostate predicate NewAbove(new levels: seq<Graph>)
    reads set l | 0 <= l < |levels| :: levels[l]
  {
    forall l :: 1 <= l < |levels| ==> fresh(levels[l]) && forall q :: 0 <= q < |levels[l].nodes| ==> fresh(levels[l].nodes[q])
  }

  /** Every graph of `levels` holds the nodes of the same level of `vals`. */
  ghost predicate Mirrors(levels: seq<Graph>, vals: seq<seq<NodeValue>>)
    reads set l | 0 <= l < |levels| :: levels[l]
    reads set l, k | 0 <= l < |levels| && 0 <= k < |levels[l].nodes| :: levels[l].nodes[k]
  {
    |levels| == |vals| && forall l :: 0 <= l < |levels| ==> levels[l].Values() == vals[l]
  }

  /** A graph appended to `levels` mirrors its own values. */
  lemma MirrorsAppend(levels: seq<Graph>, vals: seq<seq<NodeValue>>, h: Graph)
    requires Mirrors(levels, vals)
    ensures Mirrors(levels + [h], vals + [h.Values()])
  {
    var L := levels + [h];
    forall l | 0 <= l < |L|
      ensures L[l].Values() == (vals + [h.Values()])[l]
    {
      if l < |levels| {
        assert L[l] == levels[l];
      }
    }
  }

  /** The loop of `add_shortcuts` over the nodes `ns` of the first level `levels[0]`. */
  method MergeAll(ns: seq<Node>, levels: seq<Graph>, ghost vals: seq<seq<NodeValue>>)
    requires Distinct(NodeNames(ns)) && |levels| == |vals| > 0 && levels[0].nodes == ns && vals[0] == ValuesOf(ns)
    requires forall l :: 1 <= l < |levels| ==> levels[l].Values() == vals[l]
    requires forall l, q :: 1 <= l < |levels| && 0 <= q < |levels[l].nodes| ==> levels[l].nodes[q] !in ns
    modifies set q | 0 <= q < |ns| :: ns[q]
    ensures MergedUpTo(vals, ValuesOf(ns), |ns|)
  {
    var p := 0;
    while p < |ns|
      invariant 0 <= p <= |ns|
      invariant forall l :: 1 <= l < |levels| ==> levels[l].Values() == vals[l]
      invariant MergedUpTo(vals, ValuesOf(ns), p)
    {
      ghost var H := ValuesOf(ns);
      MergeLevels(ns, p, levels, vals);
      forall q | 0 <= q < |ns| && q != p
        ensures ValuesOf(ns)[q] == H[q]
      {
        assert NodeNames(ns)[q] != NodeNames(ns)[p];
      }
      MergedNext(vals, H, ValuesOf(ns), p);
      p := p + 1;
    }
  }

  /**
   * The loop over the levels of `add_shortcuts` for node `ns[p]` of the
   * first level `levels[0]`, whose nodes are `ns`.
   */
  method MergeLevels(ns: seq<Node>, p: nat, levels: seq<Graph>, ghost vals: seq<seq<NodeValue>>)
    requires p < |ns| && Distinct(NodeNames(ns)) && |levels| == |vals| > 0 && levels[0].nodes == ns
    requires NamesOf(vals[0]) == NodeNames(ns) && vals[0][p] == ns[p].Value()
    requires forall l :: 1 <= l < |levels| ==> levels[l].Values() == vals[l]
    requires forall l, q :: 1 <= l < |levels| && 0 <= q < |levels[l].nodes| ==> levels[l].nodes[q] !in ns
    modifies ns[p]
    ensures forall x :: MinCost(ns[p].edges, x) == LevelsMin(vals, ns[p].name, x)
  {
    var u := ns[p];
    ghost var E0 := u.edges;
    DistinctFirstOf(NodeNames(ns), p);
    // The first level is the graph itself: its node named like `u` is `u`.
    var self := levels[0].GetNode(u.name);
    if self.Some? {
      MergeEdges(u, self.value);
    }
    forall x
      ensures MinCost(u.edges, x) == LevelsMin(vals[..1], u.name, x)
    {
      LevelsMinStep(vals, 0, u.name, x);
      MinFacts(LevelCost(vals[0], u.name, x), Inf, Inf);
    }
    var l := 1;
    while l < |levels|
      invariant 1 <= l <= |levels|
      invariant forall x :: MinCost(u.edges, x) == LevelsMin(vals[..l], u.name, x)
      invariant forall l' :: 1 <= l' < |levels| ==> levels[l'].Values() == vals[l']
    {
      MergeLevel(u, levels[l], vals[l]);
      forall x
        ensures MinCost(u.edges, x) == LevelsMin(vals[..l + 1], u.name, x)
      {
        LevelsMinStep(vals, l, u.name, x);
      }
      l := l + 1;
    }
    assert vals[..l] == vals;
  }

  /**
   * One pass of the loop over the levels of `add_shortcuts`: the node of
   * `level` named like `u`, if any, merged into `u`. When that node is `u`
   * itself nothing changes in the cheapest costs.
   */
  method MergeLevel(u: Node, level: Graph, ghost G: seq<NodeValue>)
    requires level.Values() == G
    requires forall q :: 0 <= q < |level.nodes| && level.nodes[q] == u ==> FirstOf(level.Names(), u.name) == q
    modifies u
    ensures forall x :: MinCost(u.edges, x) == Min(MinCost(old(u.edges), x), LevelCost(G, u.name, x))
  {
    ghost var E := u.edges;
    var cn := level.GetNode(u.name);
    if cn.None? {
      forall x
        ensures MinCost(u.edges, x) == Min(MinCost(E, x), LevelCost(G, u.name, x))
      {
        MinFacts(MinCost(E, x), Inf, Inf);
      }
    } else {
      var c := cn.value;
      ghost var k := FirstOf(level.Names(), u.name);
      assert c.Value() == G[k];
      MergeEdges(u, c);
      if c == u {
        forall x
          ensures MinCost(u.edges, x) == Min(MinCost(E, x), LevelCost(G, u.name, x))
        {
          MinFacts(MinCost(E, x), MinCost(E, x), Inf);
        }
      }
    }
  }

  /** Fresh nodes without edges, one per name, in order. */
  method NewNodes(names: seq<string>) returns (rs: seq<Node>)
    ensures NodeNames(rs) == names
    ensures forall t :: 0 <= t < |rs| ==> fresh(rs[t]) && rs[t].edges == []
  {
    rs := [];
    var i := 0;
    while i < |names|
      invariant 0 <= i <= |names| && |rs| == i
      invariant forall t :: 0 <= t < i ==> fresh(rs[t]) && rs[t].name == names[t] && rs[t].edges == []
    {
      var v := new Node(names[i]);
      rs := rs + [v];
      i := i + 1;
    }
  }

  /** The edges of every reversed node once the nodes `P` have been turned around. */
  function IncomingAll(P: seq<NodeValue>, names: seq<string>): (es: seq<seq<Edge>>)
    ensures |es| == |names| && forall t :: 0 <= t < |names| ==> es[t] == Incoming(P, names[t])
  {
    seq(|names|, t requires 0 <= t < |names| => Incoming(P, names[t]))
  }

  /** Turning the edges of node `p` around extends the reversed nodes from `G[..p]` to `G[..p + 1]`. */
  lemma IncomingAllStep(G: seq<NodeValue>, p: nat, names: seq<string>, before: seq<seq<Edge>>, after: seq<seq<Edge>>)
    requires p < |G| && before == IncomingAll(G[..p], names) && |after| == |names|
    requires forall t :: 0 <= t < |names| ==> after[t] == before[t] + Turned(G[p].edges, G[p].name, names[t])
    ensures after == IncomingAll(G[..p + 1], names)
  {
    assert G[..p + 1][..p] == G[..p];
  }

  /** Nodes named as `G` whose edges are the incoming edges of `G` are the reversed graph. */
  lemma ReversedValues(G: seq<NodeValue>, rs: seq<Node>)
    requires NodeNames(rs) == NamesOf(G) && EdgesOf(rs) == IncomingAll(G, NamesOf(G))
    ensures ValuesOf(rs) == Reverse(G)
  {
    forall k | 0 <= k < |rs|
      ensures ValuesOf(rs)[k] == Reverse(G)[k]
    {
      assert EdgesOf(rs)[k] == rs[k].edges;
    }
  }

  /**
   * The inner loop of `get_reversed_graph` for one node `un` with edges
   * `E`: every edge `un -> d` of cost `c`, in order, becomes an edge
   * `d -> un` of cost `c` of the node named `d`; the first destination
   * without a node stops it.
   */
  method AddTurnedEdges(rs: seq<Node>, names: seq<string>, un: string, E: seq<Edge>) returns (ok: bool)
    requires |rs| == |names| && Distinct(names)
    requires forall t :: 0 <= t < |rs| ==> rs[t].name == names[t]
    modifies set t | 0 <= t < |rs| :: rs[t]
    ensures ok <==> LeadsInto(E, names)
    ensures ok ==> forall t :: 0 <= t < |rs| ==> rs[t].edges == old(rs[t].edges) + Turned(E, un, names[t])
  {
    ghost var base := EdgesOf(rs);
    var j := 0;
    while j < |E|
      invariant 0 <= j <= |E|
      invariant forall t :: 0 <= t < |rs| ==> EdgesOf(rs)[t] == base[t] + Turned(E[..j], un, names[t])
      invariant LeadsInto(E[..j], names)
    {
      var e := E[j];
      var t := FirstOf(names, e.destination);
      if t == |names| {
        assert !LeadsInto(E, names) by {
          assert E[j].destination !in names;
        }
        return false;
      }
      LeadsIntoStep(E, names, j);
      ghost var before := EdgesOf(rs);
      var added := rs[t].AddEdge(un, e.cost);
      assert added.Pass?;
      forall t' | 0 <= t' < |rs| && t' != t
        ensures EdgesOf(rs)[t'] == before[t']
      {
        assert names[t'] != names[t];
      }
      TurnedAllStep(base, before, EdgesOf(rs), names, un, E, j, t);
      j := j + 1;
    }
    assert E[..j] == E;
    ok := true;
  }

  /**
   * The loop of `remove_one_node_and_add_his_shortcuts` over the nodes of
   * the copy: each node, in order, gets the shortcuts through `cs[k]`.
   */
  method ContractEveryNode(cs: seq<Node>, v: Node, ghost k: nat)
    requires k < |cs| && v == cs[k] && Distinct(NodeNames(cs))
    modifies set q | 0 <= q < |cs| :: cs[q]
    ensures ContractedUpTo(old(ValuesOf(cs)), ValuesOf(cs), k, |cs|)
  {
    ghost var G := ValuesOf(cs);
    ContractedStart(G, k);
    var p := 0;
    while p < |cs|
      invariant 0 <= p <= |cs|
      invariant ContractedUpTo(G, ValuesOf(cs), k, p)
    {
      ghost var H := ValuesOf(cs);
      assert forall q :: 0 <= q < |cs| && q != p ==> cs[q] != cs[p] by {
        forall q | 0 <= q < |cs| && q != p
          ensures cs[q] != cs[p]
        {
          assert NodeNames(cs)[q] != NodeNames(cs)[p];
        }
      }
      assert cs[p] == v || cs[p].name != v.name by {
        if p != k {
          assert NodeNames(cs)[p] != NodeNames(cs)[k];
        }
      }
      ContractInto(cs[p], v);
      assert forall q :: 0 <= q < |cs| && q != p ==> ValuesOf(cs)[q] == H[q];
      ContractedNext(G, H, ValuesOf(cs), k, p);
      p := p + 1;
    }
  }

  /** Dropping node `k` drops its value and its name, and keeps the other names distinct. */
  lemma Without(cs: seq<Node>, k: nat)
    requires k < |cs| && Distinct(NodeNames(cs))
    ensures ValuesOf(cs[..k] + cs[k + 1..]) == ValuesOf(cs)[..k] + ValuesOf(cs)[k + 1..]
    ensures Distinct(NodeNames(cs[..k] + cs[k + 1..]))
  {
    var R := cs[..k] + cs[k + 1..];
    assert NodeNames(R) == NodeNames(cs)[..k] + NodeNames(cs)[k + 1..];
    DistinctWithout(NodeNames(cs), k);
  }

  /** Dropping one name keeps the other names distinct. */
  lemma DistinctWithout(names: seq<string>, k: nat)
    requires Distinct(names) && k < |names|
    ensures Distinct(names[..k] + names[k + 1..])
  {
    var R := names[..k] + names[k + 1..];
    forall i, j | 0 <= i < j < |R|
      ensures R[i] != R[j]
    {
      assert R[i] == names[if i < k then i else i + 1];
      assert R[j] == names[if j < k then j else j + 1];
    }
  }

  /** Every edge of `E` leads to one of `names`. */
  ghost predicate LeadsInto(E: seq<Edge>, names: seq<string>) {
    forall l :: 0 <= l < |E| ==> E[l].destination in names
  }

  /** Every edge of every node of `P` leads to one of `names`. */
  ghost predicate AllLeadInto(P: seq<NodeValue>, names: seq<string>) {
    forall q :: 0 <= q < |P| ==> LeadsInto(P[q].edges, names)
  }

  lemma AllLeadIntoStep(G: seq<NodeValue>, p: nat, names: seq<string>)
    requires p < |G| && AllLeadInto(G[..p], names) && LeadsInto(G[p].edges, names)
    ensures AllLeadInto(G[..p + 1], names)
  {
    var H := G[..p + 1];
    forall q | 0 <= q < |H|
      ensures LeadsInto(H[q].edges, names)
    {
      if q < p {
        assert H[q] == G[..p][q];
      }
    }
  }

  /** A node with an edge to a name outside the graph makes the graph not closed. */
  lemma LeadsOutOpen(G: seq<NodeValue>, p: nat)
    requires p < |G| && !LeadsInto(G[p].edges, NamesOf(G))
    ensures !Closed(G)
  {
    var l :| 0 <= l < |G[p].edges| && G[p].edges[l].destination !in NamesOf(G);
  }

  /** A graph whose edges all lead to its own names is closed. */
  lemma AllLeadIntoClosed(G: seq<NodeValue>)
    requires AllLeadInto(G, NamesOf(G))
    ensures Closed(G)
  {
    forall q, l | 0 <= q < |G| && 0 <= l < |G[q].edges|
      ensures G[q].edges[l].destination in NamesOf(G)
    {
      assert LeadsInto(G[q].edges, NamesOf(G));
    }
  }

  lemma LeadsIntoStep(E: seq<Edge>, names: seq<string>, j: nat)
    requires j < |E| && LeadsInto(E[..j], names) && E[j].destination in names
    ensures LeadsInto(E[..j + 1], names)
  {
    assert forall l :: 0 <= l < j ==> E[..j + 1][l] == E[..j][l];
  }

  /** The edge lists of `rs`, in order. */
  ghost function EdgesOf(rs: seq<Node>): (es: seq<seq<Edge>>)
    reads set t | 0 <= t < |rs| :: rs[t]
    ensures |es| == |rs| && forall t :: 0 <= t < |rs| ==> es[t] == rs[t].edges
  {
    seq(|rs|, t requires 0 <= t < |rs| reads set t | 0 <= t < |rs| :: rs[t] => rs[t].edges)
  }

  /** Adding the turned edge `E[j]` to node `t`, the one it leads to, advances every node by one edge of `E`. */
  lemma TurnedAllStep(base: seq<seq<Edge>>, before: seq<seq<Edge>>, after: seq<seq<Edge>>, names: seq<string>,
                      un: string, E: seq<Edge>, j: nat, t: nat)
    requires j < |E| && t < |names| && names[t] == E[j].destination && Distinct(names)
    requires |base| == |before| == |after| == |names|
    requires forall t' :: 0 <= t' < |names| ==> before[t'] == base[t'] + Turned(E[..j], un, names[t'])
    requires after[t] == before[t] + [Edge(un, E[j].cost)]
    requires forall t' :: 0 <= t' < |names| && t' != t ==> after[t'] == before[t']
    ensures forall t' :: 0 <= t' < |names| ==> after[t'] == base[t'] + Turned(E[..j + 1], un, names[t'])
  {
    forall t' | 0 <= t' < |names|
      ensures after[t'] == base[t'] + Turned(E[..j + 1], un, names[t'])
    {
      TurnedStep(E, j, un, names[t']);
      if t' != t {
        assert names[t'] != names[t];
      }
    }
  }

  /** `Graph(nodes)`: keeps the given list, or refuses it when two nodes share a name. */
  method NewGraph(ns: seq<Node>) returns (r: Result<Graph, GraphError>)
    ensures r.Failure? <==> !Distinct(NodeNames(ns))
    ensures r.Failure? ==> r.error == DuplicateNames
    ensures r.Success? ==> fresh(r.value) && r.value.nodes == ns && r.value.Valid()
  {
    if !UniqueNames(NodeNames(ns)) {
      return Failure(DuplicateNames);
    }
    var g := new Graph.Init(ns);
    r := Success(g);
  }
}
