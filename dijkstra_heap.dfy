/**
 * The heap of Dijkstra triplets (code/DijkstraBinaryMinHeap.py): a binary
 * min heap of `(node, distance, predecessor)` triplets ordered by distance
 * only. Nodes are the keys of the triplets and are looked up by name with a
 * linear scan of the whole backing array, the entries already removed from
 * the heap included.
 */
module DijkstraHeaps {
  import opened Wrappers
  import opened Distance
  import opened Seqs
  import opened Nodes
  import opened Heaps

  /** A Dijkstra triplet; its node is its key. */
  datatype Triplet = Triplet(node: NodeValue, distance: Dist, predecessor: Option<NodeValue>)

  datatype DijkstraHeapError =
    | SizeMismatch   // ValueError: the three lists differ in size
    | NotStored      // "the node do not identify any Dijkstra triplet"
    | NotSmaller     // "distance ... is not smaller than ..."

  /** `has_the_first_triplet_a_lower_distance(a, b)`: `a[1] <= b[1]`. */
  predicate LowerDistance(a: Triplet, b: Triplet) {
    Le(a.distance, b.distance)
  }

  /** The triplet order is a total preorder, as the heap requires of its order. */
  lemma LowerDistanceOrder()
    ensures TotalPreorder(LowerDistance)
  {
    LeFacts();
    forall a: Triplet, b: Triplet
      ensures Compares(LowerDistance, a, b)
    {
    }
    forall a: Triplet, b: Triplet, c: Triplet
      ensures Chains(LowerDistance, a, b, c)
    {
    }
  }

  /** The names of the triplets' nodes, in array order. */
  function TNames(s: seq<Triplet>): (names: seq<string>)
    ensures |names| == |s| && forall j :: 0 <= j < |s| ==> names[j] == s[j].node.name
  {
    seq(|s|, j requires 0 <= j < |s| => s[j].node.name)
  }

  /** The names of one more settled triplet. */
  lemma NamesSnoc(R: seq<Triplet>, x: Triplet)
    ensures TNames(R + [x]) == TNames(R) + [x.node.name]
  {
  }

  /** The triplet `__find_index` finds for `n`: the first one whose node is named `n`. */
  ghost function At(s: seq<Triplet>, n: string): Triplet
    requires n in TNames(s)
  {
    s[FirstOf(TNames(s), n)]
  }

  /** The triplets by the names of their nodes. */
  ghost function Table(s: seq<Triplet>): map<string, Triplet> {
    map n | n in TNames(s) :: At(s, n)
  }

  /** `s` with the distance of the triplet of `n` replaced by `d`. */
  ghost function Decreased(s: seq<Triplet>, n: string, d: Dist): seq<Triplet>
    requires n in TNames(s)
  {
    s[FirstOf(TNames(s), n) := At(s, n).(distance := d)]
  }

  /** `s` with the predecessor of the triplet of `n` replaced by `p`. */
  ghost function Preceded(s: seq<Triplet>, n: string, p: NodeValue): seq<Triplet>
    requires n in TNames(s)
  {
    s[FirstOf(TNames(s), n) := At(s, n).(predecessor := Some(p))]
  }

  /** A name of `s` is a name of every rearrangement of `s`. */
  lemma NameMoves(s: seq<Triplet>, t: seq<Triplet>, n: string)
    requires multiset(s) == multiset(t) && n in TNames(s)
    ensures n in TNames(t)
  {
    var i :| 0 <= i < |s| && TNames(s)[i] == n;
    assert s[i] in multiset(t);
    var j :| 0 <= j < |t| && t[j] == s[i];
    assert TNames(t)[j] == n;
  }

  /** The triplet of a name of `s`, whose names are distinct, is the one of every rearrangement of `s`. */
  lemma TripletMoves(s: seq<Triplet>, t: seq<Triplet>, n: string)
    requires multiset(s) == multiset(t) && Distinct(TNames(t)) && n in TNames(s)
    ensures n in TNames(t) && At(t, n) == At(s, n)
  {
    var x := At(s, n);
    assert x in multiset(t);
    var j :| 0 <= j < |t| && t[j] == x;
    assert TNames(t)[j] == n;
    DistinctFirstOf(TNames(t), j);
  }

  /** Rearranging triplets with distinct names keeps their names distinct and their table. */
  lemma SameTable(s: seq<Triplet>, t: seq<Triplet>)
    requires multiset(s) == multiset(t) && Distinct(TNames(s))
    ensures Distinct(TNames(t)) && Table(t) == Table(s)
  {
    assert |t| == |s| by {
      assert |multiset(s)| == |multiset(t)|;
    }
    forall n
      ensures n in TNames(t) <==> n in TNames(s)
    {
      if n in TNames(t) {
        NameMoves(t, s, n);
      }
      if n in TNames(s) {
        NameMoves(s, t, n);
      }
    }
    assert (set x | x in TNames(t)) == (set x | x in TNames(s));
    SetOfSeqSize(TNames(s));
    SetOfSeqSize(TNames(t));
    forall n | n in TNames(s)
      ensures At(t, n) == At(s, n)
    {
      TripletMoves(s, t, n);
    }
    TableEq(s, t);
  }

  /** Two arrays with the same names and the same triplet for each name have the same table. */
  lemma TableEq(s: seq<Triplet>, t: seq<Triplet>)
    requires forall n :: n in TNames(t) <==> n in TNames(s)
    requires forall n :: n in TNames(s) ==> At(t, n) == At(s, n)
    ensures Table(t) == Table(s)
  {
    assert Table(t).Keys == Table(s).Keys;
  }

  /** Replacing one triplet by one of the same name updates the table at that name only. */
  lemma ReplacedTable(s: seq<Triplet>, n: string, x: Triplet)
    requires Distinct(TNames(s)) && n in TNames(s) && x.node.name == n
    ensures var t := s[FirstOf(TNames(s), n) := x];
      Distinct(TNames(t)) && Table(t) == Table(s)[n := x]
  {
    var k := FirstOf(TNames(s), n);
    var t := s[k := x];
    assert TNames(t) == TNames(s);
    forall m | m in TNames(s)
      ensures At(t, m) == if m == n then x else At(s, m)
    {
      var i := FirstOf(TNames(s), m);
      assert FirstOf(TNames(t), m) == i;
      if m == n {
        assert i == k;
      } else {
        assert i != k;
      }
    }
  }

  /**
   * The three lists of `__init__` zipped into triplets: as many as the
   * shortest list has entries.
   */
  function Zip(nodes: seq<NodeValue>, distances: seq<Dist>, predecessors: seq<Option<NodeValue>>): (z: seq<Triplet>)
    ensures |z| <= |nodes| && |z| <= |distances| && |z| <= |predecessors|
    ensures |z| == |nodes| || |z| == |distances| || |z| == |predecessors|
    ensures forall j :: 0 <= j < |z| ==> z[j] == Triplet(nodes[j], distances[j], predecessors[j])
  {
    var m := if |nodes| <= |distances| && |nodes| <= |predecessors| then |nodes|
      else if |distances| <= |predecessors| then |distances| else |predecessors|;
    seq(m, j requires 0 <= j < m => Triplet(nodes[j], distances[j], predecessors[j]))
  }

  /** The size test of `__init__` as written: `len(nodes) != len(distances) and len(nodes) != len(predecessors)`. */
  predicate SizeCheckAsWritten(n: nat, d: nat, p: nat) {
    n != d && n != p
  }

  /** Two lists of two and one of one pass the size test as written, and the zip drops an entry. */
  lemma SizeCheckMissesMismatch()
    ensures !SizeCheckAsWritten(2, 2, 1)
    ensures var v := NodeValue("A", []);
      |Zip([v, v], [Inf, Inf], [None])| == 1
  {
  }

  /** The size test as its message states it: the three lists do not all have the same size. */
  predicate SizesDiffer(n: nat, d: nat, p: nat) {
    n != d || n != p
  }

  /**
   * One position `i` of the sift-up of `decrease_distance`: the heap order
   * holds everywhere except between `i` and its parent, and the parent of
   * `i` is below the children of `i`.
   */
  ghost predicate SiftingUp<T>(le: (T, T) -> bool, s: seq<T>, size: nat, i: nat)
    requires size <= |s|
  {
    && i < size
    && (forall j :: 0 < j < size && j != i ==> OrderedAt(le, s, j))
    && (0 < i ==> forall j :: 0 < j < size && (j - 1) / 2 == i ==> le(s[(i - 1) / 2], s[j]))
  }

  /** Lowering the key at `k` of a heap leaves it out of order only with its parent. */
  lemma SiftUpStart<T(!new)>(le: (T, T) -> bool, s: seq<T>, size: nat, k: nat, x: T)
    requires TotalPreorder(le) && size <= |s| && IsHeap(le, s, size)
    requires k < size && le(x, s[k])
    ensures SiftingUp(le, s[k := x], size, k)
  {
    var t := s[k := x];
    forall j | 0 < j < size && j != k
      ensures OrderedAt(le, t, j)
    {
      assert OrderedAt(le, s, j);
      if (j - 1) / 2 == k {
        assert Chains(le, x, s[k], s[j]);
      }
    }
    if 0 < k {
      forall j | 0 < j < size && (j - 1) / 2 == k
        ensures le(t[(k - 1) / 2], t[j])
      {
        assert OrderedAt(le, s, k) && OrderedAt(le, s, j);
        assert Chains(le, s[(k - 1) / 2], s[k], s[j]);
      }
    }
  }

  /** Swapping the entry at `i` with its parent when it is not above it moves the gap up to the parent. */
  lemma SiftUpSwap<T(!new)>(le: (T, T) -> bool, s: seq<T>, size: nat, i: nat)
    requires TotalPreorder(le) && size <= |s| && SiftingUp(le, s, size, i)
    requires 0 < i && le(s[i], s[(i - 1) / 2])
    ensures SiftingUp(le, Swapped(s, i, (i - 1) / 2), size, (i - 1) / 2)
  {
    var p := (i - 1) / 2;
    var t := Swapped(s, i, p);
    forall j | 0 < j < size && j != p
      ensures OrderedAt(le, t, j)
    {
      var q := (j - 1) / 2;
      if j == i {
      } else if q == i {
        assert t[j] == s[j];
      } else if q == p {
        assert OrderedAt(le, s, j);
        assert t[j] == s[j];
        assert Chains(le, s[i], s[p], s[j]);
      } else {
        assert OrderedAt(le, s, j);
        assert t[j] == s[j] && t[q] == s[q];
      }
    }
    if 0 < p {
      var g := (p - 1) / 2;
      forall j | 0 < j < size && (j - 1) / 2 == p
        ensures le(t[g], t[j])
      {
        assert OrderedAt(le, s, p);
        assert t[g] == s[g];
        if j != i {
          assert OrderedAt(le, s, j);
          assert t[j] == s[j];
          assert Chains(le, s[g], s[p], s[j]);
        }
      }
    }
  }

  /** The sift-up stops at the root or below a parent that is not above it: the heap order is back. */
  lemma SiftUpDone<T(!new)>(le: (T, T) -> bool, s: seq<T>, size: nat, i: nat)
    requires TotalPreorder(le) && size <= |s| && SiftingUp(le, s, size, i)
    requires i == 0 || !le(s[i], s[(i - 1) / 2])
    ensures IsHeap(le, s, size)
  {
    if 0 < i {
      assert Compares(le, s[i], s[(i - 1) / 2]);
    }
  }

  /**
   * `DijkstraBinaryMinHeap`: a `BinaryMinHeap` of triplets under the triplet
   * order. The subclass adds no fields, so the model holds the heap it
   * extends.
   */
  class DijkstraBinaryMinHeap {
    const heap: BinaryMinHeap<Triplet>

    /** What holds of every Dijkstra heap: its order is the triplet order and its size fits its array. */
    ghost predicate Shaped()
      reads this, heap
    {
      heap.le == LowerDistance && heap.size <= heap.A.Length
    }

    /** A Dijkstra heap that also satisfies the heap invariant. */
    ghost predicate Valid()
      reads this, heap, heap.A
    {
      Shaped() && heap.Valid()
    }

    ghost function Contents(): seq<Triplet>
      reads this, heap, heap.A
    {
      heap.A[..]
    }

    constructor Init(h: BinaryMinHeap<Triplet>)
      ensures heap == h
    {
      heap := h;
    }

    /** `__find_index(node)`: the first index of the whole array holding `n`, None when there is none. */
    method FindIndex(n: string) returns (r: Option<nat>)
      ensures r.None? <==> n !in TNames(Contents())
      ensures r.Some? ==> r.value == FirstOf(TNames(Contents()), n) && r.value < heap.A.Length
    {
      var i := 0;
      while i < heap.A.Length
        invariant 0 <= i <= heap.A.Length
        invariant forall j :: 0 <= j < i ==> heap.A[j].node.name != n
      {
        if heap.A[i].node.name == n {
          assert TNames(Contents())[i] == n;
          return Some(i);
        }
        i := i + 1;
      }
      assert forall j :: 0 <= j < |Contents()| ==> TNames(Contents())[j] != n;
      r := None;
    }

    /** `get_distance_of_a_node(node)`: the distance of `n`'s triplet, removed from the heap or not. */
    method GetDistanceOfANode(n: string) returns (r: Result<Dist, DijkstraHeapError>)
      ensures r.Failure? <==> n !in TNames(Contents())
      ensures r.Failure? ==> r.error == NotStored
      ensures r.Success? ==> r.value == At(Contents(), n).distance
    {
      var index := FindIndex(n);
      if index.None? {
        return Failure(NotStored);
      }
      r := Success(heap.A[index.value].distance);
    }

    /** `set_predecessor_of_a_node(node, predecessor)`: overwrites field 2 of `n`'s triplet, and nothing else. */
    method SetPredecessorOfANode(n: string, p: NodeValue) returns (r: Outcome<DijkstraHeapError>)
      requires Shaped()
      modifies heap.A
      ensures r.Fail? <==> n !in TNames(old(Contents()))
      ensures r.Fail? ==> r.error == NotStored && Contents() == old(Contents())
      ensures r.Pass? ==> Contents() == old(Preceded(Contents(), n, p))
      ensures old(Valid()) ==> Valid()
    {
      var index := FindIndex(n);
      if index.None? {
        return Fail(NotStored);
      }
      var i := index.value;
      ghost var s := heap.A[..];
      heap.A[i] := heap.A[i].(predecessor := Some(p));
      assert heap.A[..] == Preceded(s, n, p);
      assert forall j :: 0 <= j < heap.A.Length ==> heap.A[j].distance == s[j].distance;
      assert forall j :: 0 < j < heap.size ==> (OrderedAt(heap.le, heap.A[..], j) <==> OrderedAt(heap.le, s, j));
      r := Pass;
    }

    /**
     * `decrease_distance(node, new_distance)`: refuses a node with no
     * triplet, and a distance above the stored one, without a change;
     * otherwise stores the new distance and sifts the triplet up while it is
     * not above its parent (ties move up too). For a triplet still in the
     * heap the heap invariant is restored and only entries up to its index
     * move.
     */
    method DecreaseDistance(n: string, d: Dist) returns (r: Outcome<DijkstraHeapError>)
      requires Shaped()
      modifies heap.A
      ensures r.Fail? <==> n !in TNames(old(Contents())) || Lt(old(At(Contents(), n)).distance, d)
      ensures r.Fail? ==> Contents() == old(Contents())
      ensures r.Fail? ==> r.error == if n !in TNames(old(Contents())) then NotStored else NotSmaller
      ensures r.Pass? ==> multiset(Contents()) == old(multiset(Decreased(Contents(), n, d)))
      ensures r.Pass? && old(FirstOf(TNames(Contents()), n)) < heap.size ==>
        (old(Valid()) ==> Valid()) && forall j :: heap.size <= j < heap.A.Length ==> heap.A[j] == old(heap.A[j])
    {
      var found := FindIndex(n);
      if found.None? {
        return Fail(NotStored);
      }
      var index := found.value;
      if Lt(heap.A[index].distance, d) {
        return Fail(NotSmaller);
      }
      ghost var s0 := heap.A[..];
      ghost var k := index;
      ghost var sift := heap.Valid() && index < heap.size;
      heap.A[index] := heap.A[index].(distance := d);
      ghost var s1 := heap.A[..];
      assert s1 == Decreased(s0, n, d);
      LowerDistanceOrder();
      if sift {
        LeFacts();
        SiftUpStart(heap.le, s0, heap.size, index, s1[index]);
        assert s0[index := s1[index]] == s1;
      }
      SiftUp(index, sift);
      r := Pass;
    }

    /** The sift-up loop of `decrease_distance`, from index `i`: it moves entries up to `i` only. */
    method SiftUp(i: nat, ghost sift: bool)
      requires Shaped() && i < heap.A.Length
      requires sift ==> SiftingUp(heap.le, heap.A[..], heap.size, i)
      modifies heap.A
      ensures multiset(Contents()) == old(multiset(Contents()))
      ensures forall j :: i < j < heap.A.Length ==> heap.A[j] == old(heap.A[j])
      ensures sift ==> heap.Valid()
    {
      LowerDistanceOrder();
      var index := i;
      var parent := Parent(index);
      while index != 0 && heap.le(heap.A[index], heap.A[parent.value])
        invariant 0 <= index <= i
        invariant parent == Parent(index)
        invariant multiset(heap.A[..]) == old(multiset(heap.A[..]))
        invariant forall j :: i < j < heap.A.Length ==> heap.A[j] == old(heap.A[j])
        invariant sift ==> SiftingUp(heap.le, heap.A[..], heap.size, index)
        decreases index
      {
        ghost var s := heap.A[..];
        heap.SwapKeys(index, parent.value);
        if sift {
          SiftUpSwap(heap.le, s, heap.size, index);
        }
        index := parent.value;
        parent := Parent(index);
      }
      if sift {
        SiftUpDone(heap.le, heap.A[..], heap.size, index);
      }
    }
  }

  /**
   * `DijkstraBinaryMinHeap(nodes, distances, predecessors)`: the zipped
   * triplets in a fresh array, built into a heap under the triplet order;
   * then lists of different sizes are refused.
   */
  method NewDijkstraBinaryMinHeap(nodes: seq<NodeValue>, distances: seq<Dist>, predecessors: seq<Option<NodeValue>>)
    returns (r: Result<DijkstraBinaryMinHeap, DijkstraHeapError>)
    ensures r.Failure? <==> SizesDiffer(|nodes|, |distances|, |predecessors|)
    ensures r.Failure? ==> r.error == SizeMismatch
    ensures r.Success? ==> fresh(r.value) && fresh(r.value.heap) && fresh(r.value.heap.A) && r.value.Valid()
    ensures r.Success? ==> r.value.heap.size == |nodes| && multiset(r.value.Contents()) == multiset(Zip(nodes, distances, predecessors))
  {
    var z := Zip(nodes, distances, predecessors);
    var a := new Triplet[|z|](j requires 0 <= j < |z| => z[j]);
    assert a[..] == z;
    LowerDistanceOrder();
    var h := new BinaryMinHeap.Init(a, LowerDistance);
    h.BuildHeapCorrected();
    if SizesDiffer(|nodes|, |distances|, |predecessors|) {
      return Failure(SizeMismatch);
    }
    var dh := new DijkstraBinaryMinHeap.Init(h);
    r := Success(dh);
  }
}
