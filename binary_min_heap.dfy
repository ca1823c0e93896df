/**
 * The array implementation of a binary min heap (code/BinaryMinHeap.py).
 * The heap owns an array `A` and a logical size `size`; the entries
 * `A[size..]` are the roots removed so far, in reverse order of removal.
 * The order `le` is supplied by the caller and must be a total preorder.
 */
module Heaps {
  import opened Wrappers

  datatype HeapError =
    | Empty          // "The heap is empty"
    | ParentOfRoot   // `range(parent(0), -1, -1)`: `parent(0)` is None, so building one element fails

  /** `parent(node)`: None for the root, `(node - 1) // 2` otherwise (Dafny's `/` floors for a positive divisor, like `//`). */
  function Parent(node: int): (p: Option<int>)
    ensures p.None? <==> node == 0
    ensures node > 0 ==> 0 <= p.value < node && (p.value == (node - 1) / 2)
    ensures node < 0 ==> p.value < 0
  {
    if node == 0 then None else Some((node - 1) / 2)
  }

  /** `left(node) = 2 * node + 1`: its parent is `node`. */
  function Left(node: nat): (l: nat)
    ensures Parent(l) == Some(node as int)
  {
    2 * node + 1
  }

  /** `right(node) = 2 * node + 2`: the sibling after `Left(node)`, with the same parent. */
  function Right(node: nat): (r: nat)
    ensures Parent(r) == Some(node as int) && r == Left(node) + 1
  {
    2 * node + 2
  }

  /** A total preorder: every two values compare, and comparison is transitive (so it is reflexive). */
  ghost predicate TotalPreorder<T(!new)>(le: (T, T) -> bool) {
    && (forall a, b :: Compares(le, a, b))
    && (forall a, b, c :: Chains(le, a, b, c))
  }

  /** Totality at one pair; a proof names the pair it needs. */
  ghost predicate Compares<T>(le: (T, T) -> bool, a: T, b: T) {
    le(a, b) || le(b, a)
  }

  /** Transitivity at one triple; a proof names the triple it needs. */
  ghost predicate Chains<T>(le: (T, T) -> bool, a: T, b: T, c: T) {
    le(a, b) && le(b, c) ==> le(a, c)
  }

  /** Position `j > 0` is ordered after its parent. */
  ghost predicate OrderedAt<T>(le: (T, T) -> bool, s: seq<T>, j: nat)
    requires 0 < j < |s|
  {
    le(s[(j - 1) / 2], s[j])
  }

  /** The heap order holds between every position `j < size` and its parent whenever that parent is at least `k`. */
  ghost predicate HeapFrom<T>(le: (T, T) -> bool, s: seq<T>, size: nat, k: nat)
    requires size <= |s|
  {
    forall j :: 0 < j < size && k <= (j - 1) / 2 ==> OrderedAt(le, s, j)
  }

  /** The heap invariant on `s[..size]`: `le(s[parent(j)], s[j])` for every `0 < j < size`. */
  ghost predicate IsHeap<T>(le: (T, T) -> bool, s: seq<T>, size: nat)
    requires size <= |s|
  {
    HeapFrom(le, s, size, 0)
  }

  /** The root of a heap is below every entry of the heap. */
  lemma {:induction false} RootIsMinimum<T(!new)>(le: (T, T) -> bool, s: seq<T>, size: nat, j: nat)
    requires TotalPreorder(le) && size <= |s| && IsHeap(le, s, size)
    requires j < size
    ensures le(s[0], s[j])
  {
    if j == 0 {
      assert Compares(le, s[0], s[0]);
    } else {
      var p := (j - 1) / 2;
      RootIsMinimum(le, s, size, p);
      assert OrderedAt(le, s, j);
      assert Chains(le, s[0], s[p], s[j]);
    }
  }

  /** After the root is swapped with the last entry and the heap shrinks by one, the order holds below the root. */
  lemma SwapRootToEnd<T(!new)>(le: (T, T) -> bool, s: seq<T>, n: nat)
    requires 0 < n <= |s| && IsHeap(le, s, n)
    ensures HeapFrom(le, Swapped(s, 0, n - 1), n - 1, 1)
    ensures multiset(Swapped(s, 0, n - 1)[..n - 1]) + multiset{s[0]} == multiset(s[..n])
  {
    var t := Swapped(s, 0, n - 1);
    forall j | 0 < j < n - 1 && 1 <= (j - 1) / 2
      ensures OrderedAt(le, t, j)
    {
      assert OrderedAt(le, s, j);
    }
    SwapPreservesPrefix(s, n, 0, n - 1);
    assert t[..n] == t[..n - 1] + [s[0]];
  }

  /** What remains of a heap after its root has been taken out stays above that root. */
  lemma RootBelowRest<T(!new)>(le: (T, T) -> bool, s: seq<T>, n: nat, t: seq<T>, m: nat)
    requires TotalPreorder(le) && 0 < n <= |s| && IsHeap(le, s, n)
    requires m <= |t| && multiset(t[..m]) + multiset{s[0]} == multiset(s[..n])
    ensures forall j :: 0 <= j < m ==> le(s[0], t[j])
  {
    forall j | 0 <= j < m
      ensures le(s[0], t[j])
    {
      assert t[j] in multiset(t[..m]);
      assert t[j] in multiset(s[..n]);
      var k :| 0 <= k < n && s[k] == t[j];
      RootIsMinimum(le, s, n, k);
    }
  }

  /**
   * Sequence form of `remove_root`: `u` agrees with the swapped heap on the
   * multiset of its first `n - 1` entries and keeps the former root at `n - 1`.
   */
  lemma RootTakenOut<T(!new)>(le: (T, T) -> bool, s: seq<T>, n: nat, u: seq<T>)
    requires TotalPreorder(le) && 0 < n <= |s| && IsHeap(le, s, n)
    requires |u| == |s| && u[n - 1] == s[0]
    requires multiset(u[..n - 1]) == multiset(Swapped(s, 0, n - 1)[..n - 1])
    ensures multiset(u[..n - 1]) + multiset{s[0]} == multiset(s[..n])
    ensures forall j :: 0 <= j < n - 1 ==> le(s[0], u[j])
  {
    SwapRootToEnd(le, s, n);
    RootBelowRest(le, s, n, u, n - 1);
  }

  /**
   * `u` is `s` after a sift-down from `node` over `s[..size]`: the heap order
   * holds from `node` on, the entries are permuted within `s[..size]`, and
   * those before `node` or from `size` on are unchanged.
   */
  ghost predicate Sifted<T>(le: (T, T) -> bool, s: seq<T>, u: seq<T>, size: nat, node: nat)
    requires size <= |s|
  {
    && |u| == |s|
    && HeapFrom(le, u, size, node)
    && multiset(u[..size]) == multiset(s[..size])
    && multiset(u) == multiset(s)
    && (forall j :: size <= j < |s| ==> u[j] == s[j])
    && (forall j :: 0 <= j < node && j < |s| ==> u[j] == s[j])
  }

  /**
   * `u` is the array `s` of a heap of size `n` after `remove_root` took out
   * `x`: `x` was the root and now sits at `u[n - 1]`, the entries `u[..n - 1]`
   * are a heap of the others, all above `x`, and the entries from `n` on are
   * unchanged.
   */
  ghost predicate RootOut<T>(le: (T, T) -> bool, s: seq<T>, n: nat, u: seq<T>, x: T)
    requires 0 < n <= |s|
  {
    && |u| == |s| && x == s[0] && u[n - 1] == x
    && IsHeap(le, u, n - 1)
    && (forall j :: 0 <= j < n - 1 ==> le(x, u[j]))
    && multiset(u[..n - 1]) + multiset{x} == multiset(s[..n])
    && multiset(u) == multiset(s)
    && (forall j :: n <= j < |s| ==> u[j] == s[j])
  }

  /** Everything `remove_root` promises, on the array `s` before, `t` after the swap and `u` after the sift-down. */
  lemma RootRemoved<T(!new)>(le: (T, T) -> bool, s: seq<T>, n: nat, t: seq<T>, u: seq<T>)
    requires TotalPreorder(le) && 0 < n <= |s| && IsHeap(le, s, n) && t == Swapped(s, 0, n - 1)
    requires Sifted(le, t, u, n - 1, 0)
    ensures RootOut(le, s, n, u, s[0])
  {
    RootTakenOut(le, s, n, u);
    SwapPreservesAll(s, 0, n - 1);
  }

  /** `s` with the entries at `i` and `j` exchanged. */
  function Swapped<T>(s: seq<T>, i: nat, j: nat): (t: seq<T>)
    requires i < |s| && j < |s|
    ensures |t| == |s| && t[i] == s[j] && t[j] == s[i]
  {
    s[i := s[j]][j := s[i]]
  }

  /** The order after `_heapify` swaps node `n` with its smallest child `m`. */
  lemma SwapChildUp<T(!new)>(le: (T, T) -> bool, s: seq<T>, size: nat, node: nat, n: nat, m: nat)
    requires TotalPreorder(le) && size <= |s|
    requires node <= n < m < size && (m == Left(n) || m == Right(n))
    requires le(s[m], s[n])
    requires Left(n) < size ==> le(s[m], s[Left(n)])
    requires Right(n) < size ==> le(s[m], s[Right(n)])
    requires forall j :: 0 < j < size && node <= (j - 1) / 2 && (j - 1) / 2 != n ==> OrderedAt(le, s, j)
    requires n != node ==> forall j :: 0 < j < size && (j - 1) / 2 == n ==> le(s[(n - 1) / 2], s[j])
    ensures forall j :: 0 < j < size && node <= (j - 1) / 2 && (j - 1) / 2 != m ==> OrderedAt(le, Swapped(s, m, n), j)
    ensures forall j :: 0 < j < size && (j - 1) / 2 == m ==> le(Swapped(s, m, n)[(m - 1) / 2], Swapped(s, m, n)[j])
  {
    var t := Swapped(s, m, n);
    assert (m - 1) / 2 == n;
    forall j | 0 < j < size && node <= (j - 1) / 2 && (j - 1) / 2 != m
      ensures OrderedAt(le, t, j)
    {
      var p := (j - 1) / 2;
      if p == n {
        if j != m {
          assert j == Left(n) || j == Right(n);
        }
      } else if j == n {
        assert n != node;
        assert le(s[(n - 1) / 2], s[m]);
      } else {
        assert j != m;
        assert OrderedAt(le, s, j);
      }
    }
    forall j | 0 < j < size && (j - 1) / 2 == m
      ensures le(t[(m - 1) / 2], t[j])
    {
      assert OrderedAt(le, s, j);
    }
  }

  /** Exchanging two entries below `size` keeps the multiset of `s[..size]`. */
  lemma SwapPreservesPrefix<T>(s: seq<T>, size: nat, i: nat, j: nat)
    requires i < size <= |s| && j < size
    ensures multiset(Swapped(s, i, j)[..size]) == multiset(s[..size])
  {
    assert Swapped(s, i, j)[..size] == Swapped(s[..size], i, j);
    SwapPreservesAll(s[..size], i, j);
  }

  /**
   * The state of `_heapify(node)` at node `n`: the order holds from `node`
   * on except below `n`, whose children are ordered after `n`'s parent, and
   * the entries are those of `s0` permuted within `s0[..size]`.
   */
  ghost predicate SiftingAt<T>(le: (T, T) -> bool, s0: seq<T>, s: seq<T>, size: nat, node: nat, n: nat)
    requires size <= |s0|
  {
    && |s| == |s0|
    && (forall j :: 0 < j < size && node <= (j - 1) / 2 && (j - 1) / 2 != n ==> OrderedAt(le, s, j))
    && (n != node ==> node < n < size && forall j :: 0 < j < size && (j - 1) / 2 == n ==> le(s[(n - 1) / 2], s[j]))
    && multiset(s[..size]) == multiset(s0[..size])
    && multiset(s) == multiset(s0)
    && (forall j :: size <= j < |s0| ==> s[j] == s0[j])
    && (forall j :: 0 <= j < node && j < |s0| ==> s[j] == s0[j])
  }

  /** One swap of `_heapify`: node `n` exchanged with its smallest child `m`. */
  lemma SiftStep<T(!new)>(le: (T, T) -> bool, s0: seq<T>, s: seq<T>, size: nat, node: nat, n: nat, m: nat)
    requires TotalPreorder(le) && size <= |s0| && SiftingAt(le, s0, s, size, node, n)
    requires node <= n < m < size && (m == Left(n) || m == Right(n))
    requires le(s[m], s[n])
    requires Left(n) < size ==> le(s[m], s[Left(n)])
    requires Right(n) < size ==> le(s[m], s[Right(n)])
    ensures SiftingAt(le, s0, Swapped(s, m, n), size, node, m)
  {
    SwapChildUp(le, s, size, node, n, m);
    SwapPreservesPrefix(s, size, m, n);
    SwapPreservesAll(s, m, n);
  }

  /** `_heapify` stops once `n` is below both of its children. */
  lemma SiftDone<T(!new)>(le: (T, T) -> bool, s0: seq<T>, s: seq<T>, size: nat, node: nat, n: nat)
    requires size <= |s0| && SiftingAt(le, s0, s, size, node, n) && (node < size ==> n < size)
    requires Left(n) < size ==> le(s[n], s[Left(n)])
    requires Right(n) < size ==> le(s[n], s[Right(n)])
    ensures Sifted(le, s0, s, size, node)
  {
    forall j | 0 < j < size && node <= (j - 1) / 2
      ensures OrderedAt(le, s, j)
    {
      if (j - 1) / 2 == n {
        assert j == Left(n) || j == Right(n);
      }
    }
  }

  /** Exchanging two entries keeps the multiset of the whole sequence. */
  lemma SwapPreservesAll<T>(s: seq<T>, i: nat, j: nat)
    requires i < |s| && j < |s|
    ensures multiset(Swapped(s, i, j)) == multiset(s)
  {
    var v := s[i := s[j]];
    assert multiset(v) == multiset(s) - multiset{s[i]} + multiset{s[j]};
    if i != j {
      assert v[j] == s[j];
    }
  }

  class BinaryMinHeap<T(!new)> {
    const le: (T, T) -> bool
    const A: array<T>
    var size: nat

    ghost predicate Valid()
      reads this, A
    {
      TotalPreorder(le) && size <= A.Length && IsHeap(le, A[..], size)
    }

    /** The entries still in the heap. */
    ghost function Elements(): multiset<T>
      reads this, A
      requires size <= A.Length
    {
      multiset(A[..size])
    }

    /** The field assignments of `__init__`; `NewBinaryMinHeap` adds the build. */
    constructor Init(a: array<T>, order: (T, T) -> bool)
      ensures A == a && le == order && size == a.Length
    {
      le := order;
      A := a;
      size := a.Length;
    }

    /** `__len__`. */
    function Len(): (n: nat)
      reads this, A
      requires size <= A.Length
      ensures n == |Elements()|
    {
      size
    }

    /** `is_empty`. */
    function IsEmpty(): (b: bool)
      reads this, A
      requires size <= A.Length
      ensures b <==> Elements() == multiset{}
    {
      size == 0
    }

    /** `_swap_keys`: exchanges two entries of the array. */
    method SwapKeys(i: nat, j: nat)
      requires i < A.Length && j < A.Length
      modifies A
      ensures A[..] == Swapped(old(A[..]), i, j)
      ensures multiset(A[..]) == old(multiset(A[..]))
    {
      var tmp := A[i];
      A[i] := A[j];
      A[j] := tmp;
    }

    /**
     * `_heapify(node)`: sift-down. Given the heap order below `node`, it
     * establishes it from `node` on, compares and swaps only indices below
     * `size`, and leaves the indices before `node` untouched.
     */
    method Heapify(node: nat)
      requires TotalPreorder(le) && size <= A.Length
      requires HeapFrom(le, A[..], size, node + 1)
      modifies A
      ensures Sifted(le, old(A[..]), A[..], size, node)
    {
      ghost var s0 := A[..];
      ghost var s := A[..];
      var n := node;
      var keepFixing := true;
      while keepFixing
        invariant s == A[..] && node <= n
        invariant keepFixing && node < size ==> n < size
        invariant keepFixing ==> SiftingAt(le, s0, s, size, node, n)
        invariant !keepFixing ==> Sifted(le, s0, s, size, node)
        decreases keepFixing, size - n
      {
        var minNode := n;
        var l := Left(n);
        if l < size && le(A[l], A[minNode]) {
          minNode := l;
        }
        var r := Right(n);
        if r < size && le(A[r], A[minNode]) {
          minNode := r;
        }
        if minNode != n {
          assert Compares(le, s[minNode], s[minNode]);
          if l < size {
            assert Compares(le, s[l], s[n]);
            assert Chains(le, s[minNode], s[l], s[n]) && Chains(le, s[minNode], s[n], s[l]);
          }
          if r < size {
            assert Compares(le, s[r], s[l]);
          }
          SwapKeys(minNode, n);
          SiftStep(le, s0, s, size, node, n, minNode);
          s := A[..];
          n := minNode;
        } else {
          if l < size {
            assert Compares(le, s[l], s[n]);
          }
          if r < size {
            assert Compares(le, s[r], s[n]);
          }
          SiftDone(le, s0, s, size, node, n);
          keepFixing := false;
        }
      }
    }

    /**
     * `remove_root`: refuses an empty heap and changes nothing; otherwise swaps the
     * root to the end of the heap, shrinks `size` by one, sifts the new root down
     * and returns the former root, which is now stored at `A[size]` and is below
     * every entry still in the heap.
     */
    method RemoveRoot() returns (r: Result<T, HeapError>)
      requires Valid()
      modifies this, A
      ensures Valid()
      ensures old(size) == 0 ==> r == Failure(Empty) && size == 0 && A[..] == old(A[..])
      ensures old(size) > 0 ==> r.Success? && size == old(size) - 1 && RootOut(le, old(A[..]), old(size), A[..], r.value)
    {
      if IsEmpty() {
        return Failure(Empty);
      }
      ghost var s := A[..];
      ghost var n := size;
      SwapKeys(0, size - 1);
      size := size - 1;
      SwapRootToEnd(le, s, n);
      ghost var t := A[..];
      Heapify(0);
      RootRemoved(le, s, n, t, A[..]);
      r := Success(A[size]);
    }

    /**
     * `_build_heap`: `for i in range(parent(size - 1), -1, -1): _heapify(i)`.
     * With one element `parent(0)` is None and the `range` call fails before any
     * change; with none, `parent(-1) == -1` and the range is empty.
     */
    method BuildHeap() returns (r: Outcome<HeapError>)
      requires TotalPreorder(le) && size == A.Length
      modifies A
      ensures r.Fail? <==> size == 1
      ensures r.Fail? ==> r.error == ParentOfRoot && A[..] == old(A[..])
      ensures r.Pass? ==> Valid()
      ensures multiset(A[..]) == old(multiset(A[..]))
    {
      var start := Parent(size - 1);
      if start.None? {
        return Fail(ParentOfRoot);
      }
      HeapifyDownFrom(start.value);
      r := Pass;
    }

    /**
     * `_build_heap` as evidently intended: a heap of at most one element is
     * already built, so only larger ones run the loop.
     */
    method BuildHeapCorrected()
      requires TotalPreorder(le) && size == A.Length
      modifies A
      ensures Valid()
      ensures multiset(A[..]) == old(multiset(A[..]))
    {
      if size > 1 {
        var start := Parent(size - 1);
        HeapifyDownFrom(start.value);
      }
    }

    /** The loop of `_build_heap`: `_heapify(i)` for `i` from `start` down to 0. */
    method HeapifyDownFrom(start: int)
      requires TotalPreorder(le) && size == A.Length && -1 <= start < size
      requires HeapFrom(le, A[..], size, start + 1)
      modifies A
      ensures Valid()
      ensures multiset(A[..]) == old(multiset(A[..]))
    {
      var i := start;
      while i > -1
        invariant -1 <= i < size
        invariant HeapFrom(le, A[..], size, i + 1)
        invariant multiset(A[..]) == old(multiset(A[..]))
      {
        Heapify(i);
        i := i - 1;
      }
    }
  }

  /**
   * `BinaryMinHeap(A, total_order)`: takes the caller's array itself, sets
   * `size` to its length and builds the heap in place; the array then holds a
   * permutation of its former entries. One element makes the build fail.
   */
  method NewBinaryMinHeap<T(!new)>(a: array<T>, order: (T, T) -> bool) returns (r: Result<BinaryMinHeap<T>, HeapError>)
    requires TotalPreorder(order)
    modifies a
    ensures a.Length == 1 <==> r.Failure?
    ensures r.Failure? ==> r.error == ParentOfRoot && a[..] == old(a[..])
    ensures r.Success? ==> fresh(r.value) && r.value.A == a && r.value.le == order && r.value.size == a.Length && r.value.Valid()
    ensures multiset(a[..]) == old(multiset(a[..]))
  {
    var h := new BinaryMinHeap.Init(a, order);
    var built := h.BuildHeap();
    if built.Fail? {
      return Failure(built.error);
    }
    r := Success(h);
  }
}
