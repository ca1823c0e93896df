/** Generic facts about sequences used by the graph model. */
module Seqs {

  /** No element occurs twice. */
  ghost predicate Distinct<T>(s: seq<T>) {
    forall i, j :: 0 <= i < j < |s| ==> s[i] != s[j]
  }

  /** The index of the first occurrence of `x` in `s`, `|s|` when there is none. */
  function FirstOf<T(==)>(s: seq<T>, x: T): (k: nat)
    ensures k <= |s|
    ensures k < |s| ==> s[k] == x
    ensures forall i :: 0 <= i < k ==> s[i] != x
    ensures k == |s| <==> x !in s
  {
    if |s| == 0 then 0
    else if s[0] == x then 0
    else
      assert forall i :: 1 <= i < |s| ==> s[i] == s[1..][i - 1];
      1 + FirstOf(s[1..], x)
  }

  /** In a sequence without repetitions, the only index holding `s[i]` is `i`. */
  lemma DistinctFirstOf<T>(s: seq<T>, i: int)
    requires Distinct(s) && 0 <= i < |s|
    ensures FirstOf(s, s[i]) == i
  {
  }

  /** Popping the last element of a prefix of `s` leaves a shorter prefix of `s`. */
  lemma PrefixPop<T>(s: seq<T>, q: seq<T>)
    requires 0 < |q| <= |s| && q == s[..|q|]
    ensures q[|q| - 1] == s[|q| - 1] && q[..|q| - 1] == s[..|q| - 1]
  {
  }

  /** The set of the elements of `s` has `|s|` members exactly when `s` has no repetitions. */
  lemma {:induction false} SetOfSeqSize<T>(s: seq<T>)
    ensures |set x | x in s| <= |s|
    ensures |set x | x in s| == |s| <==> Distinct(s)
  {
    if |s| > 0 {
      var t := s[..|s| - 1];
      var last := s[|s| - 1];
      SetOfSeqSize(t);
      assert s == t + [last];
      assert (set x | x in s) == (set x | x in t) + {last};
      if last in t {
        var i :| 0 <= i < |t| && t[i] == last;
        assert s[i] == s[|s| - 1];
        assert (set x | x in s) == (set x | x in t);
      } else {
        assert (set x | x in t) * {last} == {};
        if Distinct(t) {
          forall i, j | 0 <= i < j < |s|
            ensures s[i] != s[j]
          {
            if j == |s| - 1 {
              assert s[i] in t;
            } else {
              assert s[i] == t[i] && s[j] == t[j];
            }
          }
        } else {
          var i, j :| 0 <= i < j < |t| && t[i] == t[j];
          assert s[i] == s[j];
        }
      }
    }
  }
  /** Appending an element that does not occur keeps the elements distinct. */
  lemma DistinctSnoc<T>(s: seq<T>, x: T)
    requires Distinct(s) && x !in s
    ensures Distinct(s + [x])
  {
    forall i, j | 0 <= i < j < |s| + 1
      ensures (s + [x])[i] != (s + [x])[j]
    {
      if j == |s| {
        assert (s + [x])[i] == s[i];
      }
    }
  }

  /** The first occurrence of `y` after `x` is appended. */
  lemma FirstOfSnoc<T>(s: seq<T>, x: T, y: T)
    ensures FirstOf(s + [x], y) == if y in s then FirstOf(s, y) else if y == x then |s| else |s| + 1
  {
    var t := s + [x];
    var k := FirstOf(s, y);
    if k < |s| {
      assert t[k] == y;
      assert forall i :: 0 <= i < k ==> t[i] == s[i];
    } else if y == x {
      assert t[|s|] == y;
      assert forall i :: 0 <= i < |s| ==> t[i] == s[i];
    } else {
      assert y !in t;
    }
  }

  /** A prefix of a prefix of `c` is a prefix of `c`. */
  lemma PrefixTrans<T>(a: seq<T>, b: seq<T>, c: seq<T>)
    requires |a| <= |b| <= |c| && b[..|a|] == a && c[..|b|] == b
    ensures c[..|a|] == a
  {
    assert c[..|a|] == c[..|b|][..|a|];
  }

  /** Concatenation is associative. */
  lemma AppendAssoc<T>(a: seq<T>, b: seq<T>, c: seq<T>)
    ensures a + b + c == a + (b + c)
  {
  }
}
