/**
 * Extended distances: a finite real or `float('inf')`.
 * `Inf + c == Inf`, and `Inf < Inf` is false, as with IEEE infinity.
 */
module Distance {

  /** A non-negative edge cost (an `Edge` refuses negative costs). */
  type Cost = c: real | c >= 0.0

  datatype Dist = Fin(r: real) | Inf

  /** `d + c` for an edge cost `c`. */
  function Add(d: Dist, c: real): (s: Dist)
    ensures s.Inf? <==> d.Inf?
    ensures d.Fin? ==> s.r == d.r + c
  {
    match d
    case Inf => Inf
    case Fin(x) => Fin(x + c)
  }

  /** `a + b` on extended distances. */
  function Plus(a: Dist, b: Dist): Dist {
    if a.Inf? || b.Inf? then Inf else Fin(a.r + b.r)
  }

  /** `a < b`. */
  predicate Lt(a: Dist, b: Dist) {
    match (a, b)
    case (Fin(x), Fin(y)) => x < y
    case (Fin(_), Inf) => true
    case (Inf, _) => false
  }

  /** `a <= b`. */
  predicate Le(a: Dist, b: Dist) {
    !Lt(b, a)
  }

  /** The smaller of two distances. */
  function Min(a: Dist, b: Dist): (m: Dist)
    ensures Le(m, a) && Le(m, b)
    ensures m == a || m == b
  {
    if Lt(b, a) then b else a
  }

  /** `Inf` is neutral for `Min`, which is commutative and associative. */
  lemma MinFacts(a: Dist, b: Dist, c: Dist)
    ensures Min(a, Inf) == a && Min(Inf, a) == a
    ensures Min(a, b) == Min(b, a)
    ensures Min(Min(a, b), c) == Min(a, Min(b, c))
  {
  }

  /** `<=` on extended distances is a total order; adding a non-negative cost never decreases. */
  lemma LeFacts()
    ensures forall a: Dist :: Le(a, a)
    ensures forall a: Dist, b: Dist :: Le(a, b) || Le(b, a)
    ensures forall a: Dist, b: Dist :: Le(a, b) && Le(b, a) ==> a == b
    ensures forall a: Dist, b: Dist, c: Dist :: Le(a, b) && Le(b, c) ==> Le(a, c)
    ensures forall a: Dist, b: Dist, c: Dist :: Lt(a, b) && Le(b, c) ==> Lt(a, c)
    ensures forall a: Dist, b: Dist, c: Dist :: Le(a, b) && Lt(b, c) ==> Lt(a, c)
    ensures forall a: Dist, c: Cost :: Le(a, Add(a, c))
  {
  }
  lemma LeTrans(a: Dist, b: Dist, c: Dist)
    requires Le(a, b) && Le(b, c)
    ensures Le(a, c)
  {
  }

  lemma LeAntisymmetric(a: Dist, b: Dist)
    requires Le(a, b) && Le(b, a)
    ensures a == b
  {
  }

  /** Adding the same cost keeps the order. */
  lemma AddMonotone(a: Dist, b: Dist, c: real)
    requires Le(a, b)
    ensures Le(Add(a, c), Add(b, c))
  {
  }
  /** Adding a distance distributes over the minimum. */
  lemma PlusMin(a: Dist, b: Dist, c: Dist)
    ensures Plus(a, Min(b, c)) == Min(Plus(a, b), Plus(a, c))
  {
  }

  lemma PlusMinRight(a: Dist, b: Dist, c: Dist)
    ensures Plus(Min(a, b), c) == Min(Plus(a, c), Plus(b, c))
  {
  }

  /** `+` on extended distances is associative. */
  lemma PlusAssoc(a: Dist, b: Dist, c: Dist)
    ensures Plus(Plus(a, b), c) == Plus(a, Plus(b, c))
  {
  }

  /** Adding bounded distances gives a bounded sum. */
  lemma PlusMonotone(a: Dist, a': Dist, b: Dist, b': Dist)
    requires Le(a, a') && Le(b, b')
    ensures Le(Plus(a, b), Plus(a', b'))
  {
  }

  /** Adding a settled distance of 0. */
  lemma PlusZero(d: Dist, wc: Dist)
    requires d.Fin? && Le(d, wc)
    ensures Le(Plus(d, Fin(0.0)), wc)
  {
  }

  /** A cheaper cost gives a distance no larger. */
  lemma AddCheaper(a: Dist, c1: real, c2: real)
    requires c1 <= c2
    ensures Le(Add(a, c1), Add(a, c2))
  {
  }
}
