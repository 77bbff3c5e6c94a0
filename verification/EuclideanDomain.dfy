/**
 The Euclidean algorithm of algebra.cpp over any Euclidean domain: Gcd, and the inverse of
 QuotientRing.  The domain is a value carrying the operations; as with groups and fields, the
 laws are an assumption stated element by element.
 */
module EuclideanDomains {
  import opened Wrappers

  datatype Domain<!T> = Domain(
    zero: T,
    one: T,
    add: (T, T) -> T,
    negate: T -> T,
    multiply: (T, T) -> T,
    isUnit: T -> bool,
    divide: (T, T) -> T,    // the quotient and the remainder of the source's DivisionAlgorithm
    mod: (T, T) -> T,
    size: T -> nat)         // what a division makes smaller
  {
    function Subtract(a: T, b: T): T {
      add(a, negate(b))
    }
  }

  ghost predicate Product<T>(D: Domain<T>, g: T, q: T, a: T) {
    D.multiply(g, q) == a
  }

  ghost predicate Divides<T(!new)>(D: Domain<T>, g: T, a: T) {
    exists q :: Product(D, g, q, a)
  }

  // ---------------------------------------------------------------- the laws

  ghost predicate CommutativeAt<T>(D: Domain<T>, a: T, b: T) {
    D.add(a, b) == D.add(b, a) && D.multiply(a, b) == D.multiply(b, a)
  }

  ghost predicate AssociativeAt<T>(D: Domain<T>, a: T, b: T, c: T) {
    && D.add(D.add(a, b), c) == D.add(a, D.add(b, c))
    && D.multiply(D.multiply(a, b), c) == D.multiply(a, D.multiply(b, c))
    && D.multiply(a, D.add(b, c)) == D.add(D.multiply(a, b), D.multiply(a, c))
  }

  ghost predicate NeutralAt<T(!new)>(D: Domain<T>, a: T) {
    && D.add(a, D.zero) == a && D.add(a, D.negate(a)) == D.zero
    && D.multiply(a, D.one) == a
    && (D.isUnit(a) <==> Divides(D, a, D.one))
  }

  ghost predicate DivisionAt<T>(D: Domain<T>, a: T, b: T) {
    b != D.zero ==>
      && D.add(D.multiply(b, D.divide(a, b)), D.mod(a, b)) == a
      && (D.mod(a, b) == D.zero || D.size(D.mod(a, b)) < D.size(b))
  }

  ghost predicate SizeAt<T>(D: Domain<T>, a: T, b: T) {
    a != D.zero && b != D.zero ==> D.multiply(a, b) != D.zero && D.size(a) <= D.size(D.multiply(a, b))
  }

  ghost predicate IsEuclidean<T(!new)>(D: Domain<T>) {
    && D.zero != D.one
    && (forall a, b :: CommutativeAt(D, a, b))
    && (forall a, b, c :: AssociativeAt(D, a, b, c))
    && (forall a :: NeutralAt(D, a))
    && (forall a, b :: DivisionAt(D, a, b))
    && (forall a, b :: SizeAt(D, a, b))
  }

  lemma Commutative<T(!new)>(D: Domain<T>, a: T, b: T)
    requires IsEuclidean(D)
    ensures D.add(a, b) == D.add(b, a) && D.multiply(a, b) == D.multiply(b, a)
  {
    assert CommutativeAt(D, a, b);
  }

  lemma Associative<T(!new)>(D: Domain<T>, a: T, b: T, c: T)
    requires IsEuclidean(D)
    ensures D.add(D.add(a, b), c) == D.add(a, D.add(b, c))
    ensures D.multiply(D.multiply(a, b), c) == D.multiply(a, D.multiply(b, c))
  {
    assert AssociativeAt(D, a, b, c);
  }

  lemma Distributive<T(!new)>(D: Domain<T>, a: T, b: T, c: T)
    requires IsEuclidean(D)
    ensures D.multiply(a, D.add(b, c)) == D.add(D.multiply(a, b), D.multiply(a, c))
    ensures D.multiply(D.add(b, c), a) == D.add(D.multiply(b, a), D.multiply(c, a))
  {
    assert AssociativeAt(D, a, b, c);
    Commutative(D, a, b);
    Commutative(D, a, c);
    Commutative(D, a, D.add(b, c));
  }

  lemma Neutral<T(!new)>(D: Domain<T>, a: T)
    requires IsEuclidean(D)
    ensures D.add(a, D.zero) == a && D.add(D.zero, a) == a
    ensures D.add(a, D.negate(a)) == D.zero && D.add(D.negate(a), a) == D.zero
    ensures D.multiply(a, D.one) == a && D.multiply(D.one, a) == a
  {
    assert NeutralAt(D, a);
    Commutative(D, a, D.zero);
    Commutative(D, a, D.one);
    Commutative(D, a, D.negate(a));
  }

  lemma Units<T(!new)>(D: Domain<T>, a: T)
    requires IsEuclidean(D)
    ensures D.isUnit(a) <==> Divides(D, a, D.one)
  {
    assert NeutralAt(D, a);
  }

  lemma Division<T(!new)>(D: Domain<T>, a: T, b: T)
    requires IsEuclidean(D) && b != D.zero
    ensures D.add(D.multiply(b, D.divide(a, b)), D.mod(a, b)) == a
    ensures D.mod(a, b) == D.zero || D.size(D.mod(a, b)) < D.size(b)
  {
    assert DivisionAt(D, a, b);
  }

  lemma Sizes<T(!new)>(D: Domain<T>, a: T, b: T)
    requires IsEuclidean(D) && a != D.zero && b != D.zero
    ensures D.multiply(a, b) != D.zero && D.size(a) <= D.size(D.multiply(a, b))
  {
    assert SizeAt(D, a, b);
  }

  // ---------------------------------------------------------------- what follows from them

  /** What is added to `a` can be taken over to the other side. */
  lemma MoveOver<T(!new)>(D: Domain<T>, a: T, b: T, c: T)
    requires IsEuclidean(D) && D.add(a, b) == c
    ensures b == D.Subtract(c, a)
  {
    hide IsEuclidean;
    Commutative(D, a, b);
    Associative(D, b, a, D.negate(a));
    Neutral(D, a);
    Neutral(D, b);
  }

  lemma TimesZero<T(!new)>(D: Domain<T>, a: T)
    requires IsEuclidean(D)
    ensures D.multiply(a, D.zero) == D.zero && D.multiply(D.zero, a) == D.zero
  {
    hide IsEuclidean;
    var z := D.multiply(a, D.zero);
    Neutral(D, D.zero);
    Distributive(D, a, D.zero, D.zero);
    MoveOver(D, z, z, z);
    Neutral(D, z);
    Commutative(D, a, D.zero);
  }

  lemma TimesNegate<T(!new)>(D: Domain<T>, a: T, b: T)
    requires IsEuclidean(D)
    ensures D.multiply(a, D.negate(b)) == D.negate(D.multiply(a, b))
  {
    hide IsEuclidean;
    var ab := D.multiply(a, b);
    Distributive(D, a, b, D.negate(b));
    Neutral(D, b);
    TimesZero(D, a);
    MoveOver(D, ab, D.multiply(a, D.negate(b)), D.zero);
    Neutral(D, D.negate(ab));
  }

  lemma DividesSum<T(!new)>(D: Domain<T>, d: T, a: T, b: T)
    requires IsEuclidean(D) && Divides(D, d, a) && Divides(D, d, b)
    ensures Divides(D, d, D.add(a, b))
  {
    hide IsEuclidean;
    var p, q :| Product(D, d, p, a) && Product(D, d, q, b);
    Distributive(D, d, p, q);
    assert Product(D, d, D.add(p, q), D.add(a, b));
  }

  lemma DividesTimes<T(!new)>(D: Domain<T>, d: T, a: T, y: T)
    requires IsEuclidean(D) && Divides(D, d, a)
    ensures Divides(D, d, D.multiply(a, y)) && Divides(D, d, D.negate(D.multiply(a, y)))
  {
    hide IsEuclidean;
    var p :| Product(D, d, p, a);
    Associative(D, d, p, y);
    TimesNegate(D, d, D.multiply(p, y));
    assert Product(D, d, D.multiply(p, y), D.multiply(a, y));
    assert Product(D, d, D.negate(D.multiply(p, y)), D.negate(D.multiply(a, y)));
  }

  lemma DividesItself<T(!new)>(D: Domain<T>, d: T)
    requires IsEuclidean(D)
    ensures Divides(D, d, d) && Divides(D, d, D.zero)
  {
    hide IsEuclidean;
    Neutral(D, d);
    TimesZero(D, d);
    assert Product(D, d, D.one, d) && Product(D, d, D.zero, D.zero);
  }

  lemma DividesQuotient<T(!new)>(D: Domain<T>, a: T, b: T)
    requires IsEuclidean(D) && b != D.zero && D.mod(a, b) == D.zero
    ensures Product(D, b, D.divide(a, b), a) && Divides(D, b, a)
  {
    Division(D, a, b);
    Neutral(D, D.multiply(b, D.divide(a, b)));
    assert Product(D, b, D.divide(a, b), a);
  }

  lemma MultipleNotSmaller<T(!new)>(D: Domain<T>, b: T, a: T)
    requires IsEuclidean(D) && b != D.zero && a != D.zero && Divides(D, b, a)
    ensures D.size(b) <= D.size(a)
  {
    hide IsEuclidean;
    var q :| Product(D, b, q, a);
    TimesZero(D, b);
    Sizes(D, b, q);
  }

  /** A remainder is zero exactly for a multiple. */
  lemma ModIsZero<T(!new)>(D: Domain<T>, a: T, b: T)
    requires IsEuclidean(D) && b != D.zero
    ensures D.mod(a, b) == D.zero <==> Divides(D, b, a)
  {
    hide IsEuclidean, Divides;
    var r, y := D.mod(a, b), D.divide(a, b);
    Division(D, a, b);
    MoveOver(D, D.multiply(b, y), r, a);
    if r == D.zero {
      DividesQuotient(D, a, b);
    } else if Divides(D, b, a) {
      DividesItself(D, b);
      DividesTimes(D, b, b, y);
      DividesSum(D, b, a, D.negate(D.multiply(b, y)));
      MultipleNotSmaller(D, b, r);
    }
  }

  lemma UnitNotZero<T(!new)>(D: Domain<T>, u: T)
    requires IsEuclidean(D) && Divides(D, u, D.one)
    ensures u != D.zero
  {
    var q :| Product(D, u, q, D.one);
    TimesZero(D, q);
  }

  /** No unit is larger than any other element. */
  lemma UnitIsSmall<T(!new)>(D: Domain<T>, u: T, a: T)
    requires IsEuclidean(D) && D.isUnit(u) && a != D.zero
    ensures u != D.zero && D.size(u) <= D.size(a)
  {
    hide IsEuclidean, Divides;
    Units(D, u);
    UnitNotZero(D, u);
    DividesTimes(D, u, D.one, a);
    Neutral(D, a);
    MultipleNotSmaller(D, u, a);
  }

  /** Dividing by a unit is multiplying by its inverse. */
  lemma DivideByUnit<T(!new)>(D: Domain<T>, v: T, g: T, u: T)
    requires IsEuclidean(D) && D.isUnit(g) && Product(D, g, u, D.one)
    ensures D.divide(v, g) == D.multiply(v, u)
  {
    hide IsEuclidean, Divides;
    var q, r := D.divide(v, g), D.mod(v, g);
    Units(D, g);
    UnitNotZero(D, g);
    Division(D, v, g);
    if r != D.zero {
      UnitIsSmall(D, g, r);
    }
    DividesQuotient(D, v, g);
    Commutative(D, g, q);
    Associative(D, q, g, u);
    Neutral(D, q);
  }

  // ---------------------------------------------------------------- combinations

  ghost predicate Combination<T>(D: Domain<T>, a: T, m: T, x: T, k: T, g: T) {
    D.add(D.multiply(a, x), D.multiply(m, k)) == g
  }

  ghost predicate IsInverse<T(!new)>(D: Domain<T>, a: T, m: T, x: T) {
    exists k :: Combination(D, a, m, x, k, D.one)
  }

  /** `a` has an inverse modulo `m`. */
  ghost predicate Invertible<T(!new)>(D: Domain<T>, a: T, m: T) {
    exists x :: IsInverse(D, a, m, x)
  }

  lemma CombinationTimes<T(!new)>(D: Domain<T>, a: T, m: T, x: T, k: T, g: T, c: T)
    requires IsEuclidean(D) && Combination(D, a, m, x, k, g)
    ensures Combination(D, a, m, D.multiply(x, c), D.multiply(k, c), D.multiply(g, c))
  {
    hide IsEuclidean;
    Associative(D, a, x, c);
    Associative(D, m, k, c);
    Distributive(D, c, D.multiply(a, x), D.multiply(m, k));
  }

  lemma Interchange<T(!new)>(D: Domain<T>, a: T, b: T, c: T, d: T)
    requires IsEuclidean(D)
    ensures D.add(D.add(a, b), D.add(c, d)) == D.add(D.add(a, c), D.add(b, d))
  {
    hide IsEuclidean;
    Associative(D, a, b, D.add(c, d));
    Associative(D, b, c, d);
    Commutative(D, b, c);
    Associative(D, c, b, d);
    Associative(D, a, c, D.add(b, d));
  }

  lemma CombinationAdd<T(!new)>(D: Domain<T>, a: T, m: T, x: T, k: T, g: T, x': T, k': T, g': T)
    requires IsEuclidean(D) && Combination(D, a, m, x, k, g) && Combination(D, a, m, x', k', g')
    ensures Combination(D, a, m, D.add(x, x'), D.add(k, k'), D.add(g, g'))
  {
    hide IsEuclidean;
    Distributive(D, a, x, x');
    Distributive(D, m, k, k');
    Interchange(D, D.multiply(a, x), D.multiply(a, x'), D.multiply(m, k), D.multiply(m, k'));
  }

  lemma TimesMinusOne<T(!new)>(D: Domain<T>, a: T)
    requires IsEuclidean(D)
    ensures D.multiply(a, D.negate(D.one)) == D.negate(a)
  {
    TimesNegate(D, a, D.one);
    Neutral(D, a);
  }

  lemma CombinationNegate<T(!new)>(D: Domain<T>, a: T, m: T, x: T, k: T, g: T)
    requires IsEuclidean(D) && Combination(D, a, m, x, k, g)
    ensures Combination(D, a, m, D.negate(x), D.negate(k), D.negate(g))
  {
    hide IsEuclidean;
    var minus := D.negate(D.one);
    CombinationTimes(D, a, m, x, k, g, minus);
    TimesMinusOne(D, x);
    TimesMinusOne(D, k);
    TimesMinusOne(D, g);
  }

  lemma DividesCombination<T(!new)>(D: Domain<T>, d: T, a: T, m: T, x: T, k: T, g: T)
    requires IsEuclidean(D) && Combination(D, a, m, x, k, g) && Divides(D, d, a) && Divides(D, d, m)
    ensures Divides(D, d, g)
  {
    hide IsEuclidean, Divides;
    DividesTimes(D, d, a, x);
    DividesTimes(D, d, m, k);
    DividesSum(D, d, D.multiply(a, x), D.multiply(m, k));
  }

  /** A combination of `a` and `m` that is a unit gives an inverse. */
  lemma InverseFromUnit<T(!new)>(D: Domain<T>, a: T, m: T, v: T, k: T, g: T)
    requires IsEuclidean(D) && Combination(D, a, m, v, k, g) && D.isUnit(g)
    ensures IsInverse(D, a, m, D.divide(v, g)) && Invertible(D, a, m)
  {
    hide IsEuclidean;
    Units(D, g);
    var u :| Product(D, g, u, D.one);
    DivideByUnit(D, v, g, u);
    CombinationTimes(D, a, m, v, k, g, u);
  }

  /** A common divisor of `a` and `m` is a unit if `a` has an inverse. */
  lemma UnitFromInverse<T(!new)>(D: Domain<T>, a: T, m: T, g: T)
    requires IsEuclidean(D) && Invertible(D, a, m) && Divides(D, g, a) && Divides(D, g, m)
    ensures D.isUnit(g)
  {
    hide IsEuclidean, Divides;
    var x, k :| Combination(D, a, m, x, k, D.one);
    DividesCombination(D, g, a, m, x, k, D.one);
    Units(D, g);
  }

  // ---------------------------------------------------------------- the state of the algorithm

  ghost predicate SameDivisors<T(!new)>(D: Domain<T>, a: T, b: T, g0: T, g1: T) {
    forall d :: Divides(D, d, a) && Divides(D, d, b) <==> Divides(D, d, g0) && Divides(D, d, g1)
  }

  lemma DivisorsStep<T(!new)>(D: Domain<T>, a: T, b: T, g0: T, g1: T)
    requires IsEuclidean(D) && g1 != D.zero && SameDivisors(D, a, b, g0, g1)
    ensures SameDivisors(D, a, b, g1, D.mod(g0, g1))
  {
    hide IsEuclidean, Divides;
    var r, y := D.mod(g0, g1), D.divide(g0, g1);
    Division(D, g0, g1);
    MoveOver(D, D.multiply(g1, y), r, g0);
    forall d | Divides(D, d, g1)
      ensures Divides(D, d, g0) <==> Divides(D, d, r)
    {
      DividesTimes(D, d, g1, y);
      if Divides(D, d, g0) {
        DividesSum(D, d, g0, D.negate(D.multiply(g1, y)));
      }
      if Divides(D, d, r) {
        DividesSum(D, d, D.multiply(g1, y), r);
      }
    }
  }

  /** `g0` and `g1` are combinations of `a` and `b` and have the same common divisors. */
  ghost predicate Linked<T(!new)>(D: Domain<T>, a: T, b: T, v0: T, k0: T, g0: T, v1: T, k1: T, g1: T) {
    && SameDivisors(D, a, b, g0, g1)
    && Combination(D, a, b, v0, k0, g0)
    && Combination(D, a, b, v1, k1, g1)
  }

  lemma StartLinked<T(!new)>(D: Domain<T>, a: T, b: T)
    requires IsEuclidean(D)
    ensures Linked(D, a, b, D.zero, D.one, b, D.one, D.zero, a)
  {
    hide IsEuclidean, Divides;
    TimesZero(D, a);
    TimesZero(D, b);
    Neutral(D, a);
    Neutral(D, b);
  }

  lemma LinkedStep<T(!new)>(D: Domain<T>, a: T, b: T, v0: T, k0: T, g0: T, v1: T, k1: T, g1: T)
    requires IsEuclidean(D) && g1 != D.zero && Linked(D, a, b, v0, k0, g0, v1, k1, g1)
    ensures var y := D.divide(g0, g1);
            Linked(D, a, b, v1, k1, g1, D.Subtract(v0, D.multiply(v1, y)), D.Subtract(k0, D.multiply(k1, y)),
                   D.mod(g0, g1))
  {
    hide IsEuclidean, Combination, SameDivisors;
    var y := D.divide(g0, g1);
    DivisorsStep(D, a, b, g0, g1);
    Division(D, g0, g1);
    MoveOver(D, D.multiply(g1, y), D.mod(g0, g1), g0);
    CombinationTimes(D, a, b, v1, k1, g1, y);
    var v, k, g := D.multiply(v1, y), D.multiply(k1, y), D.multiply(g1, y);
    CombinationNegate(D, a, b, v, k, g);
    CombinationAdd(D, a, b, v0, k0, g0, D.negate(v), D.negate(k), D.negate(g));
  }

  lemma LastRemainder<T(!new)>(D: Domain<T>, a: T, b: T, v: T, k: T, g: T, v1: T, k1: T)
    requires IsEuclidean(D) && Linked(D, a, b, v, k, g, v1, k1, D.zero)
    ensures Divides(D, g, a) && Divides(D, g, b)
    ensures forall d :: Divides(D, d, a) && Divides(D, d, b) ==> Divides(D, d, g)
    ensures D.isUnit(g) <==> Invertible(D, a, b)
  {
    hide IsEuclidean, Divides, Combination, Invertible, IsInverse;
    DividesItself(D, g);
    if D.isUnit(g) {
      InverseFromUnit(D, a, b, v, k, g);
    }
    if Invertible(D, a, b) {
      UnitFromInverse(D, a, b, g);
    }
  }

  // ---------------------------------------------------------------- the methods

  ghost function Measure<T>(D: Domain<T>, g: T): nat {
    if g == D.zero then 0 else 1 + D.size(g)
  }

  lemma MeasureStep<T(!new)>(D: Domain<T>, g0: T, g1: T)
    requires IsEuclidean(D) && g1 != D.zero
    ensures Measure(D, D.mod(g0, g1)) < Measure(D, g1)
  {
    Division(D, g0, g1);
  }

  /** A common divisor that every common divisor divides; it is a unit exactly for an invertible `a`. */
  method Gcd<T(==, !new)>(D: Domain<T>, a: T, b: T) returns (g: T)
    requires IsEuclidean(D)
    ensures Divides(D, g, a) && Divides(D, g, b)
    ensures forall d :: Divides(D, d, a) && Divides(D, d, b) ==> Divides(D, d, g)
    ensures D.isUnit(g) <==> Invertible(D, a, b)
  {
    hide IsEuclidean, Linked, Divides, Invertible, Measure;
    var g0, g1 := b, a;
    ghost var v0, k0, v1, k1 := D.zero, D.one, D.one, D.zero;
    StartLinked(D, a, b);
    while g1 != D.zero
      invariant Linked(D, a, b, v0, k0, g0, v1, k1, g1)
      decreases Measure(D, g1)
    {
      LinkedStep(D, a, b, v0, k0, g0, v1, k1, g1);
      MeasureStep(D, g0, g1);
      ghost var y := D.divide(g0, g1);
      v0, k0, v1, k1 := v1, k1, D.Subtract(v0, D.multiply(v1, y)), D.Subtract(k0, D.multiply(k1, y));
      g0, g1 := g1, D.mod(g0, g1);
    }
    LastRemainder(D, a, b, v0, k0, g0, v1, k1);
    g := g0;
  }

  /** A multiple of `m` other than zero comes up among the remainders from `g1` on. */
  ghost predicate MeetsMultiple<T(!new)>(D: Domain<T>, m: T, g0: T, g1: T)
    requires IsEuclidean(D)
    decreases Measure(D, g1)
  {
    g1 != D.zero
    && (MeasureStep(D, g0, g1);
        D.mod(g1, m) == D.zero || MeetsMultiple(D, m, g1, D.mod(g0, g1)))
  }

  /** The loop for `a` ends too early. */
  ghost predicate Unreduced<T(!new)>(D: Domain<T>, m: T, a: T)
    requires IsEuclidean(D)
  {
    D.mod(a, m) != D.zero && MeetsMultiple(D, m, a, D.mod(m, a))
  }

  /** Where the loop is: at its start, or further on towards the same end, with smaller remainders. */
  ghost predicate Under<T(!new)>(D: Domain<T>, m: T, a: T, v0: T, g0: T, g1: T)
    requires IsEuclidean(D)
  {
    || (g0 == m && g1 == a && v0 == D.zero)
    || (&& D.mod(a, m) != D.zero
        && Measure(D, g1) < Measure(D, g0)
        && (Unreduced(D, m, a) <==> MeetsMultiple(D, m, g0, g1)))
  }

  lemma UnderStep<T(!new)>(D: Domain<T>, m: T, a: T, v0: T, v1: T, g0: T, g1: T)
    requires IsEuclidean(D) && m != D.zero && Under(D, m, a, v0, g0, g1) && D.mod(g1, m) != D.zero
    ensures g1 != D.zero && Under(D, m, a, v1, g1, D.mod(g0, g1))
  {
    hide IsEuclidean;
    ModIsZero(D, D.zero, m);
    DividesItself(D, m);
    MeasureStep(D, g0, g1);
  }

  /** At the end the remainder is a greatest common divisor, or the loop has ended too early and it is no unit. */
  lemma UnderEnd<T(!new)>(D: Domain<T>, m: T, a: T, v0: T, k0: T, g0: T, v1: T, k1: T, g1: T)
    requires IsEuclidean(D) && m != D.zero && Under(D, m, a, v0, g0, g1) && D.mod(g1, m) == D.zero
    requires Linked(D, a, m, v0, k0, g0, v1, k1, g1)
    ensures if Unreduced(D, m, a) then !D.isUnit(g0) else D.isUnit(g0) <==> Invertible(D, a, m)
  {
    hide IsEuclidean, Divides, Combination, Invertible, IsInverse;
    DividesItself(D, g0);
    if g1 == D.zero {
      LastRemainder(D, a, m, v0, k0, g0, v1, k1);
      if g0 == m && a == D.zero {
        ModIsZero(D, a, m);
      }
    } else if D.mod(a, m) == D.zero {
      ModIsZero(D, a, m);
      if D.isUnit(m) {
        InverseFromUnit(D, a, m, v0, k0, g0);
      }
      if Invertible(D, a, m) {
        UnitFromInverse(D, a, m, m);
      }
    } else if D.isUnit(g0) {
      UnitIsSmall(D, g0, g1);
    }
  }

  lemma ZeroNoInverse<T(!new)>(D: Domain<T>, m: T, a: T)
    requires IsEuclidean(D) && m != D.zero && D.mod(a, m) != D.zero
    ensures !IsInverse(D, a, m, D.zero)
  {
    hide IsEuclidean, Divides;
    if IsInverse(D, a, m, D.zero) {
      var k :| Combination(D, a, m, D.zero, k, D.one);
      TimesZero(D, a);
      Neutral(D, D.multiply(m, k));
      DividesItself(D, m);
      DividesTimes(D, m, m, k);
      DividesTimes(D, m, D.one, a);
      Neutral(D, a);
      ModIsZero(D, a, m);
    }
  }

  lemma UnderStart<T(!new)>(D: Domain<T>, m: T, a: T)
    requires IsEuclidean(D)
    ensures Under(D, m, a, D.zero, m, a)
  {
  }

  lemma Outcome<T(!new)>(D: Domain<T>, m: T, a: T, v0: T, k0: T, g0: T, v1: T, k1: T, g1: T)
    requires IsEuclidean(D) && m != D.zero && Linked(D, a, m, v0, k0, g0, v1, k1, g1)
    ensures D.isUnit(g0) ==> IsInverse(D, a, m, D.divide(v0, g0)) && Invertible(D, a, m)
    ensures Unreduced(D, m, a) ==> !IsInverse(D, a, m, D.zero)
  {
    hide IsEuclidean, Invertible, IsInverse;
    if D.isUnit(g0) {
      InverseFromUnit(D, a, m, v0, k0, g0);
    }
    if Unreduced(D, m, a) {
      ZeroNoInverse(D, m, a);
    }
  }

  /**
   QuotientRing::MultiplicativeInverse.  Its loop compares with zero in the ring, that is, modulo `m`, so
   it also stops at a remainder that is a multiple of `m`.  The result is zero if there is no inverse, and
   an inverse if there is one, unless the loop has stopped there.  A division by a zero modulus throws.
   */
  method MultiplicativeInverse<T(==, !new)>(D: Domain<T>, m: T, a: T) returns (r: Option<T>)
    requires IsEuclidean(D)
    ensures r.None? <==> m == D.zero
    ensures r.Some? && (Unreduced(D, m, a) || !Invertible(D, a, m)) ==> r.value == D.zero
    ensures r.Some? && Invertible(D, a, m) ==> (IsInverse(D, a, m, r.value) <==> !Unreduced(D, m, a))
  {
    hide IsEuclidean, Linked, Invertible, IsInverse, Measure, Under, Unreduced;
    if m == D.zero {
      return None;
    }
    var g0, g1 := m, a;
    var v0, v1 := D.zero, D.one;
    ghost var k0, k1 := D.one, D.zero;
    StartLinked(D, a, m);
    UnderStart(D, m, a);
    while D.mod(g1, m) != D.zero
      invariant Linked(D, a, m, v0, k0, g0, v1, k1, g1)
      invariant Under(D, m, a, v0, g0, g1)
      decreases Measure(D, g1)
    {
      UnderStep(D, m, a, v0, v1, g0, g1);
      LinkedStep(D, a, m, v0, k0, g0, v1, k1, g1);
      MeasureStep(D, g0, g1);
      var y, g2 := D.divide(g0, g1), D.mod(g0, g1);
      var v2 := D.Subtract(v0, D.multiply(v1, y));
      k0, k1 := k1, D.Subtract(k0, D.multiply(k1, y));
      g0, g1 := g1, g2;
      v0, v1 := v1, v2;
    }
    UnderEnd(D, m, a, v0, k0, g0, v1, k1, g1);
    Outcome(D, m, a, v0, k0, g0, v1, k1, g1);
    r := Some(if D.isUnit(g0) then D.divide(v0, g0) else D.zero);
  }

  // ---------------------------------------------------------------- when the loop ends too early

  lemma {:induction false} NoMultipleBelow<T(!new)>(D: Domain<T>, m: T, g0: T, g1: T)
    requires IsEuclidean(D) && m != D.zero && Measure(D, g1) < Measure(D, m)
    ensures !MeetsMultiple(D, m, g0, g1)
    decreases Measure(D, g1)
  {
    hide IsEuclidean;
    if g1 != D.zero {
      ModIsZero(D, g1, m);
      if D.mod(g1, m) == D.zero {
        MultipleNotSmaller(D, m, g1);
      }
      MeasureStep(D, g0, g1);
      NoMultipleBelow(D, m, g1, D.mod(g0, g1));
    }
  }

  /**
   For an element that is not larger than the modulus, as every reduced one, the loop does not end too
   early; for a larger one that is no multiple of the modulus it always does, if the division leaves the
   smaller modulus as it is.
   */
  lemma UnreducedExactly<T(!new)>(D: Domain<T>, m: T, a: T)
    requires IsEuclidean(D) && m != D.zero
    requires D.size(m) < D.size(a) ==> D.mod(m, a) == m
    ensures Unreduced(D, m, a) <==> D.mod(a, m) != D.zero && D.size(m) < D.size(a)
  {
    hide IsEuclidean, Divides;
    ModIsZero(D, D.zero, m);
    ModIsZero(D, m, m);
    DividesItself(D, m);
    if D.mod(a, m) != D.zero && D.size(a) <= D.size(m) {
      MeasureStep(D, m, a);
      NoMultipleBelow(D, m, a, D.mod(m, a));
    }
  }
}
