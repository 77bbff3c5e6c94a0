/** integer.cpp: the integers as a Euclidean domain.  Division leaves a non-negative remainder. */
module IntegerDomains {
  import opened Integers
  import E = EuclideanDomains

  function Abs(a: int): nat {
    if a < 0 then -a else a
  }

  function IntegerDomain(): E.Domain<int> {
    E.Domain(0, 1, (a, b) => a + b, a => -a, (a, b) => a * b, a => a == 1 || a == -1,
             (a, b) => if b == 0 then 0 else a / b, (a, b) => if b == 0 then a else a % b, Abs)
  }

  ghost predicate Product(g: int, q: int, a: int) {
    g * q == a
  }

  ghost predicate Divides(g: int, a: int) {
    exists q :: Product(g, q, a)
  }

  ghost predicate Bezout(a: int, m: int, x: int, k: int) {
    a * x + k * m == 1
  }

  /** `a` has an inverse modulo `m`. */
  ghost predicate Invertible(a: int, m: int) {
    exists x, k :: Bezout(a, m, x, k)
  }

  // ---------------------------------------------------------------- the laws

  lemma NotAUnit(g: int, c: int)
    requires g * c == 1
    ensures g == 1 || g == -1
  {
    if c > 1 || c < -1 {
      if g > 0 {
        assert g * (c - 1) >= 0 || g * (c + 1) <= 0;
      } else {
        assert g * (c - 1) <= 0 || g * (c + 1) >= 0;
      }
    }
  }

  lemma AbsProduct(a: int, b: int)
    requires a != 0 && b != 0
    ensures a * b != 0 && Abs(a) <= Abs(a * b)
  {
    MulLe(1, Abs(b), Abs(a));
    assert Abs(b) * Abs(a) == Abs(a * b) by {
      assert (-b) * a == -(a * b) && b * (-a) == -(a * b) && (-b) * (-a) == a * b;
    }
  }

  lemma UnitExactly(a: int)
    ensures IntegerDomain().isUnit(a) <==> E.Divides(IntegerDomain(), a, 1)
  {
    var Z := IntegerDomain();
    if a == 1 || a == -1 {
      assert E.Product(Z, a, a, 1);
    }
    if E.Divides(Z, a, 1) {
      var q :| E.Product(Z, a, q, 1);
      NotAUnit(a, q);
    }
  }

  lemma RingLaws(a: int, b: int, c: int)
    ensures E.CommutativeAt(IntegerDomain(), a, b) && E.AssociativeAt(IntegerDomain(), a, b, c)
  {
    assert (a * b) * c == a * (b * c);
    assert a * (b + c) == a * b + a * c;
  }

  lemma DivisionLaws(a: int, b: int)
    ensures E.DivisionAt(IntegerDomain(), a, b) && E.SizeAt(IntegerDomain(), a, b)
  {
    if a != 0 && b != 0 {
      AbsProduct(a, b);
    }
  }

  lemma IntegersEuclidean()
    ensures E.IsEuclidean(IntegerDomain())
  {
    var Z := IntegerDomain();
    forall a, b, c
      ensures E.CommutativeAt(Z, a, b) && E.AssociativeAt(Z, a, b, c)
    {
      RingLaws(a, b, c);
    }
    forall a
      ensures E.NeutralAt(Z, a)
    {
      UnitExactly(a);
    }
    forall a, b
      ensures E.DivisionAt(Z, a, b) && E.SizeAt(Z, a, b)
    {
      DivisionLaws(a, b);
    }
  }

  // ---------------------------------------------------------------- inverses

  lemma IsInverseExactly(a: int, m: int, x: int)
    ensures E.IsInverse(IntegerDomain(), a, m, x) <==> exists k :: Bezout(a, m, x, k)
  {
    var Z := IntegerDomain();
    if E.IsInverse(Z, a, m, x) {
      var k :| E.Combination(Z, a, m, x, k, 1);
      assert Bezout(a, m, x, k);
    }
    if k :| Bezout(a, m, x, k) {
      assert E.Combination(Z, a, m, x, k, 1);
    }
  }

  lemma InvertibleExactly(a: int, m: int)
    ensures E.Invertible(IntegerDomain(), a, m) <==> Invertible(a, m)
  {
    hide Bezout;
    if E.Invertible(IntegerDomain(), a, m) {
      var x :| E.IsInverse(IntegerDomain(), a, m, x);
      IsInverseExactly(a, m, x);
    }
    if Invertible(a, m) {
      var x, k :| Bezout(a, m, x, k);
      IsInverseExactly(a, m, x);
    }
  }

  lemma SmallDividend(m: int, a: int)
    requires 0 <= m < Abs(a)
    ensures m % a == m
  {
  }

  /** For a positive modulus the loop ends too early exactly for a larger operand that is no multiple of it. */
  lemma UnreducedInteger(m: int, a: int)
    requires m > 0
    ensures E.IsEuclidean(IntegerDomain())
    ensures E.Unreduced(IntegerDomain(), m, a) <==> a % m != 0 && m < Abs(a)
  {
    var Z := IntegerDomain();
    IntegersEuclidean();
    if m < Abs(a) {
      SmallDividend(m, a);
    }
    E.UnreducedExactly(Z, m, a);
  }

  /** 7 has an inverse modulo 5, and none is found. */
  lemma InverseCanFail()
    ensures var Z := IntegerDomain();
            E.IsEuclidean(Z) && E.Invertible(Z, 7, 5) && E.Unreduced(Z, 5, 7)
  {
    UnreducedInteger(5, 7);
    assert Bezout(7, 5, 3, -4);
    InvertibleExactly(7, 5);
  }

  lemma Zero()
    ensures IntegerDomain().zero == 0
  {
  }

  /** The inverse of a reduced operand. */
  method MultiplicativeInverse(a: int, m: int) returns (r: int)
    requires 0 <= a < m
    ensures Invertible(a, m) ==> exists k :: Bezout(a, m, r, k)
    ensures !Invertible(a, m) ==> r == 0
  {
    hide E.IsEuclidean, IntegerDomain, Bezout;
    IntegersEuclidean();
    UnreducedInteger(m, a);
    InvertibleExactly(a, m);
    var found := E.MultiplicativeInverse(IntegerDomain(), m, a);
    assert found.Some? by {
      Zero();
    }
    r := found.value;
    IsInverseExactly(a, m, r);
    Zero();
  }
}
