/**
 The field an elliptic curve is defined over, as a value carrying the operations of
 ModularArithmetic.  As with groups, the laws are an assumption stated element by element.
 */
module Fields {

  datatype Field<!F> = Field(
    zero: F,
    one: F,
    add: (F, F) -> F,
    negate: F -> F,
    multiply: (F, F) -> F,
    multiplicativeInverse: F -> F,    // of zero: zero
    half: F -> F)
  {
    function Subtract(a: F, b: F): F {
      add(a, negate(b))
    }

    function Double(a: F): F {
      add(a, a)
    }

    function Square(a: F): F {
      multiply(a, a)
    }

    function Divide(a: F, b: F): F {
      multiply(a, multiplicativeInverse(b))
    }
  }

  ghost predicate CommutativeAt<F>(K: Field<F>, a: F, b: F) {
    K.add(a, b) == K.add(b, a) && K.multiply(a, b) == K.multiply(b, a)
  }

  ghost predicate AssociativeAt<F>(K: Field<F>, a: F, b: F, c: F) {
    && K.add(K.add(a, b), c) == K.add(a, K.add(b, c))
    && K.multiply(K.multiply(a, b), c) == K.multiply(a, K.multiply(b, c))
    && K.multiply(a, K.add(b, c)) == K.add(K.multiply(a, b), K.multiply(a, c))
  }

  ghost predicate UnitsAt<F>(K: Field<F>, a: F) {
    && K.add(a, K.zero) == a && K.add(a, K.negate(a)) == K.zero
    && K.multiply(a, K.one) == a
    && (a != K.zero ==> K.multiply(a, K.multiplicativeInverse(a)) == K.one)
    && K.half(K.add(a, a)) == a
  }

  /** A field of characteristic other than two. */
  ghost predicate IsField<F(!new)>(K: Field<F>) {
    && K.zero != K.one
    && K.multiplicativeInverse(K.zero) == K.zero
    && (forall a, b :: CommutativeAt(K, a, b))
    && (forall a, b, c :: AssociativeAt(K, a, b, c))
    && (forall a :: UnitsAt(K, a))
  }

  lemma Commutative<F(!new)>(K: Field<F>, a: F, b: F)
    requires IsField(K)
    ensures K.add(a, b) == K.add(b, a) && K.multiply(a, b) == K.multiply(b, a)
  {
    assert CommutativeAt(K, a, b);
  }

  lemma Associative<F(!new)>(K: Field<F>, a: F, b: F, c: F)
    requires IsField(K)
    ensures K.add(K.add(a, b), c) == K.add(a, K.add(b, c))
    ensures K.multiply(K.multiply(a, b), c) == K.multiply(a, K.multiply(b, c))
  {
    assert AssociativeAt(K, a, b, c);
  }

  lemma Distributive<F(!new)>(K: Field<F>, a: F, b: F, c: F)
    requires IsField(K)
    ensures K.multiply(a, K.add(b, c)) == K.add(K.multiply(a, b), K.multiply(a, c))
    ensures K.multiply(K.add(b, c), a) == K.add(K.multiply(b, a), K.multiply(c, a))
  {
    assert AssociativeAt(K, a, b, c);
    Commutative(K, a, b);
    Commutative(K, a, c);
    Commutative(K, a, K.add(b, c));
  }

  lemma Units<F(!new)>(K: Field<F>, a: F)
    requires IsField(K)
    ensures K.add(a, K.zero) == a && K.add(K.zero, a) == a
    ensures K.add(a, K.negate(a)) == K.zero && K.add(K.negate(a), a) == K.zero
    ensures K.multiply(a, K.one) == a && K.multiply(K.one, a) == a
    ensures a != K.zero ==>
              K.multiply(a, K.multiplicativeInverse(a)) == K.one && K.multiply(K.multiplicativeInverse(a), a) == K.one
    ensures K.half(K.add(a, a)) == a
  {
    assert UnitsAt(K, a);
    Commutative(K, a, K.zero);
    Commutative(K, a, K.one);
    Commutative(K, a, K.negate(a));
    Commutative(K, a, K.multiplicativeInverse(a));
  }

  lemma Cancel<F(!new)>(K: Field<F>, c: F, a: F, b: F)
    requires IsField(K) && K.add(c, a) == K.add(c, b)
    ensures a == b
  {
    hide IsField;
    Associative(K, K.negate(c), c, a);
    Associative(K, K.negate(c), c, b);
    Units(K, a);
    Units(K, b);
    Units(K, c);
  }

  lemma Zero<F(!new)>(K: Field<F>, a: F)
    requires IsField(K)
    ensures K.multiply(a, K.zero) == K.zero && K.multiply(K.zero, a) == K.zero
  {
    hide IsField;
    var z := K.multiply(a, K.zero);
    Units(K, K.zero);
    Distributive(K, a, K.zero, K.zero);
    Units(K, z);
    Cancel(K, z, z, K.zero);
    Commutative(K, a, K.zero);
  }

  lemma NegateProduct<F(!new)>(K: Field<F>, a: F, b: F)
    requires IsField(K)
    ensures K.multiply(K.negate(a), b) == K.negate(K.multiply(a, b))
  {
    hide IsField;
    Distributive(K, b, a, K.negate(a));
    Units(K, a);
    Zero(K, b);
    Units(K, K.multiply(a, b));
    Cancel(K, K.multiply(a, b), K.multiply(K.negate(a), b), K.negate(K.multiply(a, b)));
  }

  lemma SumInterchange<F(!new)>(K: Field<F>, a: F, b: F, c: F, d: F)
    requires IsField(K)
    ensures K.add(K.add(a, b), K.add(c, d)) == K.add(K.add(a, c), K.add(b, d))
  {
    hide IsField;
    Associative(K, a, b, K.add(c, d));
    Associative(K, b, c, d);
    Commutative(K, b, c);
    Associative(K, c, b, d);
    Associative(K, a, c, K.add(b, d));
  }

  lemma NegateSum<F(!new)>(K: Field<F>, a: F, b: F)
    requires IsField(K)
    ensures K.negate(K.add(a, b)) == K.add(K.negate(a), K.negate(b))
  {
    hide IsField;
    SumInterchange(K, a, b, K.negate(a), K.negate(b));
    Units(K, a);
    Units(K, b);
    Units(K, K.zero);
    Units(K, K.add(a, b));
    Cancel(K, K.add(a, b), K.negate(K.add(a, b)), K.add(K.negate(a), K.negate(b)));
  }

  lemma NegateNegate<F(!new)>(K: Field<F>, a: F)
    requires IsField(K)
    ensures K.negate(K.negate(a)) == a
  {
    hide IsField;
    Units(K, a);
    Units(K, K.negate(a));
    Cancel(K, K.negate(a), K.negate(K.negate(a)), a);
  }

  /** (a + b) - (c + d) == (a - c) + (b - d) */
  lemma SubtractSums<F(!new)>(K: Field<F>, a: F, b: F, c: F, d: F)
    requires IsField(K)
    ensures K.Subtract(K.add(a, b), K.add(c, d)) == K.add(K.Subtract(a, c), K.Subtract(b, d))
  {
    hide IsField;
    NegateSum(K, c, d);
    SumInterchange(K, a, b, K.negate(c), K.negate(d));
  }

  /** What is taken away can be added again. */
  lemma SubtractIs<F(!new)>(K: Field<F>, a: F, b: F, c: F)
    requires IsField(K)
    ensures K.Subtract(a, b) == c <==> a == K.add(c, b)
  {
    hide IsField;
    Associative(K, a, K.negate(b), b);
    Associative(K, c, b, K.negate(b));
    Units(K, a);
    Units(K, b);
    Units(K, c);
  }

  lemma SubtractProduct<F(!new)>(K: Field<F>, a: F, b: F, c: F)
    requires IsField(K)
    ensures K.multiply(K.Subtract(a, b), c) == K.Subtract(K.multiply(a, c), K.multiply(b, c))
  {
    hide IsField;
    Distributive(K, c, a, K.negate(b));
    NegateProduct(K, b, c);
  }

  /** c * (a - b) == c * a - c * b */
  lemma ProductSubtract<F(!new)>(K: Field<F>, c: F, a: F, b: F)
    requires IsField(K)
    ensures K.multiply(c, K.Subtract(a, b)) == K.Subtract(K.multiply(c, a), K.multiply(c, b))
  {
    hide IsField;
    SubtractProduct(K, a, b, c);
    Commutative(K, c, K.Subtract(a, b));
    Commutative(K, c, a);
    Commutative(K, c, b);
  }

  lemma SquareNegate<F(!new)>(K: Field<F>, a: F)
    requires IsField(K)
    ensures K.Square(K.negate(a)) == K.Square(a)
  {
    hide IsField;
    NegateProduct(K, a, K.negate(a));
    Commutative(K, a, K.negate(a));
    NegateProduct(K, a, a);
    NegateNegate(K, K.multiply(a, a));
  }

  lemma DoubleProduct<F(!new)>(K: Field<F>, a: F, b: F)
    requires IsField(K)
    ensures K.multiply(K.Double(a), b) == K.Double(K.multiply(a, b))
  {
    hide IsField;
    Distributive(K, b, a, a);
  }

  /** (a * b) * (c * d) == (a * c) * (b * d) */
  lemma Interchange<F(!new)>(K: Field<F>, a: F, b: F, c: F, d: F)
    requires IsField(K)
    ensures K.multiply(K.multiply(a, b), K.multiply(c, d)) == K.multiply(K.multiply(a, c), K.multiply(b, d))
  {
    hide IsField;
    Associative(K, a, b, K.multiply(c, d));
    Associative(K, b, c, d);
    Commutative(K, b, c);
    Associative(K, c, b, d);
    Associative(K, a, c, K.multiply(b, d));
  }

  /** a * (b * c) == b * (a * c) */
  lemma Swap<F(!new)>(K: Field<F>, a: F, b: F, c: F)
    requires IsField(K)
    ensures K.multiply(a, K.multiply(b, c)) == K.multiply(b, K.multiply(a, c))
  {
    hide IsField;
    Associative(K, a, b, c);
    Associative(K, b, a, c);
    Commutative(K, a, b);
  }

  lemma NoZeroDivisors<F(!new)>(K: Field<F>, a: F, b: F)
    requires IsField(K)
    ensures K.multiply(a, b) == K.zero <==> a == K.zero || b == K.zero
  {
    hide IsField;
    Zero(K, a);
    Zero(K, b);
    if a != K.zero && K.multiply(a, b) == K.zero {
      var i := K.multiplicativeInverse(a);
      Units(K, a);
      Associative(K, i, a, b);
      Units(K, b);
      Zero(K, i);
    }
  }

  lemma InverseZero<F(!new)>(K: Field<F>, a: F)
    requires IsField(K)
    ensures K.multiplicativeInverse(a) == K.zero <==> a == K.zero
  {
    if a != K.zero {
      Units(K, a);
      Zero(K, a);
    }
  }

  lemma DoubleZero<F(!new)>(K: Field<F>, a: F)
    requires IsField(K)
    ensures K.Double(a) == K.zero <==> a == K.zero
  {
    Units(K, a);
    Units(K, K.zero);
  }

  lemma InverseFactor<F(!new)>(K: Field<F>, a: F, b: F)
    requires IsField(K) && K.multiply(a, b) != K.zero && a != K.zero
    ensures K.multiply(b, K.multiplicativeInverse(K.multiply(a, b))) == K.multiplicativeInverse(a)
  {
    hide IsField;
    var i, j := K.multiplicativeInverse(a), K.multiplicativeInverse(K.multiply(a, b));
    var x := K.multiply(b, j);
    Units(K, K.multiply(a, b));
    Associative(K, a, b, j);
    assert K.multiply(a, x) == K.one;
    Associative(K, i, a, x);
    Units(K, a);
    Units(K, x);
    Units(K, i);
  }

  /** The inverse of a product is enough to find the inverse of either factor. */
  lemma InverseFromProduct<F(!new)>(K: Field<F>, a: F, b: F)
    requires IsField(K) && K.multiply(a, b) != K.zero
    ensures K.multiply(b, K.multiplicativeInverse(K.multiply(a, b))) == K.multiplicativeInverse(a)
    ensures K.multiply(a, K.multiplicativeInverse(K.multiply(a, b))) == K.multiplicativeInverse(b)
  {
    hide IsField;
    NoZeroDivisors(K, a, b);
    Commutative(K, a, b);
    InverseFactor(K, a, b);
    InverseFactor(K, b, a);
  }

  // ---------------------------------------------------------------- powers

  function Power<F>(K: Field<F>, z: F, n: nat): F {
    if n == 0 then K.one else K.multiply(Power(K, z, n - 1), z)
  }

  lemma {:induction false} PowerAdd<F(!new)>(K: Field<F>, z: F, m: nat, n: nat)
    requires IsField(K)
    ensures K.multiply(Power(K, z, m), Power(K, z, n)) == Power(K, z, m + n)
  {
    hide IsField;
    if n == 0 {
      Units(K, Power(K, z, m));
    } else {
      PowerAdd(K, z, m, n - 1);
      Associative(K, Power(K, z, m), Power(K, z, n - 1), z);
    }
  }

  lemma PowerOne<F(!new)>(K: Field<F>, z: F)
    requires IsField(K)
    ensures Power(K, z, 1) == z && Power(K, z, 2) == K.Square(z)
  {
    Units(K, z);
  }

  lemma {:induction false} PowerZero<F(!new)>(K: Field<F>, z: F, n: nat)
    requires IsField(K) && n > 0
    ensures Power(K, z, n) == K.zero <==> z == K.zero
  {
    hide IsField;
    if n == 1 {
      Units(K, z);
    } else {
      PowerZero(K, z, n - 1);
    }
    NoZeroDivisors(K, Power(K, z, n - 1), z);
  }

  /** A product of two terms, each a coefficient times a power of `z`. */
  lemma Monomials<F(!new)>(K: Field<F>, z: F, a: F, m: nat, b: F, n: nat)
    requires IsField(K)
    ensures K.multiply(K.multiply(a, Power(K, z, m)), K.multiply(b, Power(K, z, n)))
         == K.multiply(K.multiply(a, b), Power(K, z, m + n))
  {
    hide IsField;
    Interchange(K, a, Power(K, z, m), b, Power(K, z, n));
    PowerAdd(K, z, m, n);
  }
}
