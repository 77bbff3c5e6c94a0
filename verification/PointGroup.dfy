/**
 The laws of ecp.cpp's point addition: the chord and the tangent meet the curve again in the negated
 sum, and the points make up an abelian group as far as associativity is given.
 */
module PointGroups {
  import opened Fields
  import opened EllipticCurves
  import AbstractGroups

  // ---------------------------------------------------------------- a line through a point of the curve

  function Cubic<F>(C: Curve<F>, x: F): F {
    var K := C.field;
    K.add(K.multiply(K.add(K.multiply(x, x), C.a), x), C.b)
  }

  /** How far (x, y) is from the curve. */
  function Defect<F>(C: Curve<F>, x: F, y: F): F {
    C.field.Subtract(Cubic(C, x), C.field.Square(y))
  }

  /** The numerator of the tangent's slope. */
  function Derivative<F>(C: Curve<F>, x: F): F {
    var K := C.field;
    K.add(K.add(K.Double(K.Square(x)), K.Square(x)), C.a)
  }

  function ThreeAnd<F>(K: Field<F>, x: F, u: F): F {
    K.add(x, K.add(K.Double(x), u))
  }

  /** (x + u)^2 == x^2 + u * (2 * x + u) */
  lemma SquareSum<F(!new)>(K: Field<F>, x: F, u: F)
    requires IsField(K)
    ensures K.Square(K.add(x, u)) == K.add(K.Square(x), K.multiply(u, K.add(K.Double(x), u)))
  {
    hide IsField;
    var s := K.add(x, u);
    var xx, xu, uu := K.multiply(x, x), K.multiply(x, u), K.multiply(u, u);
    Distributive(K, s, x, u);
    Distributive(K, x, x, u);
    Distributive(K, u, x, u);
    Commutative(K, x, u);
    Fields.Associative(K, xx, xu, K.add(xu, uu));
    Fields.Associative(K, xu, xu, uu);
    Distributive(K, u, K.Double(x), u);
    Distributive(K, u, x, x);
  }

  /** (2 * x + u) * (x + u) == 2 * x^2 + u * (3 * x + u) */
  lemma ProductSum<F(!new)>(K: Field<F>, x: F, u: F)
    requires IsField(K)
    ensures K.multiply(K.add(K.Double(x), u), K.add(x, u))
         == K.add(K.Double(K.Square(x)), K.multiply(u, ThreeAnd(K, x, u)))
  {
    hide IsField;
    var s := K.add(K.Double(x), u);
    Distributive(K, s, x, u);
    Distributive(K, x, K.Double(x), u);
    DoubleProduct(K, x, x);
    Commutative(K, s, u);
    Distributive(K, u, x, s);
    Fields.Associative(K, K.Double(K.Square(x)), K.multiply(u, x), K.multiply(u, s));
  }

  /** (x^2 + a) + (2 * x^2 + r) == (3 * x^2 + a) + r */
  lemma CollectDerivative<F(!new)>(C: Curve<F>, x: F, r: F)
    requires IsField(C.field)
    ensures var K := C.field;
            K.add(K.add(K.Square(x), C.a), K.add(K.Double(K.Square(x)), r)) == K.add(Derivative(C, x), r)
  {
    hide IsField;
    var K := C.field;
    var xx, dd := K.Square(x), K.Double(K.Square(x));
    SumInterchange(K, xx, C.a, dd, r);
    Commutative(K, xx, dd);
    Fields.Associative(K, K.add(dd, xx), C.a, r);
  }

  lemma CubicSum<F(!new)>(C: Curve<F>, x: F, u: F)
    requires IsField(C.field)
    ensures var K := C.field;
            Cubic(C, K.add(x, u))
            == K.add(Cubic(C, x), K.multiply(u, K.add(Derivative(C, x), K.multiply(u, ThreeAnd(K, x, u)))))
  {
    hide IsField, ThreeAnd;
    var K := C.field;
    var X, xx, s := K.add(x, u), K.Square(x), K.add(K.Double(x), u);
    var us, m := K.multiply(u, s), K.add(xx, C.a);
    SquareSum(K, x, u);
    // (xx + us) + a == m + us
    Fields.Associative(K, xx, us, C.a);
    Commutative(K, us, C.a);
    Fields.Associative(K, xx, C.a, us);
    // (m + us) * X == m * x + u * (m + s * X)
    Distributive(K, X, m, us);
    Distributive(K, m, x, u);
    Fields.Associative(K, u, s, X);
    Commutative(K, m, u);
    Distributive(K, u, m, K.multiply(s, X));
    Fields.Associative(K, K.multiply(m, x), K.multiply(u, m), K.multiply(u, K.multiply(s, X)));
    ProductSum(K, x, u);
    CollectDerivative(C, x, K.multiply(u, ThreeAnd(K, x, u)));
    var d := K.multiply(u, K.add(m, K.multiply(s, X)));
    Fields.Associative(K, K.multiply(m, x), d, C.b);
    Commutative(K, d, C.b);
    Fields.Associative(K, K.multiply(m, x), C.b, d);
  }

  /** (y + t * u)^2 == y^2 + u * (t * 2 * y + u * t^2) */
  lemma LineSquare<F(!new)>(K: Field<F>, y: F, t: F, u: F)
    requires IsField(K)
    ensures K.Square(K.add(y, K.multiply(t, u)))
         == K.add(K.Square(y), K.multiply(u, K.add(K.multiply(t, K.Double(y)), K.multiply(u, K.Square(t)))))
  {
    hide IsField;
    var tu := K.multiply(t, u);
    SquareSum(K, y, tu);
    Commutative(K, t, u);
    Fields.Associative(K, u, t, K.add(K.Double(y), tu));
    Distributive(K, t, K.Double(y), tu);
    Fields.Associative(K, t, t, u);
    Commutative(K, K.Square(t), u);
  }

  /** The distance from the curve, along a line of slope `t` through (x, y). */
  lemma DefectOnLine<F(!new)>(C: Curve<F>, x: F, y: F, t: F, u: F)
    requires IsField(C.field)
    ensures var K := C.field;
            Defect(C, K.add(x, u), K.add(y, K.multiply(t, u)))
            == K.add(Defect(C, x, y),
                     K.multiply(u, K.add(K.Subtract(Derivative(C, x), K.multiply(t, K.Double(y))),
                                         K.multiply(u, K.Subtract(ThreeAnd(K, x, u), K.Square(t))))))
  {
    hide IsField, Cubic, Derivative, ThreeAnd;
    var K := C.field;
    var N, M, T, S := Derivative(C, x), ThreeAnd(K, x, u), K.multiply(t, K.Double(y)), K.Square(t);
    CubicSum(C, x, u);
    LineSquare(K, y, t, u);
    var B, E := K.add(N, K.multiply(u, M)), K.add(T, K.multiply(u, S));
    SubtractSums(K, Cubic(C, x), K.multiply(u, B), K.Square(y), K.multiply(u, E));
    ProductSubtract(K, u, B, E);
    SubtractSums(K, N, K.multiply(u, M), T, K.multiply(u, S));
    ProductSubtract(K, u, M, S);
  }

  /** y^2 == x^3 + a * x + b */
  lemma VerifyPointExactly<F(!new)>(C: Curve<F>, P: ECPPoint<F>)
    requires IsField(C.field)
    ensures var K := C.field;
            VerifyPoint(C, P) <==>
            P.Identity? || K.Square(P.y) == K.add(K.add(Power(K, P.x, 3), K.multiply(C.a, P.x)), C.b)
  {
    hide IsField;
    var K := C.field;
    if P.Affine? {
      PowerOne(K, P.x);
      assert Power(K, P.x, 3) == K.multiply(K.Square(P.x), P.x);
      Distributive(K, P.x, K.Square(P.x), C.a);
      SubtractIs(K, Cubic(C, P.x), K.Square(P.y), K.zero);
      Units(K, K.Square(P.y));
    }
  }

  lemma OnCurve<F(!new)>(C: Curve<F>, x: F, y: F)
    ensures VerifyPoint(C, Affine(x, y)) <==> Defect(C, x, y) == C.field.zero
  {
  }

  lemma NegateOnCurve<F(!new)>(C: Curve<F>, P: ECPPoint<F>)
    requires IsField(C.field)
    ensures VerifyPoint(C, NegatePoint(C, P)) <==> VerifyPoint(C, P)
  {
    hide IsField;
    if P.Affine? {
      SquareNegate(C.field, P.y);
    }
  }

  // ---------------------------------------------------------------- the third point on a line

  lemma QuotientTimes<F(!new)>(K: Field<F>, n: F, d: F)
    requires IsField(K) && d != K.zero
    ensures K.multiply(K.Divide(n, d), d) == n
  {
    hide IsField;
    Units(K, d);
    Units(K, n);
    Fields.Associative(K, n, K.multiplicativeInverse(d), d);
  }

  lemma CollectRoots<F(!new)>(K: Field<F>, x: F, u: F, v: F)
    requires IsField(K)
    ensures K.add(K.add(K.add(u, x), K.add(x, v)), x) == K.add(ThreeAnd(K, x, v), u)
  {
    hide IsField;
    var b := K.add(K.Double(x), v);
    Fields.Associative(K, u, x, K.add(x, v));
    Fields.Associative(K, x, x, v);
    assert K.add(K.add(u, x), K.add(x, v)) == K.add(u, b);
    Fields.Associative(K, u, b, x);
    Commutative(K, b, x);
    Commutative(K, u, K.add(x, b));
  }

  /** From x' = t^2 - x - (x + v) and u = x' - x: 3 * x + v and u make up t^2. */
  lemma SumOfRoots<F(!new)>(K: Field<F>, x: F, v: F, s: F)
    requires IsField(K)
    ensures var u := K.Subtract(K.Subtract(K.Subtract(s, x), K.add(x, v)), x);
            K.add(ThreeAnd(K, x, v), u) == s && K.add(ThreeAnd(K, x, u), v) == s
  {
    hide IsField, ThreeAnd;
    var q := K.add(x, v);
    var x' := K.Subtract(K.Subtract(s, x), q);
    var u := K.Subtract(x', x);
    SubtractIs(K, x', x, u);
    SubtractIs(K, K.Subtract(s, x), q, x');
    SubtractIs(K, s, x, K.add(x', q));
    assert s == K.add(K.add(K.add(u, x), K.add(x, v)), x);
    CollectRoots(K, x, u, v);
    SumInterchange(K, u, x, x, v);
    Commutative(K, K.add(u, x), K.add(x, v));
    Commutative(K, u, x);
    Commutative(K, x, v);
    assert s == K.add(K.add(K.add(v, x), K.add(x, u)), x);
    CollectRoots(K, x, v, u);
  }

  /** t * (xP - x) - yP is the negative of the height of the line at x. */
  lemma LineOpposite<F(!new)>(K: Field<F>, xP: F, yP: F, t: F, x: F)
    requires IsField(K)
    ensures K.Subtract(K.multiply(t, K.Subtract(xP, x)), yP)
         == K.negate(K.add(yP, K.multiply(t, K.Subtract(x, xP))))
  {
    hide IsField;
    var u := K.Subtract(x, xP);
    NegateSum(K, x, K.negate(xP));
    NegateNegate(K, xP);
    Commutative(K, K.negate(x), xP);
    assert K.Subtract(xP, x) == K.negate(u);
    Commutative(K, t, K.negate(u));
    NegateProduct(K, u, t);
    Commutative(K, u, t);
    NegateSum(K, yP, K.multiply(t, u));
    Commutative(K, K.negate(yP), K.negate(K.multiply(t, u)));
  }

  /** The point opposite to the one at `u` on the line is on the curve, if the line meets the curve there. */
  lemma OppositeOnCurve<F(!new)>(C: Curve<F>, P: ECPPoint<F>, t: F, x: F)
    requires IsField(C.field) && VerifyPoint(C, P) && P.Affine?
    requires var K := C.field;
             var u := K.Subtract(x, P.x);
             K.add(K.Subtract(Derivative(C, P.x), K.multiply(t, K.Double(P.y))),
                   K.multiply(u, K.Subtract(ThreeAnd(K, P.x, u), K.Square(t)))) == K.zero
    ensures var K := C.field;
            VerifyPoint(C, Affine(x, K.Subtract(K.multiply(t, K.Subtract(P.x, x)), P.y)))
  {
    hide IsField, VerifyPoint, Derivative, ThreeAnd, Defect;
    var K := C.field;
    var u := K.Subtract(x, P.x);
    var Y := K.add(P.y, K.multiply(t, u));
    SubtractIs(K, x, P.x, u);
    Commutative(K, u, P.x);
    OnCurve(C, P.x, P.y);
    DefectOnLine(C, P.x, P.y, t, u);
    Zero(K, u);
    Units(K, K.zero);
    OnCurve(C, x, Y);
    LineOpposite(K, P.x, P.y, t, x);
    NegateOnCurve(C, Affine(x, Y));
  }

  /** The chord meets the curve where u * (3 * x + u - t^2) is the same as for Q. */
  lemma ChordRoot<F(!new)>(C: Curve<F>, P: ECPPoint<F>, Q: ECPPoint<F>, t: F)
    requires IsField(C.field) && P.Affine? && Q.Affine? && VerifyPoint(C, P) && VerifyPoint(C, Q) && P.x != Q.x
    requires C.field.multiply(t, C.field.Subtract(Q.x, P.x)) == C.field.Subtract(Q.y, P.y)
    ensures var K := C.field;
            var v := K.Subtract(Q.x, P.x);
            K.add(K.Subtract(Derivative(C, P.x), K.multiply(t, K.Double(P.y))),
                  K.multiply(v, K.Subtract(ThreeAnd(K, P.x, v), K.Square(t)))) == K.zero
  {
    hide IsField, VerifyPoint, Derivative, ThreeAnd, Defect;
    var K := C.field;
    var v := K.Subtract(Q.x, P.x);
    SubtractIs(K, Q.x, P.x, v);
    SubtractIs(K, Q.x, P.x, K.zero);
    Units(K, P.x);
    Commutative(K, v, P.x);
    SubtractIs(K, Q.y, P.y, K.multiply(t, v));
    Commutative(K, K.multiply(t, v), P.y);
    OnCurve(C, P.x, P.y);
    OnCurve(C, Q.x, Q.y);
    DefectOnLine(C, P.x, P.y, t, v);
    var g := K.add(K.Subtract(Derivative(C, P.x), K.multiply(t, K.Double(P.y))),
                   K.multiply(v, K.Subtract(ThreeAnd(K, P.x, v), K.Square(t))));
    Units(K, K.multiply(v, g));
    NoZeroDivisors(K, v, g);
  }

  lemma Remaining<F(!new)>(K: Field<F>, n: F, u: F)
    requires IsField(K)
    ensures K.Subtract(n, K.add(n, u)) == K.negate(u)
  {
    hide IsField;
    NegateSum(K, n, u);
    Fields.Associative(K, n, K.negate(n), K.negate(u));
    Units(K, n);
    Units(K, K.negate(u));
  }

  /** u * (m - s) is v * (n - s) when m + v and n + u are both s. */
  lemma RootsExchange<F(!new)>(K: Field<F>, u: F, v: F, m: F, n: F, s: F)
    requires IsField(K) && K.add(n, u) == s && K.add(m, v) == s
    ensures K.multiply(u, K.Subtract(m, s)) == K.multiply(v, K.Subtract(n, s))
  {
    hide IsField;
    Remaining(K, n, u);
    Remaining(K, m, v);
    Commutative(K, u, K.negate(v));
    Commutative(K, v, K.negate(u));
    NegateProduct(K, v, u);
    NegateProduct(K, u, v);
    Commutative(K, u, v);
  }

  // ---------------------------------------------------------------- sums and doubles

  /** -(P + Q) lies on the line through P and Q, and the three x make up the square of its slope. */
  ghost predicate OnChord<F>(K: Field<F>, P: ECPPoint<F>, Q: ECPPoint<F>, R: ECPPoint<F>) {
    P.Affine? && Q.Affine? && R.Affine? &&
    var dx, dy := K.Subtract(Q.x, P.x), K.Subtract(Q.y, P.y);
    && K.multiply(dy, K.Subtract(R.x, P.x)) == K.multiply(K.Subtract(K.negate(R.y), P.y), dx)
    && K.multiply(K.add(K.add(R.x, Q.x), P.x), K.Square(dx)) == K.Square(dy)
  }

  /** -2 * P lies on the tangent at P, and the x of the double meeting P twice makes up the square of its slope. */
  ghost predicate OnTangent<F>(C: Curve<F>, P: ECPPoint<F>, R: ECPPoint<F>) {
    P.Affine? && R.Affine? &&
    var K := C.field;
    var dx := K.Double(P.y);
    var dy := K.add(K.add(K.Double(K.Square(P.x)), K.Square(P.x)), C.a);
    && K.multiply(dy, K.Subtract(R.x, P.x)) == K.multiply(K.Subtract(K.negate(R.y), P.y), dx)
    && K.multiply(K.add(K.add(R.x, P.x), P.x), K.Square(dx)) == K.Square(dy)
  }

  /** The line of slope t = dy / dx through (x, y), without a division. */
  lemma OnLine<F(!new)>(K: Field<F>, t: F, dx: F, dy: F, x: F, y: F, xQ: F)
    requires IsField(K) && K.multiply(t, dx) == dy
    ensures var x' := K.Subtract(K.Subtract(K.Square(t), x), xQ);
            var y' := K.Subtract(K.multiply(t, K.Subtract(x, x')), y);
            && K.multiply(dy, K.Subtract(x', x)) == K.multiply(K.Subtract(K.negate(y'), y), dx)
            && K.multiply(K.add(K.add(x', xQ), x), K.Square(dx)) == K.Square(dy)
  {
    hide IsField;
    var x' := K.Subtract(K.Subtract(K.Square(t), x), xQ);
    var y' := K.Subtract(K.multiply(t, K.Subtract(x, x')), y);
    var u := K.Subtract(x', x);
    SubtractIs(K, K.Subtract(K.Square(t), x), xQ, x');
    SubtractIs(K, K.Square(t), x, K.add(x', xQ));
    Fields.Interchange(K, t, t, dx, dx);
    LineOpposite(K, x, y, t, x');
    NegateNegate(K, K.add(y, K.multiply(t, u)));
    Commutative(K, y, K.multiply(t, u));
    SubtractIs(K, K.negate(y'), y, K.multiply(t, u));
    Fields.Associative(K, t, dx, u);
    Commutative(K, dx, u);
    Fields.Associative(K, t, u, dx);
  }

  /** Addition on a chord, as geometry and without a division: the result is on the curve as well. */
  lemma AddOnChord<F(!new)>(C: Curve<F>, P: ECPPoint<F>, Q: ECPPoint<F>)
    requires IsField(C.field) && VerifyPoint(C, P) && VerifyPoint(C, Q)
    requires P.Affine? && Q.Affine? && P.x != Q.x
    ensures VerifyPoint(C, AddPoints(C, P, Q)) && OnChord(C.field, P, Q, AddPoints(C, P, Q))
  {
    hide IsField, VerifyPoint, Derivative, ThreeAnd;
    var K := C.field;
    var dx, dy := K.Subtract(Q.x, P.x), K.Subtract(Q.y, P.y);
    var t := K.Divide(dy, dx);
    SubtractIs(K, Q.x, P.x, K.zero);
    Units(K, P.x);
    QuotientTimes(K, dy, dx);
    OnLine(K, t, dx, dy, P.x, P.y, Q.x);
    var x' := K.Subtract(K.Subtract(K.Square(t), P.x), Q.x);
    var u := K.Subtract(x', P.x);
    ChordRoot(C, P, Q, t);
    SubtractIs(K, Q.x, P.x, dx);
    Commutative(K, dx, P.x);
    SumOfRoots(K, P.x, dx, K.Square(t));
    RootsExchange(K, u, dx, ThreeAnd(K, P.x, u), ThreeAnd(K, P.x, dx), K.Square(t));
    OppositeOnCurve(C, P, t, x');
  }

  lemma DoubleOnTangent<F(!new)>(C: Curve<F>, P: ECPPoint<F>)
    requires IsField(C.field) && VerifyPoint(C, P) && P.Affine? && P.y != C.field.zero
    ensures VerifyPoint(C, DoublePoint(C, P)) && OnTangent(C, P, DoublePoint(C, P))
  {
    hide IsField, VerifyPoint, ThreeAnd;
    var K := C.field;
    var dx, dy := K.Double(P.y), Derivative(C, P.x);
    var t := K.Divide(dy, dx);
    DoubleZero(K, P.y);
    QuotientTimes(K, dy, dx);
    OnLine(K, t, dx, dy, P.x, P.y, P.x);
    var x' := K.Subtract(K.Subtract(K.Square(t), P.x), P.x);
    var u := K.Subtract(x', P.x);
    Units(K, P.x);
    Units(K, K.Square(t));
    SumOfRoots(K, P.x, K.zero, K.Square(t));
    Units(K, ThreeAnd(K, P.x, u));
    assert ThreeAnd(K, P.x, u) == K.Square(t);
    Units(K, dy);
    Zero(K, u);
    Units(K, K.zero);
    OppositeOnCurve(C, P, t, x');
  }

  /** Twice a point is the identity exactly where the tangent is vertical. */
  lemma DoubleClosed<F(!new)>(C: Curve<F>, P: ECPPoint<F>)
    requires IsField(C.field) && VerifyPoint(C, P)
    ensures VerifyPoint(C, DoublePoint(C, P))
    ensures DoublePoint(C, P) == Identity <==> P.Identity? || P.y == C.field.zero
  {
    hide IsField;
    if P.Affine? && P.y != C.field.zero {
      DoubleOnTangent(C, P);
    }
  }

  lemma IdentityOnCurve<F(!new)>(C: Curve<F>)
    ensures VerifyPoint(C, Identity)
  {
  }

  lemma AddClosed<F(!new)>(C: Curve<F>, P: ECPPoint<F>, Q: ECPPoint<F>)
    requires IsField(C.field) && VerifyPoint(C, P) && VerifyPoint(C, Q)
    ensures VerifyPoint(C, AddPoints(C, P, Q))
  {
    hide IsField, VerifyPoint;
    if P.Identity? || Q.Identity? {
    } else if P.x != Q.x {
      AddOnChord(C, P, Q);
    } else if P.y == Q.y {
      DoubleClosed(C, P);
    } else {
      IdentityOnCurve(C);
    }
  }

  // ---------------------------------------------------------------- the laws of the group

  lemma SubtractOpposite<F(!new)>(K: Field<F>, a: F, b: F)
    requires IsField(K)
    ensures K.Subtract(a, b) == K.negate(K.Subtract(b, a))
  {
    hide IsField;
    NegateSum(K, b, K.negate(a));
    NegateNegate(K, a);
    Commutative(K, a, K.negate(b));
  }

  /** The slope does not depend on the direction. */
  lemma SlopeSame<F(!new)>(K: Field<F>, xP: F, yP: F, xQ: F, yQ: F)
    requires IsField(K) && xP != xQ
    ensures K.Divide(K.Subtract(yQ, yP), K.Subtract(xQ, xP)) == K.Divide(K.Subtract(yP, yQ), K.Subtract(xP, xQ))
  {
    hide IsField;
    var n, d, n', d' := K.Subtract(yQ, yP), K.Subtract(xQ, xP), K.Subtract(yP, yQ), K.Subtract(xP, xQ);
    var t, t' := K.Divide(n, d), K.Divide(n', d');
    Units(K, xP);
    Units(K, xQ);
    SubtractIs(K, xQ, xP, K.zero);
    SubtractIs(K, xP, xQ, K.zero);
    QuotientTimes(K, n, d);
    QuotientTimes(K, n', d');
    SubtractOpposite(K, yP, yQ);
    SubtractOpposite(K, xP, xQ);
    Commutative(K, t, d);
    Commutative(K, t, d');
    NegateProduct(K, d, t);
    SubtractProduct(K, t, t', d');
    Units(K, n');
    NoZeroDivisors(K, K.Subtract(t, t'), d');
    SubtractIs(K, t, t', K.zero);
    Units(K, t');
  }

  /** (b - a) + (c - b) == c - a */
  lemma SubtractChain<F(!new)>(K: Field<F>, a: F, b: F, c: F)
    requires IsField(K)
    ensures K.add(K.Subtract(b, a), K.Subtract(c, b)) == K.Subtract(c, a)
  {
    hide IsField;
    SumInterchange(K, b, K.negate(a), c, K.negate(b));
    Commutative(K, b, c);
    SumInterchange(K, c, b, K.negate(a), K.negate(b));
    Units(K, b);
    Units(K, K.Subtract(c, a));
  }

  lemma SubtractTwice<F(!new)>(K: Field<F>, s: F, a: F, b: F)
    requires IsField(K)
    ensures K.Subtract(K.Subtract(s, a), b) == K.Subtract(K.Subtract(s, b), a)
  {
    hide IsField;
    Fields.Associative(K, s, K.negate(a), K.negate(b));
    Fields.Associative(K, s, K.negate(b), K.negate(a));
    Commutative(K, K.negate(a), K.negate(b));
  }

  /** The line has the same height at `x` from wherever on it that is measured. */
  lemma HeightSame<F(!new)>(K: Field<F>, t: F, xP: F, yP: F, xQ: F, yQ: F, x: F)
    requires IsField(K) && K.multiply(t, K.Subtract(xQ, xP)) == K.Subtract(yQ, yP)
    ensures K.Subtract(K.multiply(t, K.Subtract(xP, x)), yP) == K.Subtract(K.multiply(t, K.Subtract(xQ, x)), yQ)
  {
    hide IsField;
    LineOpposite(K, xP, yP, t, x);
    LineOpposite(K, xQ, yQ, t, x);
    var n := K.multiply(t, K.Subtract(xQ, xP));
    SubtractIs(K, yQ, yP, n);
    Commutative(K, n, yP);
    Fields.Associative(K, yP, n, K.multiply(t, K.Subtract(x, xQ)));
    Distributive(K, t, K.Subtract(xQ, xP), K.Subtract(x, xQ));
    SubtractChain(K, xP, xQ, x);
  }

  lemma AddCommutes<F(!new)>(C: Curve<F>, P: ECPPoint<F>, Q: ECPPoint<F>)
    requires IsField(C.field)
    ensures AddPoints(C, P, Q) == AddPoints(C, Q, P)
  {
    hide IsField, DoublePoint;
    if P.Affine? && Q.Affine? && P.x != Q.x {
      var K := C.field;
      var t := K.Divide(K.Subtract(Q.y, P.y), K.Subtract(Q.x, P.x));
      SlopeSame(K, P.x, P.y, Q.x, Q.y);
      SubtractIs(K, Q.x, P.x, K.zero);
      Units(K, P.x);
      QuotientTimes(K, K.Subtract(Q.y, P.y), K.Subtract(Q.x, P.x));
      SubtractTwice(K, K.Square(t), P.x, Q.x);
      HeightSame(K, t, P.x, P.y, Q.x, Q.y, K.Subtract(K.Subtract(K.Square(t), P.x), Q.x));
    }
  }

  lemma NegateSelf<F(!new)>(K: Field<F>, y: F)
    requires IsField(K)
    ensures y == K.negate(y) <==> y == K.zero
  {
    hide IsField;
    Units(K, y);
    Units(K, K.zero);
    Units(K, K.negate(K.zero));
    DoubleZero(K, y);
    SubtractIs(K, K.zero, y, K.negate(y));
  }

  /** Two points of one x are the same or opposite. */
  lemma SameX<F(!new)>(K: Field<F>, y: F, y': F)
    requires IsField(K) && K.Square(y) == K.Square(y')
    ensures y == y' || y' == K.negate(y)
  {
    hide IsField;
    // (y - y') * (y + y') == y^2 - y'^2
    SubtractProduct(K, y, y', K.add(y, y'));
    Distributive(K, y, y, y');
    Distributive(K, y', y, y');
    Commutative(K, y, y');
    Commutative(K, K.Square(y), K.multiply(y, y'));
    SubtractSums(K, K.multiply(y, y'), K.Square(y), K.multiply(y, y'), K.Square(y'));
    Units(K, K.multiply(y, y'));
    Units(K, K.Square(y));
    Units(K, K.zero);
    NoZeroDivisors(K, K.Subtract(y, y'), K.add(y, y'));
    SubtractIs(K, y, y', K.zero);
    Units(K, y');
    if K.add(y, y') == K.zero {
      Commutative(K, y, y');
      SubtractIs(K, K.zero, y, y');
      Units(K, K.negate(y));
    }
  }

  /** The sum is the identity exactly for a point and its negative. */
  lemma SumIsIdentity<F(!new)>(C: Curve<F>, P: ECPPoint<F>, Q: ECPPoint<F>)
    requires IsField(C.field) && VerifyPoint(C, P) && VerifyPoint(C, Q)
    ensures AddPoints(C, P, Q) == Identity <==> Q == NegatePoint(C, P)
  {
    hide IsField;
    var K := C.field;
    if P.Affine? && Q.Affine? && P.x == Q.x {
      NegateSelf(K, P.y);
      SubtractIs(K, Cubic(C, P.x), K.Square(P.y), K.zero);
      SubtractIs(K, Cubic(C, P.x), K.Square(Q.y), K.zero);
      Units(K, K.Square(P.y));
      Units(K, K.Square(Q.y));
      SameX(K, P.y, Q.y);
    }
  }

  /** What is not proved of the addition of points, and assumed where it is needed. */
  ghost predicate AdditionAssociates<F(!new)>(C: Curve<F>) {
    forall P, Q, R :: AbstractGroups.AssociativeAt(PointGroup(C), P, Q, R)
  }

  lemma AddIdentity<F>(C: Curve<F>, P: ECPPoint<F>)
    ensures AddPoints(C, P, Identity) == P && AddPoints(C, Identity, P) == P
  {
  }

  lemma PointLaws<F(!new)>(C: Curve<F>, P: ECPPoint<F>, Q: ECPPoint<F>)
    requires IsField(C.field)
    ensures AbstractGroups.ClosedAt(PointGroup(C), P, Q) && AbstractGroups.InvertibleAt(PointGroup(C), P)
  {
    hide IsField, VerifyPoint, AddPoints, NegatePoint;
    if VerifyPoint(C, P) {
      if VerifyPoint(C, Q) {
        AddClosed(C, P, Q);
        AddCommutes(C, P, Q);
      }
      AddIdentity(C, P);
      NegateOnCurve(C, P);
      SumIsIdentity(C, P, NegatePoint(C, P));
    }
  }

  /** All the laws of an abelian group but associativity hold of the points of every curve. */
  lemma PointsAbelian<F(!new)>(C: Curve<F>)
    requires IsField(C.field) && AdditionAssociates(C)
    ensures AbstractGroups.Abelian(PointGroup(C))
  {
    hide IsField, VerifyPoint, AddPoints, NegatePoint;
    var G := PointGroup(C);
    IdentityOnCurve(C);
    forall P, Q
      ensures AbstractGroups.ClosedAt(G, P, Q)
    {
      PointLaws(C, P, Q);
    }
    forall P
      ensures AbstractGroups.InvertibleAt(G, P)
    {
      PointLaws(C, P, P);
    }
  }
}
