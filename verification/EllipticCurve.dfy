/**
 ecp.cpp, the curve itself: affine points with the chord-and-tangent operations, and the Jacobian
 doubling that keeps a * Z^4 at hand.
 */
module EllipticCurves {
  import opened Fields
  import AbstractGroups

  datatype ECPPoint<F> = Identity | Affine(x: F, y: F)

  /** y^2 = x^3 + a * x + b over a field. */
  datatype Curve<!F> = Curve(field: Field<F>, a: F, b: F)

  predicate VerifyPoint<F(==)>(C: Curve<F>, P: ECPPoint<F>) {
    var K := C.field;
    P.Identity? ||
    K.Subtract(K.add(K.multiply(K.add(K.multiply(P.x, P.x), C.a), P.x), C.b), K.multiply(P.y, P.y)) == K.zero
  }

  function NegatePoint<F>(C: Curve<F>, P: ECPPoint<F>): ECPPoint<F> {
    if P.Identity? then P else Affine(P.x, C.field.negate(P.y))
  }

  function DoublePoint<F(==)>(C: Curve<F>, P: ECPPoint<F>): ECPPoint<F> {
    var K := C.field;
    if P.Identity? || P.y == K.zero then Identity else
    var t := K.Square(P.x);
    var t := K.add(K.add(K.Double(t), t), C.a);
    var t := K.Divide(t, K.Double(P.y));
    var x := K.Subtract(K.Subtract(K.Square(t), P.x), P.x);
    Affine(x, K.Subtract(K.multiply(t, K.Subtract(P.x, x)), P.y))
  }

  function AddPoints<F(==)>(C: Curve<F>, P: ECPPoint<F>, Q: ECPPoint<F>): ECPPoint<F> {
    var K := C.field;
    if P.Identity? then Q
    else if Q.Identity? then P
    else if P.x == Q.x then
      if P.y == Q.y then DoublePoint(C, P) else Identity
    else
      var t := K.Subtract(Q.y, P.y);
      var t := K.Divide(t, K.Subtract(Q.x, P.x));
      var x := K.Subtract(K.Subtract(K.Square(t), P.x), Q.x);
      Affine(x, K.Subtract(K.multiply(t, K.Subtract(P.x, x)), P.y))
  }

  /** The points of a curve, with inversion known to be fast. */
  function PointGroup<F(==)>(C: Curve<F>): AbstractGroups.Group<ECPPoint<F>> {
    AbstractGroups.Group(P => VerifyPoint(C, P), Identity, (P, Q) => AddPoints(C, P, Q), P => NegatePoint(C, P), true)
  }

  lemma AddSelf<F>(C: Curve<F>, P: ECPPoint<F>)
    ensures PointGroup(C).add(P, P) == DoublePoint(C, P)
  {
  }

  // ---------------------------------------------------------------- projective points

  datatype ProjectivePoint<F> = ProjectivePoint(x: F, y: F, z: F)

  /** A projective point stands for (x / z^2, y / z^3), or for the identity when z is zero. */
  ghost predicate Represents<F>(K: Field<F>, P: ProjectivePoint<F>, Q: ECPPoint<F>) {
    if Q.Identity? then P.z == K.zero
    else
      && P.z != K.zero
      && P.x == K.multiply(Q.x, Power(K, P.z, 2))
      && P.y == K.multiply(Q.y, Power(K, P.z, 3))
  }

  /** The tangent slope at an affine point. */
  function Slope<F>(C: Curve<F>, x: F, y: F): F {
    var K := C.field;
    K.Divide(K.add(K.add(K.Double(K.Square(x)), K.Square(x)), C.a), K.Double(y))
  }

  lemma SlopeNumerator<F(!new)>(C: Curve<F>, x: F, y: F)
    requires IsField(C.field) && y != C.field.zero
    ensures var K := C.field;
            K.multiply(Slope(C, x, y), K.Double(y)) == K.add(K.add(K.Double(K.Square(x)), K.Square(x)), C.a)
  {
    hide IsField;
    var K := C.field;
    var n, w := K.add(K.add(K.Double(K.Square(x)), K.Square(x)), C.a), K.Double(y);
    DoubleZero(K, y);
    Units(K, w);
    Units(K, n);
    Fields.Associative(K, n, K.multiplicativeInverse(w), w);
  }

  // In the lemmas below z is the old Z, (x, y) the affine point, and w = 2 * y.

  /** The new Z is w * z^4. */
  lemma NewZ<F(!new)>(K: Field<F>, y: F, z: F)
    requires IsField(K)
    ensures K.multiply(z, K.Double(K.multiply(y, Power(K, z, 3)))) == K.multiply(K.Double(y), Power(K, z, 4))
  {
    hide IsField;
    DoubleProduct(K, y, Power(K, z, 3));
    Swap(K, z, K.Double(y), Power(K, z, 3));
    Commutative(K, z, Power(K, z, 3));
    assert Power(K, z, 4) == K.multiply(Power(K, z, 3), z);
  }

  /** fourY2 is w^2 * z^6 and S is x * Z^2 for the new Z. */
  lemma NewS<F(!new)>(K: Field<F>, x: F, y: F, z: F)
    requires IsField(K)
    ensures var w, twoY := K.Double(y), K.Double(K.multiply(y, Power(K, z, 3)));
            var z' := K.multiply(w, Power(K, z, 4));
            && K.Square(twoY) == K.multiply(K.Square(w), Power(K, z, 6))
            && K.Square(z') == K.multiply(K.Square(w), Power(K, z, 8))
            && K.multiply(K.Square(twoY), K.multiply(x, Power(K, z, 2))) == K.multiply(x, K.Square(z'))
  {
    hide IsField, Power;
    var w := K.Double(y);
    DoubleProduct(K, y, Power(K, z, 3));
    Monomials(K, z, w, 3, w, 3);
    Monomials(K, z, w, 4, w, 4);
    Monomials(K, z, K.Square(w), 6, x, 2);
    Commutative(K, K.Square(w), x);
    Fields.Associative(K, x, K.Square(w), Power(K, z, 8));
  }

  /** M is t * Z for the new Z, where t is the slope. */
  lemma NewM<F(!new)>(C: Curve<F>, x: F, y: F, z: F, az4: F)
    requires IsField(C.field) && y != C.field.zero
    requires az4 == C.field.multiply(C.a, Power(C.field, z, 4))
    ensures var K := C.field;
            var xx := K.Square(K.multiply(x, Power(K, z, 2)));
            K.add(K.add(K.Double(xx), xx), az4)
            == K.multiply(Slope(C, x, y), K.multiply(K.Double(y), Power(K, z, 4)))
  {
    hide IsField, Power, Slope;
    var K := C.field;
    var z4 := Power(K, z, 4);
    Monomials(K, z, x, 2, x, 2);
    DoubleProduct(K, K.Square(x), z4);
    Distributive(K, z4, K.Double(K.Square(x)), K.Square(x));
    Distributive(K, z4, K.add(K.Double(K.Square(x)), K.Square(x)), C.a);
    SlopeNumerator(C, x, y);
    Fields.Associative(K, Slope(C, x, y), K.Double(y), z4);
  }

  lemma NewHalfMonomials<F(!new)>(K: Field<F>, y: F, z: F)
    requires IsField(K)
    ensures var w := K.Double(y);
            var fourY2 := K.multiply(K.Square(w), Power(K, z, 6));
            var z' := K.multiply(w, Power(K, z, 4));
            K.Square(fourY2) == K.multiply(w, K.multiply(K.Square(z'), z'))
  {
    hide IsField, Power;
    var w := K.Double(y);
    var w2 := K.Square(w);
    Monomials(K, z, w2, 6, w2, 6);
    Monomials(K, z, w, 4, w, 4);
    Monomials(K, z, w2, 8, w, 4);
    Fields.Associative(K, w, K.multiply(w2, w), Power(K, z, 12));
    Commutative(K, w2, w);
    Fields.Associative(K, w, w, w2);
  }

  /** Half of sixteenY4 is y * Z^3 for the new Z. */
  lemma NewHalf<F(!new)>(K: Field<F>, y: F, z: F)
    requires IsField(K)
    ensures var w := K.Double(y);
            var fourY2 := K.multiply(K.Square(w), Power(K, z, 6));
            var z' := K.multiply(w, Power(K, z, 4));
            K.half(K.Square(fourY2)) == K.multiply(y, Power(K, z', 3))
  {
    hide IsField;
    var w := K.Double(y);
    var z' := K.multiply(w, Power(K, z, 4));
    var c := Power(K, z', 3);
    PowerOne(K, z');
    assert c == K.multiply(K.Square(z'), z');
    NewHalfMonomials(K, y, z);
    DoubleProduct(K, y, c);
    Units(K, K.multiply(y, c));
  }

  /** From S = x * Z^2 and M = t * Z the new X and Y follow. */
  lemma NewXY<F(!new)>(K: Field<F>, t: F, x: F, y: F, z: F)
    requires IsField(K)
    ensures var M, S := K.multiply(t, z), K.multiply(x, K.Square(z));
            var x' := K.Subtract(K.Subtract(K.Square(t), x), x);
            var X := K.Subtract(K.Subtract(K.Square(M), S), S);
            && X == K.multiply(x', Power(K, z, 2))
            && K.Subtract(K.multiply(M, K.Subtract(S, X)), K.multiply(y, Power(K, z, 3)))
            == K.multiply(K.Subtract(K.multiply(t, K.Subtract(x, x')), y), Power(K, z, 3))
  {
    hide IsField;
    PowerOne(K, z);
    var z2, z3 := K.Square(z), Power(K, z, 3);
    var x' := K.Subtract(K.Subtract(K.Square(t), x), x);
    Fields.Interchange(K, t, z, t, z);
    SubtractProduct(K, K.Square(t), x, z2);
    SubtractProduct(K, K.Subtract(K.Square(t), x), x, z2);
    SubtractProduct(K, x, x', z2);
    Fields.Interchange(K, t, z, K.Subtract(x, x'), z2);
    Commutative(K, z, z2);
    assert z3 == K.multiply(z2, z);
    SubtractProduct(K, K.multiply(t, K.Subtract(x, x')), y, z3);
  }

  /** The point one doubling step produces, given a * Z^4 of the old point. */
  function Doubled<F>(C: Curve<F>, P: ProjectivePoint<F>, az4: F): ProjectivePoint<F> {
    var K := C.field;
    var twoY := K.Double(P.y);
    var fourY2 := K.Square(twoY);
    var S := K.multiply(fourY2, P.x);
    var M := K.add(K.add(K.Double(K.Square(P.x)), K.Square(P.x)), az4);
    var X := K.Subtract(K.Subtract(K.Square(M), S), S);
    ProjectivePoint(X, K.Subtract(K.multiply(M, K.Subtract(S, X)), K.half(K.Square(fourY2))), K.multiply(P.z, twoY))
  }

  lemma DoubledRepresents<F(!new)>(C: Curve<F>, P: ProjectivePoint<F>, az4: F, Q: ECPPoint<F>)
    requires IsField(C.field) && Represents(C.field, P, Q)
    requires az4 == C.field.multiply(C.a, Power(C.field, P.z, 4))
    ensures Represents(C.field, Doubled(C, P, az4), DoublePoint(C, Q))
  {
    hide IsField, Power;
    var K := C.field;
    if Q.Identity? {
      Zero(K, K.Double(P.y));
    } else if Q.y == K.zero {
      Zero(K, Power(K, P.z, 3));
      Units(K, K.zero);
      Zero(K, P.z);
    } else {
      var x, y, z := Q.x, Q.y, P.z;
      var w, t := K.Double(y), Slope(C, x, y);
      var z' := K.multiply(w, Power(K, z, 4));
      NewZ(K, y, z);
      NewS(K, x, y, z);
      NewM(C, x, y, z, az4);
      NewHalf(K, y, z);
      NewXY(K, t, x, y, z');
      DoubleZero(K, y);
      PowerZero(K, z, 4);
      NoZeroDivisors(K, w, Power(K, z, 4));
    }
  }

  class ProjectiveDoubling<F(==, !new)> {
    const curve: Curve<F>
    var P: ProjectivePoint<F>
    var sixteenY4: F
    var aZ4: F
    var twoY: F
    var fourY2: F
    var S: F
    var M: F

    /** The state stands for the affine point `Q`, and the cached products give a * Z^4. */
    ghost predicate Tracks(Q: ECPPoint<F>)
      reads this
    {
      && Represents(curve.field, P, Q)
      && curve.field.multiply(aZ4, sixteenY4) == curve.field.multiply(curve.a, Power(curve.field, P.z, 4))
    }

    constructor (C: Curve<F>, Q: ECPPoint<F>)
      requires IsField(C.field)
      ensures curve == C && Tracks(Q)
      ensures Q.Affine? ==> P == ProjectivePoint(Q.x, Q.y, C.field.one)
    {
      var K := C.field;
      curve := C;
      sixteenY4 := K.one;
      if Q.Identity? {
        P := ProjectivePoint(K.one, K.one, K.zero);
        aZ4 := K.zero;
      } else {
        P := ProjectivePoint(Q.x, Q.y, K.one);
        aZ4 := C.a;
      }
      twoY, fourY2, S, M := K.zero, K.zero, K.zero, K.zero;
      new;
      hide IsField, Power;
      Start(C, Q);
    }

    static lemma Start(C: Curve<F>, Q: ECPPoint<F>)
      requires IsField(C.field)
      ensures var K := C.field;
              if Q.Identity? then K.multiply(K.zero, K.one) == K.multiply(C.a, Power(K, K.zero, 4))
              else Represents(K, ProjectivePoint(Q.x, Q.y, K.one), Q)
                   && K.multiply(C.a, K.one) == K.multiply(C.a, Power(K, K.one, 4))
    {
      hide IsField;
      var K := C.field;
      Units(K, K.one);
      Zero(K, K.one);
      Zero(K, C.a);
      PowerZero(K, K.zero, 4);
      PowerZero(K, K.one, 2);
      PowersOfOne(K, 4);
      if Q.Affine? {
        OneIsNotZero(K);
        Units(K, Q.x);
        Units(K, Q.y);
      }
    }

    static lemma OneIsNotZero(K: Field<F>)
      requires IsField(K)
      ensures K.zero != K.one
    {
    }

    static lemma PowersOfOne(K: Field<F>, n: nat)
      requires IsField(K)
      ensures Power(K, K.one, 2) == Power(K, K.one, 3) == Power(K, K.one, 4) == K.one
    {
      Units(K, K.one);
      assert Power(K, K.one, 1) == K.one;
      assert Power(K, K.one, 2) == K.one;
      assert Power(K, K.one, 3) == K.one;
    }

    method Double(ghost Q: ECPPoint<F>)
      requires IsField(curve.field) && Tracks(Q)
      modifies this
      ensures Tracks(DoublePoint(curve, Q))
    {
      hide IsField, Power;
      var K := curve.field;
      ghost var z, az4 := P.z, aZ4;
      twoY := K.Double(P.y);
      P := P.(z := K.multiply(P.z, twoY));
      fourY2 := K.Square(twoY);
      S := K.multiply(fourY2, P.x);
      aZ4 := K.multiply(aZ4, sixteenY4);
      M := K.Square(P.x);
      M := K.add(K.add(K.Double(M), M), aZ4);
      P := P.(x := K.Square(M));
      P := P.(x := K.Subtract(P.x, S));
      P := P.(x := K.Subtract(P.x, S));
      S := K.Subtract(S, P.x);
      P := P.(y := K.multiply(M, S));
      sixteenY4 := K.Square(fourY2);
      P := P.(y := K.Subtract(P.y, K.half(sixteenY4)));
      CachedProduct(K, curve.a, z, twoY);
      assert P == Doubled(curve, old(P), aZ4);
      DoubledRepresents(curve, old(P), aZ4, Q);
    }

    /** aZ4 times sixteenY4 is again a * Z^4 for the new Z. */
    static lemma CachedProduct(K: Field<F>, a: F, z: F, twoY: F)
      requires IsField(K)
      ensures K.multiply(K.multiply(a, Power(K, z, 4)), K.Square(K.Square(twoY)))
           == K.multiply(a, Power(K, K.multiply(z, twoY), 4))
    {
      hide IsField;
      FourthPower(K, z);
      FourthPower(K, twoY);
      FourthPower(K, K.multiply(z, twoY));
      Fields.Interchange(K, z, twoY, z, twoY);
      Fields.Interchange(K, K.Square(z), K.Square(twoY), K.Square(z), K.Square(twoY));
      Fields.Associative(K, a, Power(K, z, 4), K.Square(K.Square(twoY)));
    }

    static lemma FourthPower(K: Field<F>, z: F)
      requires IsField(K)
      ensures Power(K, z, 4) == K.Square(K.Square(z))
    {
      hide IsField;
      PowerOne(K, z);
      PowerAdd(K, z, 2, 2);
    }
  }

  /** What the last loop of SimultaneousMultiply makes of a point whose z has been inverted. */
  function ToAffine<F(==)>(K: Field<F>, P: ProjectivePoint<F>): ECPPoint<F> {
    if P.z == K.zero then Identity else
    var y := K.multiply(P.y, P.z);
    var z := K.Square(P.z);
    Affine(K.multiply(P.x, z), K.multiply(y, z))
  }

  lemma ToAffineRepresents<F(!new)>(K: Field<F>, P: ProjectivePoint<F>, Q: ECPPoint<F>)
    requires IsField(K) && Represents(K, P, Q)
    ensures ToAffine(K, P.(z := K.multiplicativeInverse(P.z))) == Q
  {
    hide IsField;
    InverseZero(K, P.z);
    if Q.Affine? {
      var z, i := P.z, K.multiplicativeInverse(P.z);
      Units(K, z);
      Units(K, Q.x);
      Units(K, Q.y);
      Units(K, K.one);
      PowerOne(K, z);
      Fields.Interchange(K, z, z, i, i);
      Fields.Associative(K, Q.x, K.Square(z), K.Square(i));
      // y * z^3 * i * i^2
      Fields.Associative(K, Q.y, Power(K, z, 3), i);
      Fields.Associative(K, K.Square(z), z, i);
      Units(K, K.Square(z));
      assert Power(K, z, 3) == K.multiply(K.Square(z), z);
      Fields.Associative(K, Q.y, K.Square(z), K.Square(i));
    }
  }
}
