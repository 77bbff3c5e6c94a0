/**
 esign.cpp: the ESIGN trapdoor function and its randomized inverse, as defined in IEEE P1363a.
 */
module Esign {
  import opened Wrappers
  import opened Integers
  import opened IntegerDomains

  // ---------------------------------------------------------------- the first two binomial terms

  /** The derivative of x^e. */
  function PowSlope(x: int, e: nat): int {
    if e == 0 then 0 else x * PowSlope(x, e - 1) + Pow(x, e - 1)
  }

  /** The rest of the binomial expansion of (x + m)^e, divided by m^2. */
  function PowRest(x: int, m: int, e: nat): int {
    if e == 0 then 0 else PowSlope(x, e - 1) + PowRest(x, m, e - 1) * (x + m)
  }

  lemma Distribute(a: int, b: int, c: int, d: int)
    ensures a * (b + c + d) == a * b + a * c + a * d
  {
  }

  lemma BinomialStep(x: int, m: int, p: int, d: int, c: int)
    ensures (x + m) * (p + d * m + c * (m * m)) == x * p + (x * d + p) * m + (d + c * (x + m)) * (m * m)
  {
    var mm := m * m;
    Distribute(x + m, p, d * m, c * mm);
    assert (x + m) * p == x * p + m * p;
    assert (x + m) * (d * m) == (x * d) * m + d * mm;
    assert (x + m) * (c * mm) == (c * (x + m)) * mm;
  }

  lemma {:induction false} Binomial(x: int, m: int, e: nat)
    ensures Pow(x + m, e) == Pow(x, e) + PowSlope(x, e) * m + PowRest(x, m, e) * (m * m)
  {
    if e > 0 {
      Binomial(x, m, e - 1);
      BinomialStep(x, m, Pow(x, e - 1), PowSlope(x, e - 1), PowRest(x, m, e - 1));
    }
  }

  lemma SlopeStep(x: int, d: int, p: int, e: int)
    requires x * d == (e - 1) * p
    ensures x * (x * d + p) == e * (x * p)
  {
    assert x * (x * d + p) == x * (x * d) + x * p;
    assert x * ((e - 1) * p) == (e - 1) * (x * p);
    assert (e - 1) * (x * p) == e * (x * p) - x * p;
  }

  lemma {:induction false} SlopeTimes(x: int, e: nat)
    ensures x * PowSlope(x, e) == e * Pow(x, e)
  {
    if e > 0 {
      SlopeTimes(x, e - 1);
      SlopeStep(x, PowSlope(x, e - 1), Pow(x, e - 1), e);
    }
  }

  // ---------------------------------------------------------------- the key and the forward function

  datatype Key = Key(n: nat, e: nat, p: nat, q: nat)

  /** ESIGNFunction::Validate and InvertibleESIGNFunction::Validate at level 1; primality is not required. */
  predicate Validate(key: Key) {
    && key.n > 1 && key.n % 2 == 1
    && key.e >= 8 && key.e < key.n
    && key.p > 1 && key.p % 2 == 1 && key.p < key.n
    && key.q > 1 && key.q % 2 == 1 && key.q < key.n
    && BitCount(key.p) == BitCount(key.q)
    && key.p * key.p * key.q == key.n
  }

  lemma {:induction false} BitCountMonotone(x: nat, y: nat)
    requires x <= y
    ensures BitCount(x) <= BitCount(y)
  {
    if x > 0 {
      BitCountMonotone(x / 2, y / 2);
    }
  }

  lemma ModulusAtLeastFour(key: Key)
    requires Validate(key)
    ensures key.n >= 4
  {
    var p2 := key.p * key.p;
    assert p2 >= 4;
    assert p2 * key.q >= 4 * key.q;
  }

  lemma ModulusBits(key: Key)
    requires Validate(key)
    ensures BitCount(key.n) >= 3
    ensures Pow2(3 * (BitCount(key.n) / 3 - 1) + 2) <= key.n
  {
    ModulusAtLeastFour(key);
    hide Validate;
    BitCountMonotone(4, key.n);
    assert BitCount(4) == 3;
    hide BitCount, Pow2;
    BitCountBounds(key.n);
    Pow2Le(3 * (BitCount(key.n) / 3 - 1) + 2, BitCount(key.n) - 1);
  }

  /** A valid modulus has at least three bits, so K does not fall below zero. */
  function GetK(key: Key): nat
    requires Validate(key)
  {
    ModulusBits(key);
    BitCount(key.n) / 3 - 1
  }

  function MaxImage(key: Key): nat
    requires Validate(key)
  {
    Pow2(GetK(key)) - 1
  }

  function ApplyFunction(key: Key, x: int): nat
    requires Validate(key)
  {
    var y := Shr(ModExp(x, key.e, key.n), 2 * GetK(key) + 2);
    if y < MaxImage(key) then y else MaxImage(key)
  }

  // ---------------------------------------------------------------- one trial of the inverse

  /** The values one pass of the loop computes from the random `r`. */
  datatype Trial = Trial(z: nat, re: nat, a: nat, w0: nat, w1: nat)

  /** `x << k` of a number that is not negative. */
  function ShiftUp(x: nat, k: nat): (z: nat)
    ensures z == Shl(x, k)
  {
    ShlOrder(0, x, k);
    ShlZero(k);
    Shl(x, k)
  }

  /** The quotient rounded up, and by how much. */
  function DivideUp(a: nat, d: nat): (w: (nat, nat))
    requires d > 0
    ensures w.0 * d == a + w.1 && w.1 < d
  {
    var w0, w1 := a / d, a % d;
    assert a == w0 * d + w1;
    assert (w0 + 1) * d == w0 * d + d;
    if w1 != 0 then (w0 + 1, d - w1) else (w0, w1)
  }

  lemma PositiveProduct(a: nat, b: nat)
    requires a > 0 && b > 0
    ensures a * b > 0
  {
  }

  function TryRandom(key: Key, x: nat, r: nat): Trial
    requires Validate(key)
  {
    PositiveProduct(key.p, key.q);
    var z := ShiftUp(x, 2 * GetK(key) + 2);
    var re := ModExp(r, key.e, key.n);
    var a := (z - re) % key.n;
    var (w0, w1) := DivideUp(a, key.p * key.q);
    Trial(z, re, a, w0, w1)
  }

  /** The loop ends with this `r`. */
  predicate Accepted(key: Key, x: nat, r: nat)
    requires Validate(key)
  {
    Shr(TryRandom(key, x, r).w1, 2 * GetK(key) + 1) == 0
  }

  /** K is a third of the length of the modulus, less one: n has between 3 * K + 3 and 3 * K + 5 bits. */
  lemma ImageBits(key: Key)
    requires Validate(key)
    ensures Pow2(3 * GetK(key) + 2) <= key.n < Pow2(3 * GetK(key) + 5)
  {
    ModulusBits(key);
    hide Validate, Pow2, BitCount;
    BitCountBounds(key.n);
    Pow2Le(BitCount(key.n), 3 * (BitCount(key.n) / 3 - 1) + 5);
  }

  /** The forward function in plain arithmetic: x^e modulo n, divided by 2^(2K+2), but at most 2^K - 1. */
  lemma ApplyFunctionIs(key: Key, x: int)
    requires Validate(key)
    ensures var k := GetK(key);
            ApplyFunction(key, x) == Min((Pow(x, key.e) % key.n) / Pow2(2 * k + 2), Pow2(k) - 1)
  {
    ShrIsDiv(ModExp(x, key.e, key.n), 2 * GetK(key) + 2);
  }

  lemma ReducedDifference(z: int, y: int, n: nat)
    requires n > 0
    ensures (z - y % n) % n == (z - y) % n
  {
    DivisionIdentity(y, n);
    DivisionIdentity(z - y, n);
    var q, r := (z - y) / n, (z - y) % n;
    assert (q + y / n) * n == q * n + (y / n) * n;
    DivModUnique(z - y % n, n, q + y / n, r);
  }

  /**
   A trial in plain arithmetic: a is x * 2^(2K+2) - r^e modulo n, w0 is a / (p * q) rounded up, w1 is by how
   much; r is accepted exactly if w1 is below 2^(2K+1).
   */
  lemma TrialIs(key: Key, x: nat, r: nat)
    requires Validate(key)
    ensures var T, k, pq := TryRandom(key, x, r), GetK(key), key.p * key.q;
            && T.z == x * Pow2(2 * k + 2) && T.a == (x * Pow2(2 * k + 2) - Pow(r, key.e)) % key.n
            && T.w0 * pq == T.a + T.w1 && T.w1 < pq
            && (Accepted(key, x, r) <==> T.w1 < Pow2(2 * k + 1))
  {
    hide Pow2, Shl, Shr, BitCount, Pow, GetK;
    PositiveProduct(key.p, key.q);
    var k := GetK(key);
    ShlIsTimes(x, 2 * k + 2);
    ShrSmall(TryRandom(key, x, r).w1, 2 * k + 1);
    ReducedDifference(x * Pow2(2 * k + 2), Pow(r, key.e), key.n);
  }

  // ---------------------------------------------------------------- the round trip

  /** The division by e * r^e that turns w0 into t has an answer. */
  ghost predicate Divisible(key: Key, r: nat)
    requires Validate(key)
  {
    Invertible(key.e * ModExp(r, key.e, key.n), key.p)
  }

  lemma {:induction false} PowFactor(r: int, e: nat)
    requires e > 0
    ensures Pow(r, e) == r * Pow(r, e - 1)
  {
  }

  lemma ExponentPositive(key: Key)
    requires Validate(key)
    ensures key.e > 0
  {
  }

  lemma InvertibleFactor(r: int, s: int, e: int, p: int, q: int, i: int, re: int, x: int, k: int)
    requires r * s == i * (p * p * q) + re
    requires Bezout(e * re, p, x, k)
    ensures Invertible(r, p)
  {
    var c := i * (p * q);
    assert i * (p * p * q) == c * p;
    assert re == r * s - c * p;
    var y, k' := s * (e * x), k - c * (e * x);
    assert e * re * x == re * (e * x) == (r * s) * (e * x) - (c * p) * (e * x);
    assert (r * s) * (e * x) == r * y;
    assert (c * p) * (e * x) == (c * (e * x)) * p;
    assert k' * p == k * p - (c * (e * x)) * p;
    assert Bezout(r, p, y, k');
  }

  lemma PositiveModulus(key: Key)
    requires Validate(key)
    ensures key.n > 0 && key.p > 1 && key.q > 0 && key.n == key.p * key.p * key.q
  {
  }

  /** If e * r^e can be divided by modulo p, so can r. */
  lemma InvertibleBase(key: Key, r: nat)
    requires Validate(key) && Divisible(key, r)
    ensures Invertible(r, key.p)
  {
    hide Validate, Pow, Bezout;
    PositiveModulus(key);
    var re := ModExp(r, key.e, key.n);
    var i := Pow(r, key.e) / key.n;
    DivisionIdentity(Pow(r, key.e), key.n);
    var x, k :| Bezout(key.e * re, key.p, x, k);
    ExponentPositive(key);
    PowFactor(r, key.e);
    InvertibleFactor(r, Pow(r, key.e - 1), key.e, key.p, key.q, i, re, x, k);
  }

  /** Cancelling `r` from a congruence modulo `p`. */
  lemma CancelBase(r: int, p: int, d: int, c: int) returns (j: int)
    requires Invertible(r, p) && r * d == c * p
    ensures d == j * p
  {
    var x, k :| Bezout(r, p, x, k);
    j := c * x + k * d;
    assert d == (r * x + k * p) * d == x * (r * d) + (k * d) * p;
    assert x * (c * p) == (c * x) * p;
    assert j * p == (c * x) * p + (k * d) * p;
  }

  lemma ExactQuotient(x: int, p: int) returns (m: int)
    requires p > 0 && x % p == 0
    ensures x == m * p
  {
    m := x / p;
  }

  lemma CorrectionMultiple(r: int, d: int, e: int, re: int, t: int, w0: int, i: int, p: int, q: int, m: int)
    returns (c: int)
    requires r * d == e * (i * (p * p * q) + re)
    requires e * re * t - w0 * r == m * p
    ensures r * (d * t - w0) == c * p
  {
    var u := i * (p * q);
    c := m + e * u * t;
    assert i * (p * p * q) == u * p;
    assert e * (u * p + re) == e * (u * p) + e * re;
    assert (e * (u * p) + e * re) * t == (e * u * t) * p + e * re * t;
    assert r * (d * t - w0) == (r * d) * t - w0 * r;
    assert c * p == m * p + (e * u * t) * p;
  }

  /** The correction t makes the second binomial term supply w0. */
  lemma Correction(key: Key, r: nat, w0: int, t: int) returns (j: int)
    requires Validate(key) && Divisible(key, r)
    requires (key.e * ModExp(r, key.e, key.n) * t - w0 * r) % key.p == 0
    ensures PowSlope(r, key.e) * t == w0 + j * key.p
  {
    var re, d := ModExp(r, key.e, key.n), PowSlope(r, key.e);
    var i := Pow(r, key.e) / key.n;
    SlopeTimes(r, key.e);
    InvertibleBase(key, r);
    DivisionIdentity(Pow(r, key.e), key.n);
    var m := ExactQuotient(key.e * re * t - w0 * r, key.p);
    var c := CorrectionMultiple(r, d, key.e, re, t, w0, i, key.p, key.q, m);
    j := CancelBase(r, key.p, d * t - w0, c);
  }

  lemma Distribute4(i: int, h: int, j: int, b: int, n: int)
    ensures (i - h + j + b) * n == i * n - h * n + j * n + b * n
  {
  }

  lemma SquareTerm(c: int, t: int, p: int, q: int, n: int) returns (b: int)
    requires n == p * p * q
    ensures c * ((t * (p * q)) * (t * (p * q))) == b * n
  {
    b := c * (t * t * q);
    assert (t * (p * q)) * (t * (p * q)) == (t * t * q) * n;
  }

  lemma LinearTerm(d: int, t: int, w0: int, j: int, p: int, q: int, n: int)
    requires d * t == w0 + j * p && n == p * p * q
    ensures d * (t * (p * q)) == w0 * (p * q) + j * n
  {
    assert d * (t * (p * q)) == (d * t) * (p * q);
    assert (w0 + j * p) * (p * q) == w0 * (p * q) + (j * p) * (p * q);
    assert (j * p) * (p * q) == j * n;
  }

  /** s^e is z + w1 up to a multiple of n. */
  lemma SignedPower(key: Key, r: nat, t: int, z: int, a: int, w0: int, w1: int, j: int) returns (l: int)
    requires Validate(key)
    requires PowSlope(r, key.e) * t == w0 + j * key.p
    requires a == (z - ModExp(r, key.e, key.n)) % key.n
    requires w0 * (key.p * key.q) == a + w1
    ensures Pow(r + t * (key.p * key.q), key.e) == (z + w1) + l * key.n
  {
    hide Validate, Pow, PowSlope, PowRest;
    PositiveModulus(key);
    var n, e, pq := key.n, key.e, key.p * key.q;
    var m, re := t * pq, ModExp(r, e, n);
    Binomial(r, m, e);
    var i, h := Pow(r, e) / n, (z - re) / n;
    DivisionIdentity(Pow(r, e), n);
    DivisionIdentity(z - re, n);
    var b := SquareTerm(PowRest(r, m, e), t, key.p, key.q, n);
    LinearTerm(PowSlope(r, e), t, w0, j, key.p, key.q, n);
    l := i - h + j + b;
    Distribute4(i, h, j, b, n);
  }

  /** z + w1 has no more bits than the modulus, and its high part is x. */
  lemma NoWraparound(key: Key, x: nat, w1: nat)
    requires Validate(key) && x < Pow2(GetK(key))
    requires Shr(w1, 2 * GetK(key) + 1) == 0
    ensures var z := Shl(x, 2 * GetK(key) + 2);
            0 <= z + w1 < key.n && Shr(z + w1, 2 * GetK(key) + 2) == x
  {
    var k := GetK(key);
    ShrSmall(w1, 2 * k + 1);
    ShlOrder(0, x, 2 * k + 2);
    ShlZero(2 * k + 2);
    ShrUnique(Shl(x, 2 * k + 2) + w1, 2 * k + 2, x, w1);
    ShlOrder(x + 1, Pow2(k), 2 * k + 2);
    ShlAdd(x, 1, 2 * k + 2);
    Pow2Add(k, 2 * k + 2);
    ModulusBits(key);
  }

  /**
   The forward function undoes the inverse: whenever r is accepted and e * r^e can be divided by
   modulo p, every x below the image bound comes back.
   */
  lemma RoundTrip(key: Key, x: nat, r: nat, t: nat)
    requires Validate(key) && x < Pow2(GetK(key))
    requires Accepted(key, x, r) && Divisible(key, r)
    requires (key.e * ModExp(r, key.e, key.n) * t - TryRandom(key, x, r).w0 * r) % key.p == 0
    ensures ApplyFunction(key, r + t * (key.p * key.q)) == x
  {
    hide Pow2, Shl, Shr, Validate, BitCount;
    var T := TryRandom(key, x, r);
    var j := Correction(key, r, T.w0, t);
    var l := SignedPower(key, r, t, T.z, T.a, T.w0, T.w1, j);
    NoWraparound(key, x, T.w1);
    PositiveModulus(key);
    DivModUnique(Pow(r + t * (key.p * key.q), key.e), key.n, l, T.z + T.w1);
  }

  lemma ProductOrder(p: nat, q: nat)
    requires p > 0 && q > 0
    ensures p * p * q == p * (p * q) && p * q > 0
  {
  }

  lemma BelowProduct(p: nat, pq: nat, r: nat, t: nat)
    requires p > 1 && pq > 0 && r <= pq && t < p && (t == 0 || r < pq)
    ensures r + t * pq < p * pq
  {
    MulLe(t + 1, p, pq);
    MulLe(2, p, pq);
    assert (t + 1) * pq == t * pq + pq;
  }

  /** The result stays below the modulus; an r equal to p * q is not divisible. */
  lemma BelowModulus(key: Key, r: nat, t: nat)
    requires Validate(key) && r <= key.p * key.q && t < key.p
    requires t == 0 || r < key.p * key.q
    ensures r + t * (key.p * key.q) < key.n
  {
    hide BitCount;
    ProductOrder(key.p, key.q);
    BelowProduct(key.p, key.p * key.q, r, t);
  }

  lemma FactorOut(p: int, q: int, x: int, k: int)
    ensures (p * q) * x + k * p == p * (q * x + k)
  {
  }

  lemma FullRangeNotDivisible(key: Key)
    requires Validate(key)
    ensures !Divisible(key, key.p * key.q)
  {
    hide Validate;
    PositiveModulus(key);
    if Divisible(key, key.p * key.q) {
      InvertibleBase(key, key.p * key.q);
      var x, k :| Bezout(key.p * key.q, key.p, x, k);
      FactorOut(key.p, key.q, x, k);
      NotAUnit(key.p, key.q * x + k);
    }
  }

  // ---------------------------------------------------------------- when the division has an answer

  lemma InvertibleShift(a: int, b: int, p: int, c: int, x: int, k: int)
    requires a == b + c * p && Bezout(a, p, x, k)
    ensures Bezout(b, p, x, k + c * x)
  {
    assert (b + c * p) * x == b * x + (c * x) * p;
    assert (k + c * x) * p == k * p + (c * x) * p;
  }

  lemma InvertibleCongruent(a: int, b: int, p: int, c: int)
    requires a == b + c * p
    ensures Invertible(a, p) <==> Invertible(b, p)
  {
    if Invertible(a, p) {
      var x, k :| Bezout(a, p, x, k);
      InvertibleShift(a, b, p, c, x, k);
    }
    if Invertible(b, p) {
      var x, k :| Bezout(b, p, x, k);
      assert (-c) * p == -(c * p);
      InvertibleShift(b, a, p, -c, x, k);
    }
  }

  lemma BezoutProduct(a: int, b: int, p: int, x: int, k: int, y: int, l: int)
    requires Bezout(a, p, x, k) && Bezout(b, p, y, l)
    ensures Bezout(a * b, p, x * y, k + l - k * (l * p))
  {
    var u, v := k * p, l * p;
    assert (a * b) * (x * y) == (a * x) * (b * y);
    assert (1 - u) * (1 - v) == 1 - u - v + u * v;
    assert (k + l - k * v) * p == u + v - k * v * p;
    assert k * v * p == u * v;
  }

  lemma BezoutFactors(a: int, b: int, p: int, x: int, k: int)
    requires Bezout(a * b, p, x, k)
    ensures Bezout(a, p, b * x, k) && Bezout(b, p, a * x, k)
  {
    assert (a * b) * x == a * (b * x);
    assert (a * b) * x == b * (a * x);
  }

  lemma InvertibleProduct(a: int, b: int, p: int)
    ensures Invertible(a * b, p) <==> Invertible(a, p) && Invertible(b, p)
  {
    hide Bezout;
    if Invertible(a, p) && Invertible(b, p) {
      var x, k :| Bezout(a, p, x, k);
      var y, l :| Bezout(b, p, y, l);
      BezoutProduct(a, b, p, x, k, y, l);
    }
    if Invertible(a * b, p) {
      var x, k :| Bezout(a * b, p, x, k);
      BezoutFactors(a, b, p, x, k);
    }
  }

  lemma {:induction false} InvertiblePower(r: int, e: nat, p: int)
    requires e > 0
    ensures Invertible(Pow(r, e), p) <==> Invertible(r, p)
  {
    PowFactor(r, e);
    InvertibleProduct(r, Pow(r, e - 1), p);
    if e > 1 {
      InvertiblePower(r, e - 1, p);
    } else {
      assert Bezout(1, p, 1, 0);
    }
  }

  ghost predicate Prime(p: int) {
    p > 1 && forall d :: 1 < d < p ==> !Divides(d, p)
  }

  lemma CommonDivisorStep(a: int, b: int, q: int, r: int, x: int, k: int, g: int, c: int, d: int)
    requires a == q * b + r && b * x + k * r == g && g * c == b && g * d == r
    ensures Product(g, q * c + d, a)
    ensures a * k + (x - q * k) * b == g
  {
    assert g * (q * c + d) == q * (g * c) + g * d;
    assert (q * b + r) * k == (q * k) * b + k * r;
    assert (x - q * k) * b == b * x - (q * k) * b;
  }

  /** The Euclidean algorithm once more, as an existence proof. */
  lemma {:induction false} CommonDivisor(a: nat, b: nat) returns (g: nat, x: int, k: int)
    requires b > 0
    ensures g > 0 && Divides(g, a) && Divides(g, b) && a * x + k * b == g
    decreases b
  {
    var q, r := a / b, a % b;
    assert a == q * b + r;
    if r == 0 {
      g, x, k := b, 0, 1;
      assert Product(b, q, a) && Product(b, 1, b);
    } else {
      var x', k';
      g, x', k' := CommonDivisor(b, r);
      x, k := k', x' - q * k';
      var c, d :| Product(g, c, b) && Product(g, d, r);
      CommonDivisorStep(a, b, q, r, x', k', g, c, d);
    }
  }

  lemma DivisorBound(g: nat, p: nat)
    requires p > 0 && Divides(g, p)
    ensures g <= p
  {
    var q :| Product(g, q, p);
    if q > 1 {
      MulLe(1, q, g);
    }
  }

  /** Modulo a prime everything that is not a multiple of it can be inverted. */
  lemma InvertibleModPrime(a: nat, p: nat)
    requires Prime(p)
    ensures Invertible(a, p) <==> a % p != 0
  {
    if a % p != 0 {
      var g, x, k := CommonDivisor(a, p);
      DivisorBound(g, p);
      assert g != p by {
        var q :| Product(g, q, a);
        if g == p {
          DivModUnique(a, p, q, 0);
        }
      }
      assert g == 1;
      assert Bezout(a, p, x, k);
    } else {
      var c := ExactQuotient(a, p);
      InvertibleCongruent(a, 0, p, c);
      if Invertible(0, p) {
        var x, k :| Bezout(0, p, x, k);
        NotAUnit(p, k);
      }
    }
  }

  lemma MultipleOfP(i: int, p: int, q: int)
    ensures i * (p * p * q) == (i * (p * q)) * p
  {
  }

  /** For a prime p, the division by e * r^e has an answer exactly when p divides neither e nor r. */
  lemma DivisibleExactly(key: Key, r: nat)
    requires Validate(key) && Prime(key.p)
    ensures Divisible(key, r) <==> key.e % key.p != 0 && r % key.p != 0
  {
    hide BitCount, Pow, Prime;
    var n, e, p := key.n, key.e, key.p;
    var re := ModExp(r, e, n);
    InvertibleProduct(e, re, p);
    DivisionIdentity(Pow(r, e), n);
    var i := Pow(r, e) / n;
    MultipleOfP(i, p, key.q);
    InvertibleCongruent(Pow(r, e), re, p, i * (p * key.q));
    InvertiblePower(r, e, p);
    InvertibleModPrime(e, p);
    InvertibleModPrime(r, p);
  }

  // ---------------------------------------------------------------- the inverse itself

  lemma ReducedDivisor(b: nat, p: nat)
    requires p > 0
    ensures Invertible(b % p, p) <==> Invertible(b, p)
  {
    DivisionIdentity(b, p);
    InvertibleCongruent(b, b % p, p, b / p);
  }

  lemma QuotientIdentity(b: nat, i0: int, p: nat, k: int, a: nat, t: nat)
    requires p > 0 && Bezout(b, p, i0, k) && t == a * (i0 % p) % p
    ensures (b * t - a) % p == 0
  {
    var i := i0 % p;
    var c, d := i0 / p, a * i / p;
    DivisionIdentity(i0, p);
    DivisionIdentity(a * i, p);
    // b * t - a = b * (a * i - d * p) - a = a * (b * i - 1) - b * d * p
    assert b * (a * i - d * p) == a * (b * i) - (b * d) * p;
    assert b * (c * p + i) == (b * c) * p + b * i;
    assert a * (1 - k * p - (b * c) * p) == a - (a * k) * p - (a * (b * c)) * p;
    var m := -(a * k) - a * (b * c) - b * d;
    assert b * t - a == m * p;
    DivModUnique(b * t - a, p, m, 0);
  }

  /**
   ModularArithmetic::Divide: zero when the divisor has no inverse.  The inverse of `Integer` is not part
   of this model; the loop of algebra.cpp stands for it.
   */
  method DivideMod(a: nat, b: nat, p: nat) returns (t: nat)
    requires p > 0
    ensures t < p
    ensures Invertible(b, p) ==> (b * t - a) % p == 0
    ensures !Invertible(b, p) ==> t == 0
  {
    hide Bezout;
    var i0 := MultiplicativeInverse(b % p, p);
    var i := i0 % p;
    t := a * i % p;
    ReducedDivisor(b, p);
    if Invertible(b, p) {
      var k :| Bezout(b % p, p, i0, k);
      DivisionIdentity(b, p);
      InvertibleShift(b % p, b, p, -(b / p), i0, k);
      QuotientIdentity(b, i0, p, k - (b / p) * i0, a, t);
    } else {
      DivModUnique(0, p, 0, 0);
    }
  }

  lemma ReducedOperands(b: nat, a: nat, p: nat, t: nat)
    requires p > 0 && ((b % p) * t - a % p) % p == 0
    ensures (b * t - a) % p == 0
  {
    var m := ExactQuotient((b % p) * t - a % p, p);
    DivisionIdentity(a, p);
    DivisionIdentity(b, p);
    var c, d := a / p, b / p;
    assert (d * p + b % p) * t == (d * t) * p + (b % p) * t;
    assert b * t - a == (m + d * t - c) * p;
    DivModUnique(b * t - a, p, m + d * t - c, 0);
  }

  /** Whether the forward function maps the draw itself to `x`, told from the values of the trial. */
  predicate MapsUncorrected(key: Key, x: nat, r: nat)
    requires Validate(key)
  {
    var T := TryRandom(key, x, r);
    T.z <= T.re && (T.re < T.z + Pow2(2 * GetK(key) + 2) || x == MaxImage(key))
  }

  lemma ShiftedCompare(x: nat, y: nat, k: nat)
    ensures Shl(x, k) <= y <==> x <= Shr(y, k)
    ensures y < Shl(x, k) + Pow2(k) <==> Shr(y, k) <= x
  {
    var q, r := Shr(y, k), Low(y, k);
    assert y == Shl(q, k) + r;
    hide Low;
    ShlAdd(q, 1, k);
    ShlAdd(x, 1, k);
    ShlZero(k);
    ShlOrder(x, q, k);
    ShlOrder(q, x, k);
    ShlOrder(x + 1, q, k);
    ShlOrder(q + 1, x, k);
  }

  lemma MapsUncorrectedExactly(key: Key, x: nat, r: nat)
    requires Validate(key) && x < Pow2(GetK(key))
    ensures ApplyFunction(key, r) == x <==> MapsUncorrected(key, x, r)
  {
    PositiveModulus(key);
    hide Validate, ModExp, GetK, Pow2;
    var k := 2 * GetK(key) + 2;
    ShiftedCompare(x, ModExp(r, key.e, key.n), k);
  }

  /** The accepted draw that comes first, if there is one. */
  ghost predicate FirstAccepted(key: Key, x: nat, draws: seq<nat>, i: nat)
    requires Validate(key)
  {
    && i < |draws| && Accepted(key, x, draws[i])
    && forall k :: 0 <= k < i ==> !Accepted(key, x, draws[k])
  }

  lemma TrialPower(key: Key, x: nat, r: nat)
    requires Validate(key)
    ensures TryRandom(key, x, r).re == ModExp(r, key.e, key.n)
  {
  }

  /** The signature from an accepted r. */
  method Finish(key: Key, x: nat, r: nat) returns (s: nat)
    requires Validate(key) && r <= key.p * key.q && Accepted(key, x, r)
    ensures s < key.n
    ensures !Divisible(key, r) ==> s == r
    ensures Divisible(key, r) && x < Pow2(GetK(key)) ==> ApplyFunction(key, s) == x
  {
    hide Validate, Accepted, ApplyFunction, Pow2, Invertible, TryRandom, GetK;
    PositiveModulus(key);
    var T := TryRandom(key, x, r);
    TrialPower(key, x, r);
    var b, p := key.e * T.re, key.p;
    var t := DivideMod(T.w0 * r % p, b % p, p);
    ReducedDivisor(b, p);
    if Divisible(key, r) {
      FullRangeNotDivisible(key);
      ReducedOperands(b, T.w0 * r, p, t);
      if x < Pow2(GetK(key)) {
        RoundTrip(key, x, r, t);
      }
    } else {
      assert t == 0;
    }
    BelowModulus(key, r, t);
    s := r + t * (key.p * key.q);
  }

  lemma WhenItMapsBack(key: Key, x: nat, r: nat, s: nat)
    requires Validate(key)
    requires !Divisible(key, r) ==> s == r
    requires Divisible(key, r) && x < Pow2(GetK(key)) ==> ApplyFunction(key, s) == x
    ensures x < Pow2(GetK(key)) ==> (ApplyFunction(key, s) == x <==> Divisible(key, r) || MapsUncorrected(key, x, r))
    ensures Prime(key.p) ==> (Divisible(key, r) <==> key.e % key.p != 0 && r % key.p != 0)
  {
    hide Divisible, ApplyFunction, Validate, MapsUncorrected, Prime;
    if x < Pow2(GetK(key)) {
      MapsUncorrectedExactly(key, x, r);
    }
    if Prime(key.p) {
      DivisibleExactly(key, r);
    }
  }

  /**
   The loop over random draws, and the signature made from the first one it accepts.  A draw may
   be anything from 0 to p * q, both included.
   */
  method CalculateRandomizedInverse(key: Key, x: nat, draws: seq<nat>) returns (s: Option<nat>, ghost i: nat)
    requires Validate(key)
    requires forall r <- draws :: r <= key.p * key.q
    ensures s.None? ==> forall r <- draws :: !Accepted(key, x, r)
    ensures s.Some? ==> FirstAccepted(key, x, draws, i) && s.value < key.n
    ensures s.Some? && x < Pow2(GetK(key)) ==>
      (ApplyFunction(key, s.value) == x <==> Divisible(key, draws[i]) || MapsUncorrected(key, x, draws[i]))
    ensures s.Some? && x < Pow2(GetK(key)) && Prime(key.p) ==>
      (ApplyFunction(key, s.value) == x
       <==> (key.e % key.p != 0 && draws[i] % key.p != 0) || MapsUncorrected(key, x, draws[i]))
  {
    hide Divisible, ApplyFunction, Validate, Accepted, MapsUncorrected, Prime;
    i := 0;
    for n := 0 to |draws|
      invariant forall k :: 0 <= k < n ==> !Accepted(key, x, draws[k])
    {
      if Accepted(key, x, draws[n]) {
        i := n;
        assert draws[n] in draws;
        var value := Finish(key, x, draws[n]);
        WhenItMapsBack(key, x, draws[n], value);
        return Some(value), i;
      }
    }
    s := None;
  }

  lemma SmallKey()
    ensures var key := Key(175, 10, 5, 7);
            Validate(key) && GetK(key) == 1 && ModExp(3, 10, 175) == 74 && Shl(0, 4) == 0 && Pow2(1) == 2
  {
    assert BitCount(175) == 8 && BitCount(5) == 3 && BitCount(7) == 3;
    assert Pow(3, 10) == 59049 by {
      assert Pow(3, 5) == 243;
    }
  }

  lemma FiveDoesNotInvert(b: nat)
    requires b % 5 == 0
    ensures !Invertible(b, 5)
  {
    ReducedDivisor(b, 5);
    if Invertible(0, 5) {
      var x, k :| Bezout(0, 5, x, k);
      NotAUnit(5, k);
    }
  }

  /**
   A valid key and an accepted r for which the forward function does not give x back: the public
   exponent is a multiple of p, so no correction is made.
   */
  lemma RoundTripCanFail()
    ensures var key := Key(175, 10, 5, 7);
            && Validate(key) && GetK(key) == 1 && Accepted(key, 0, 3)
            && !Divisible(key, 3) && ApplyFunction(key, 3) == 1
  {
    var key := Key(175, 10, 5, 7);
    SmallKey();
    hide Validate, GetK, BitCount, Pow, Shl, Invertible;
    assert Shr(4, 3) == 0 && Shr(74, 4) == 4;
    assert TryRandom(key, 0, 3) == Trial(0, 74, 101, 3, 4);
    FiveDoesNotInvert(740);
  }
}
