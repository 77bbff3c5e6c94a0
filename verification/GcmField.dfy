/**
 What the multiplication of gcm.cpp computes: blocks are the coefficients of polynomials modulo
 x^128 + x^7 + x^2 + x + 1, their product is that of a commutative ring, and GHASH is a polynomial in
 the hash key (sections 6.3 and 6.4 of NIST SP 800-38D).
 */
module GcmField {
  import opened Bytes
  import opened Gcm

  // ---------------------------------------------------------------- multiplication by x

  /** The coefficient of x^j. */
  predicate Coefficient(v: Block, j: nat)
    requires j < 128
  {
    Bit(v[j / 8], PowerByte(7 - j % 8))
  }

  lemma ShiftedInBit(before: bv8, b: bv8, e: nat)
    requires e < 8
    ensures Bit(ShiftIn(before, b), PowerByte(e))
            <==> if e < 7 then Bit(b, PowerByte(e + 1)) else Bit(before, PowerByte(0))
    ensures !Bit(0, PowerByte(e))
  {
  }

  lemma FeedbackBit(last: bv8, e: nat)
    requires e < 8
    ensures Bit(Feedback(last), PowerByte(e)) <==> Bit(last, PowerByte(0)) && e in {7, 6, 5, 0}
  {
  }

  /** A coefficient that would belong to x^128 goes to 1, x, x^2 and x^7. */
  lemma MulXCoefficient(v: Block, j: nat)
    requires j < 128
    ensures Coefficient(MulX(v), j)
            <==> ((j > 0 && Coefficient(v, j - 1)) != (Coefficient(v, 127) && j in {0, 1, 2, 7}))
  {
    hide Bit, PowerByte, ShiftIn, Feedback, XorByte;
    var i, e := j / 8, 7 - j % 8;
    var before := if i == 0 then 0 else v[i - 1];
    ShiftedInBit(before, v[i], e);
    ShiftedInBit(0, 0, 0);
    if j > 0 {
      if e < 7 {
        assert (j - 1) / 8 == i && (j - 1) % 8 == j % 8 - 1;
      } else {
        assert (j - 1) / 8 == i - 1 && (j - 1) % 8 == 7;
      }
    }
    assert 127 / 8 == 15 && 127 % 8 == 7;
    if i == 0 {
      FeedbackBit(v[15], e);
      BitOfXor(ShiftIn(0, v[0]), Feedback(v[15]), e);
    }
  }

  // ---------------------------------------------------------------- one

  /** A block with one byte other than zero. */
  function ByteAt(i: nat, b: bv8): Block
    requires i < 16
  {
    ZERO[i := b]
  }

  const ONE: Block := ByteAt(0, 0x80)

  lemma ShiftPower(k: nat)
    requires k < 7
    ensures ShiftIn(0, PowerByte(7 - k)) == PowerByte(6 - k) && ShiftIn(PowerByte(7 - k), 0) == 0
    ensures !LastBit(PowerByte(7 - k))
  {
  }

  lemma ShiftLast()
    ensures ShiftIn(0, 1) == 0 && ShiftIn(1, 0) == 0x80 && ShiftIn(0, 0) == 0 && !LastBit(0)
  {
  }

  lemma MulXByteAt(i: nat, k: nat)
    requires i < 16 && k < 7
    ensures MulX(ByteAt(i, PowerByte(7 - k))) == ByteAt(i, PowerByte(6 - k))
  {
    hide ShiftIn, PowerByte, LastBit, XorByte;
    ShiftPower(k);
    ShiftLast();
    var v, w := ByteAt(i, PowerByte(7 - k)), ByteAt(i, PowerByte(6 - k));
    XorByteLaws(if i == 0 then PowerByte(6 - k) else 0, 0, 0);
    forall j | 0 <= j < 16
      ensures MulX(v)[j] == w[j]
    {
    }
  }

  lemma MulXToNext(i: nat)
    requires i < 15
    ensures MulX(ByteAt(i, 1)) == ByteAt(i + 1, 0x80)
  {
    hide ShiftIn, LastBit, XorByte;
    ShiftLast();
    XorByteLaws(0, 0, 0);
    var v, w := ByteAt(i, 1), ByteAt(i + 1, 0x80);
    forall j | 0 <= j < 16
      ensures MulX(v)[j] == w[j]
    {
    }
  }

  lemma {:induction false} PowerAt(i: nat, k: nat)
    requires i < 16 && k < 8
    ensures MulXn(ByteAt(i, 0x80), k) == ByteAt(i, PowerByte(7 - k))
  {
    hide MulX, ByteAt;
    if k > 0 {
      PowerAt(i, k - 1);
      MulXByteAt(i, k - 1);
    }
  }

  lemma NextByte(i: nat)
    requires i < 15
    ensures MulXn(ByteAt(i, 0x80), 8) == ByteAt(i + 1, 0x80)
  {
    hide MulX, ByteAt;
    PowerAt(i, 7);
    MulXToNext(i);
  }

  lemma XorByteAt(i: nat, a: bv8, b: bv8)
    requires i < 16
    ensures Xor(ByteAt(i, a), ByteAt(i, b)) == ByteAt(i, XorByte(a, b))
  {
    hide XorByte;
    XorByteLaws(0, 0, 0);
  }

  lemma HighestBit(b: bv8) returns (e: nat)
    requires b != 0
    ensures e < 8 && PowerOfTwo(e) <= b as int < 2 * PowerOfTwo(e)
  {
    var n := b as int;
    e := if n >= 128 then 7 else if n >= 64 then 6 else if n >= 32 then 5 else if n >= 16 then 4
         else if n >= 8 then 3 else if n >= 4 then 2 else if n >= 2 then 1 else 0;
  }

  lemma NoCoefficients(i: nat)
    requires i < 16
    ensures ByteMult(ByteAt(i, 0x80), 0) == ByteAt(i, 0)
  {
    MultZero(ByteAt(i, 0x80), ByteBits(0));
  }

  lemma {:induction false} ByteMultOne(i: nat, b: bv8)
    requires i < 16
    ensures ByteMult(ByteAt(i, 0x80), b) == ByteAt(i, b)
    decreases b as int
  {
    hide ByteAt, ByteMult, MulXn, Xor, XorByte, PowerByte;
    var v := ByteAt(i, 0x80);
    if b == 0 {
      NoCoefficients(i);
    } else {
      var e := HighestBit(b);
      var rest := XorByte(PowerByte(e), b);
      ClearBit(b, e);
      ByteMultOne(i, rest);
      ByteMultXor(v, PowerByte(e), rest);
      ByteMultPower(v, 7 - e);
      PowerAt(i, 7 - e);
      XorByteAt(i, PowerByte(e), rest);
    }
  }

  /** The bytes of `x` from byte `i` on. */
  function Rest(x: Block, i: nat): Block {
    seq(16, k requires 0 <= k < 16 => if k >= i then x[k] else 0)
  }

  lemma RestStep(x: Block, i: nat)
    requires i < 16
    ensures Xor(ByteAt(i, x[i]), Rest(x, i + 1)) == Rest(x, i)
  {
    hide XorByte;
    forall k | 0 <= k < 16
      ensures Xor(ByteAt(i, x[i]), Rest(x, i + 1))[k] == Rest(x, i)[k]
    {
      XorByteLaws(x[k], 0, 0);
      XorByteLaws(0, 0, 0);
    }
  }

  lemma NothingLeft(x: Block)
    ensures BitsFrom(x, 16) == [] && Rest(x, 16) == ZERO && Rest(x, 0) == x
  {
  }

  lemma {:induction false} RestOfOne(x: Block, i: nat)
    requires i < 16
    ensures Mult(ByteAt(i, 0x80), BitsFrom(x, i)) == Rest(x, i)
    decreases 16 - i
  {
    hide ByteAt, ByteMult, MulXn, Mult, Xor, Rest;
    var v := ByteAt(i, 0x80);
    TakeByte(v, x, i);
    ByteMultOne(i, x[i]);
    RestStep(x, i);
    if i < 15 {
      NextByte(i);
      RestOfOne(x, i + 1);
    } else {
      MultNothing(MulXn(v, 8));
      NothingLeft(x);
    }
  }

  // ---------------------------------------------------------------- the laws of the product

  lemma {:induction false} MultLinear(v: Block, w: Block, bits: seq<bool>)
    ensures Mult(Xor(v, w), bits) == Xor(Mult(v, bits), Mult(w, bits))
    decreases bits
  {
    hide MulX, Xor;
    XorUnit(ZERO);
    if bits != [] {
      MulXLinear(v, w);
      MultLinear(MulX(v), MulX(w), bits[1..]);
      var p, q := if bits[0] then v else ZERO, if bits[0] then w else ZERO;
      XorInterchange(p, Mult(MulX(v), bits[1..]), q, Mult(MulX(w), bits[1..]));
    }
  }

  lemma MultOfZero(s: seq<bool>)
    ensures Mult(ZERO, s) == ZERO
  {
    hide Mult, Xor;
    MultLinear(ZERO, ZERO, s);
    XorUnit(ZERO);
    XorUnit(Mult(ZERO, s));
  }

  lemma OneStep(v: Block)
    ensures MulXn(v, 1) == MulX(v)
  {
    hide MulX;
    assert MulXn(v, 0) == v;
  }

  lemma MultMulX(v: Block, s: seq<bool>)
    ensures Mult(MulX(v), s) == MulX(Mult(v, s))
  {
    hide MulX, Mult;
    MultMulXn(v, s, 1);
    OneStep(v);
    OneStep(Mult(v, s));
  }

  /** Multiplying by one polynomial and then by another can be done in either order. */
  lemma {:induction false} MultExchange(v: Block, s: seq<bool>, t: seq<bool>)
    ensures Mult(Mult(v, s), t) == Mult(Mult(v, t), s)
    decreases t
  {
    hide MulX, Xor;
    if t == [] {
      MultOfZero(s);
    } else {
      var rest := t[1..];
      MultMulX(v, s);
      MultExchange(MulX(v), s, rest);
      MultOfZero(s);
      MultLinear(if t[0] then v else ZERO, Mult(MulX(v), rest), s);
    }
  }

  lemma GfMultCommutes(a: Block, b: Block)
    ensures GfMult(a, b) == GfMult(b, a)
  {
    hide Mult, BitsFrom, ByteAt;
    RestOfOne(a, 0);
    RestOfOne(b, 0);
    NothingLeft(a);
    NothingLeft(b);
    MultExchange(ONE, BitsFrom(a, 0), BitsFrom(b, 0));
  }

  /** One is neutral: the product takes the polynomial in the bytes as it is. */
  lemma GfMultOne(x: Block)
    ensures GfMult(ONE, x) == x && GfMult(x, ONE) == x
  {
    hide Mult, BitsFrom, ByteAt;
    RestOfOne(x, 0);
    NothingLeft(x);
    GfMultCommutes(ONE, x);
  }

  lemma GfMultAssociates(a: Block, b: Block, c: Block)
    ensures GfMult(GfMult(a, b), c) == GfMult(a, GfMult(b, c))
  {
    hide Mult, BitsFrom;
    GfMultCommutes(a, GfMult(b, c));
    GfMultCommutes(a, b);
    MultExchange(b, BitsFrom(a, 0), BitsFrom(c, 0));
  }

  lemma GfMultDistributes(a: Block, b: Block, c: Block)
    ensures GfMult(a, Xor(b, c)) == Xor(GfMult(a, b), GfMult(a, c))
    ensures GfMult(Xor(b, c), a) == Xor(GfMult(b, a), GfMult(c, a))
  {
    hide Mult, BitsFrom, Xor;
    MultLinear(b, c, BitsFrom(a, 0));
    GfMultCommutes(a, Xor(b, c));
    GfMultCommutes(a, b);
    GfMultCommutes(a, c);
  }

  /** Multiplying by the polynomial x is `MulX`. */
  lemma GfMultX(v: Block)
    ensures GfMult(v, ByteAt(0, 0x40)) == MulX(v)
  {
    hide Mult, BitsFrom, ByteAt, MulX;
    GfMultOne(v);
    MultMulX(ONE, BitsFrom(v, 0));
    MulXByteAt(0, 0);
    GfMultCommutes(v, ByteAt(0, 0x40));
  }

  // ---------------------------------------------------------------- GHASH

  function GfPower(H: Block, n: nat): Block {
    if n == 0 then ONE else GfMult(GfPower(H, n - 1), H)
  }

  function Sum(terms: seq<Block>): Block {
    if terms == [] then ZERO else Xor(terms[0], Sum(terms[1..]))
  }

  /** The products of the blocks of `data` with falling powers of the hash key, the last one with H itself. */
  function Terms(H: Block, data: seq<bv8>): (s: seq<Block>)
    ensures |s| == |data| / 16
  {
    seq(|data| / 16, i requires 0 <= i < |data| / 16 =>
      GfMult(GfPower(H, |data| / 16 - i), data[16 * i..16 * i + 16]))
  }

  lemma LaterBlock(data: seq<bv8>, k: nat)
    requires k + 32 <= |data|
    ensures data[16 + k..16 + k + 16] == data[16..][k..k + 16]
  {
    var rest := data[16..];
    var p, q := data[16 + k..16 + k + 16], rest[k..k + 16];
    forall j | 0 <= j < 16
      ensures p[j] == q[j]
    {
      assert rest[k + j] == data[16 + k + j];
    }
  }

  lemma TermsStep(H: Block, data: seq<bv8>)
    requires |data| >= 16
    ensures Terms(H, data)[0] == GfMult(GfPower(H, |data| / 16), data[..16])
    ensures Terms(H, data)[1..] == Terms(H, data[16..])
  {
    hide GfMult, GfPower;
    var rest := data[16..];
    var n := |data| / 16;
    assert |rest| / 16 == n - 1;
    forall i | 0 <= i < n - 1
      ensures Terms(H, data)[1..][i] == Terms(H, rest)[i]
    {
      assert 16 * (i + 1) == 16 + 16 * i;
      LaterBlock(data, 16 * i);
    }
  }

  /** GHASH from `x` over the blocks X_1 to X_n is x * H^n + X_1 * H^n + X_2 * H^(n-1) + ... + X_n * H. */
  lemma {:induction false} GhashPolynomial(H: Block, x: Block, data: seq<bv8>)
    ensures Ghash(H, x, data) == Xor(GfMult(GfPower(H, |data| / 16), x), Sum(Terms(H, data)))
    decreases |data|
  {
    hide GfMult, Xor, Terms;
    var n := |data| / 16;
    if |data| < 16 {
      GfMultOne(x);
      XorUnit(x);
    } else {
      var X, rest := data[..16], data[16..];
      var P := GfPower(H, n - 1);
      GhashPolynomial(H, GfMult(H, Xor(x, X)), rest);
      TermsStep(H, data);
      GfMultAssociates(P, H, Xor(x, X));
      GfMultDistributes(GfPower(H, n), x, X);
      XorAssociates(GfMult(GfPower(H, n), x), GfMult(GfPower(H, n), X), Sum(Terms(H, rest)));
    }
  }

  /** A block is added before the multiplication. */
  lemma GhashOneBlock(H: Block, x: Block, X: Block)
    ensures Ghash(H, x, X) == GfMult(Xor(x, X), H)
  {
    hide GfMult, Xor;
    assert X[..16] == X && X[16..] == [];
    GfMultCommutes(H, Xor(x, X));
  }
}
