/**
 gcm.cpp: multiplication by the hash key in GF(2^128), bit by bit and by two kinds of tables, and
 the GHASH function of section 6.4 of NIST SP 800-38D.

 A block is its 16 bytes in memory.  The coefficient of x^0 is the top bit of byte 0, so that
 reading the block as two big-endian words turns multiplication by x into a shift to the right.
 The byte order of the host does not show at this level.
 */
module Gcm {
  import opened Bytes

  type Block = s: seq<bv8> | |s| == 16 witness [0, 0, 0, 0, 0, 0, 0, 0, 0, 0, 0, 0, 0, 0, 0, 0]

  const ZERO: Block := [0, 0, 0, 0, 0, 0, 0, 0, 0, 0, 0, 0, 0, 0, 0, 0]

  // ---------------------------------------------------------------- the field

  function Xor(a: Block, b: Block): Block {
    seq(16, i requires 0 <= i < 16 => XorByte(a[i], b[i]))
  }

  /** A byte shifted down by one bit, with the bit that comes in from the byte before. */
  function ShiftIn(before: bv8, b: bv8): bv8 {
    (b >> 1) | (before << 7)
  }

  predicate LastBit(b: bv8) {
    b & 1 != 0
  }

  /** What a coefficient shifted out of x^127 adds to the first byte: 1 + x + x^2 + x^7. */
  function Feedback(last: bv8): bv8 {
    if LastBit(last) then 0xe1 else 0
  }

  function MulXByte(v: Block, i: nat): bv8
    requires i < 16
  {
    if i == 0 then XorByte(ShiftIn(0, v[0]), Feedback(v[15])) else ShiftIn(v[i - 1], v[i])
  }

  /** Multiplication by x. */
  function MulX(v: Block): Block {
    seq(16, i requires 0 <= i < 16 => MulXByte(v, i))
  }

  function MulXn(v: Block, n: nat): Block {
    if n == 0 then v else MulX(MulXn(v, n - 1))
  }

  /** The product of `v` with the polynomial whose coefficients are `bits`, lowest power first. */
  function Mult(v: Block, bits: seq<bool>): Block
    decreases bits
  {
    if bits == [] then ZERO else Xor(if bits[0] then v else ZERO, Mult(MulX(v), bits[1..]))
  }

  lemma XorCommutes(a: Block, b: Block)
    ensures Xor(a, b) == Xor(b, a)
  {
    hide XorByte;
    forall i | 0 <= i < 16
      ensures Xor(a, b)[i] == Xor(b, a)[i]
    {
      XorByteLaws(a[i], b[i], 0);
    }
  }

  lemma XorAssociates(a: Block, b: Block, c: Block)
    ensures Xor(Xor(a, b), c) == Xor(a, Xor(b, c))
  {
    hide XorByte;
    forall i | 0 <= i < 16
      ensures Xor(Xor(a, b), c)[i] == Xor(a, Xor(b, c))[i]
    {
      XorByteLaws(a[i], b[i], c[i]);
    }
  }

  lemma XorUnit(a: Block)
    ensures Xor(a, ZERO) == a && Xor(ZERO, a) == a && Xor(a, a) == ZERO
  {
    hide XorByte;
    forall i | 0 <= i < 16
      ensures Xor(a, ZERO)[i] == a[i] && Xor(ZERO, a)[i] == a[i] && Xor(a, a)[i] == 0
    {
      XorByteLaws(a[i], 0, 0);
    }
  }

  lemma XorLaws(a: Block, b: Block, c: Block)
    ensures Xor(a, b) == Xor(b, a) && Xor(Xor(a, b), c) == Xor(a, Xor(b, c))
    ensures Xor(a, ZERO) == a && Xor(ZERO, a) == a && Xor(a, a) == ZERO
  {
    hide Xor;
    XorCommutes(a, b);
    XorAssociates(a, b, c);
    XorUnit(a);
  }

  lemma XorInterchange(a: Block, b: Block, c: Block, d: Block)
    ensures Xor(Xor(a, b), Xor(c, d)) == Xor(Xor(a, c), Xor(b, d))
  {
    hide Xor;
    XorLaws(a, b, Xor(c, d));
    XorLaws(b, c, d);
    XorLaws(c, b, d);
    XorLaws(a, c, Xor(b, d));
  }

  lemma ShiftInXor(x: bv8, y: bv8, x': bv8, y': bv8)
    ensures ShiftIn(XorByte(x, x'), XorByte(y, y')) == XorByte(ShiftIn(x, y), ShiftIn(x', y'))
    ensures ShiftIn(0, 0) == 0
  {
  }

  lemma FeedbackXor(a: bv8, b: bv8)
    ensures Feedback(XorByte(a, b)) == XorByte(Feedback(a), Feedback(b)) && Feedback(0) == 0
  {
  }

  lemma FirstByteXor(a: bv8, b: bv8, a': bv8, b': bv8)
    ensures XorByte(ShiftIn(0, XorByte(a, a')), Feedback(XorByte(b, b')))
         == XorByte(XorByte(ShiftIn(0, a), Feedback(b)), XorByte(ShiftIn(0, a'), Feedback(b')))
  {
    hide XorByte, ShiftIn, Feedback;
    XorByteLaws(0, 0, 0);
    ShiftInXor(0, a, 0, a');
    FeedbackXor(b, b');
    var p, q, c, c' := ShiftIn(0, a), ShiftIn(0, a'), Feedback(b), Feedback(b');
    XorByteLaws(XorByte(p, q), c, c');
    XorByteLaws(p, q, c);
    XorByteLaws(q, c, 0);
    XorByteLaws(p, c, q);
    XorByteLaws(XorByte(p, c), q, c');
  }

  lemma MulXLinear(a: Block, b: Block)
    ensures MulX(Xor(a, b)) == Xor(MulX(a), MulX(b))
    ensures MulX(ZERO) == ZERO
  {
    hide XorByte, ShiftIn, Feedback;
    forall i | 0 <= i < 16
      ensures MulX(Xor(a, b))[i] == Xor(MulX(a), MulX(b))[i]
    {
      if i == 0 {
        FirstByteXor(a[0], a[15], b[0], b[15]);
      } else {
        ShiftInXor(a[i - 1], a[i], b[i - 1], b[i]);
      }
    }
    ShiftInXor(0, 0, 0, 0);
    FeedbackXor(0, 0);
    XorByteLaws(0, 0, 0);
  }

  lemma {:induction false} MulXnLinear(a: Block, b: Block, n: nat)
    ensures MulXn(Xor(a, b), n) == Xor(MulXn(a, n), MulXn(b, n))
    ensures MulXn(ZERO, n) == ZERO
  {
    hide MulX, Xor;
    if n > 0 {
      MulXnLinear(a, b, n - 1);
      MulXLinear(MulXn(a, n - 1), MulXn(b, n - 1));
    }
  }

  lemma {:induction false} MulXnAdd(v: Block, m: nat, n: nat)
    ensures MulXn(MulXn(v, m), n) == MulXn(v, m + n)
  {
    hide MulX;
    if n > 0 {
      MulXnAdd(v, m, n - 1);
    }
  }

  lemma MulXnFront(v: Block, n: nat)
    ensures MulXn(MulX(v), n) == MulXn(v, n + 1) && MulX(MulXn(v, n)) == MulXn(v, n + 1)
  {
    hide MulX;
    assert MulXn(v, 1) == MulX(v) by {
      assert MulXn(v, 0) == v;
    }
    MulXnAdd(v, 1, n);
  }

  lemma {:induction false} MultZero(v: Block, bits: seq<bool>)
    requires forall i :: 0 <= i < |bits| ==> !bits[i]
    ensures Mult(v, bits) == ZERO
    decreases bits
  {
    hide MulX, Xor;
    if bits != [] {
      MultZero(MulX(v), bits[1..]);
      XorUnit(ZERO);
    }
  }

  /** A single coefficient. */
  lemma {:induction false} MultUnit(v: Block, bits: seq<bool>, k: nat)
    requires k < |bits| && forall i :: 0 <= i < |bits| ==> (bits[i] <==> i == k)
    ensures Mult(v, bits) == MulXn(v, k)
    decreases bits
  {
    hide MulX, Xor;
    if k == 0 {
      MultZero(MulX(v), bits[1..]);
      XorUnit(v);
    } else {
      MultUnit(MulX(v), bits[1..], k - 1);
      MulXnFront(v, k - 1);
      XorUnit(MulXn(v, k));
    }
  }

  lemma {:induction false} MultConcat(v: Block, s: seq<bool>, t: seq<bool>)
    ensures Mult(v, s + t) == Xor(Mult(v, s), Mult(MulXn(v, |s|), t))
    decreases s
  {
    hide MulX, Xor;
    if s == [] {
      assert s + t == t;
      XorUnit(Mult(v, t));
    } else {
      MultConcat(MulX(v), s[1..], t);
      assert (s + t)[1..] == s[1..] + t;
      MulXnFront(v, |s| - 1);
      XorAssociates(if s[0] then v else ZERO, Mult(MulX(v), s[1..]), Mult(MulXn(v, |s|), t));
    }
  }

  /** Multiplying by a power of x commutes with multiplying by a polynomial. */
  lemma {:induction false} MultMulXn(v: Block, bits: seq<bool>, n: nat)
    ensures Mult(MulXn(v, n), bits) == MulXn(Mult(v, bits), n)
    decreases bits
  {
    hide MulX, Xor;
    MulXnLinear(ZERO, ZERO, n);
    if bits != [] {
      MulXnFront(v, n);
      MultMulXn(MulX(v), bits[1..], n);
      MulXnLinear(if bits[0] then v else ZERO, Mult(MulX(v), bits[1..]), n);
    }
  }

  ghost predicate IsXor(u: seq<bool>, s: seq<bool>, t: seq<bool>) {
    |u| == |s| == |t| && forall i :: 0 <= i < |u| ==> u[i] == (s[i] != t[i])
  }

  lemma {:induction false} MultXor(v: Block, u: seq<bool>, s: seq<bool>, t: seq<bool>)
    requires IsXor(u, s, t)
    ensures Mult(v, u) == Xor(Mult(v, s), Mult(v, t))
    decreases u
  {
    hide MulX, Xor;
    XorUnit(ZERO);
    if u != [] {
      MultXor(MulX(v), u[1..], s[1..], t[1..]);
      var x, y := if s[0] then v else ZERO, if t[0] then v else ZERO;
      XorInterchange(x, Mult(MulX(v), s[1..]), y, Mult(MulX(v), t[1..]));
      XorUnit(v);
    }
  }

  // ---------------------------------------------------------------- bytes

  function Mask(i: nat): bv8
    requires i < 8
  {
    PowerByte(7 - i)
  }

  /** The coefficients in a byte, most significant bit first. */
  function ByteBits(b: bv8): (bits: seq<bool>)
    ensures |bits| == 8
  {
    seq(8, i requires 0 <= i < 8 => Bit(b, Mask(i)))
  }

  lemma ByteBitsXor(a: bv8, b: bv8)
    ensures IsXor(ByteBits(XorByte(a, b)), ByteBits(a), ByteBits(b))
  {
    hide Bit, XorByte, PowerByte;
    forall i | 0 <= i < 8
      ensures Bit(XorByte(a, b), Mask(i)) == (Bit(a, Mask(i)) != Bit(b, Mask(i)))
    {
      BitOfXor(a, b, 7 - i);
    }
  }

  /** The multiple of `v` by the eight coefficients of a byte, or by the four of its low nibble. */
  function ByteMult(v: Block, b: bv8): Block {
    Mult(v, ByteBits(b))
  }

  function NibbleMult(v: Block, b: bv8): Block {
    Mult(v, ByteBits(b)[4..])
  }

  lemma ByteMultXor(v: Block, a: bv8, b: bv8)
    ensures ByteMult(v, XorByte(a, b)) == Xor(ByteMult(v, a), ByteMult(v, b))
    ensures NibbleMult(v, XorByte(a, b)) == Xor(NibbleMult(v, a), NibbleMult(v, b))
  {
    hide ByteBits, Mult, Xor, XorByte;
    ByteBitsXor(a, b);
    var u, s, t := ByteBits(XorByte(a, b)), ByteBits(a), ByteBits(b);
    MultXor(v, u, s, t);
    assert IsXor(u[4..], s[4..], t[4..]);
    MultXor(v, u[4..], s[4..], t[4..]);
  }

  lemma PowerBit(k: nat, i: nat)
    requires k < 8 && i < 8
    ensures Bit(PowerByte(k), Mask(i)) <==> i == 7 - k
  {
  }

  lemma PowerBits(k: nat)
    requires k < 8
    ensures var bits := ByteBits(PowerByte(k));
            forall i :: 0 <= i < 8 ==> (bits[i] <==> i == 7 - k)
  {
    hide Bit;
    forall i | 0 <= i < 8
      ensures Bit(PowerByte(k), Mask(i)) <==> i == 7 - k
    {
      PowerBit(k, i);
    }
  }

  lemma ByteMultPower(v: Block, k: nat)
    requires k < 8
    ensures ByteMult(v, PowerByte(7 - k)) == MulXn(v, k)
  {
    hide MulX, Mult, MulXn;
    var bits := ByteBits(PowerByte(7 - k));
    PowerBits(7 - k);
    MultUnit(v, bits, k);
  }

  lemma NibbleMultPower(v: Block, k: nat)
    requires k < 4
    ensures NibbleMult(v, PowerByte(3 - k)) == MulXn(v, k)
  {
    hide MulX, Mult, MulXn;
    var bits := ByteBits(PowerByte(3 - k));
    PowerBits(3 - k);
    MultUnit(v, bits[4..], k);
  }

  lemma ClearBit7(b: bv8)
    requires 128 <= b as int
    ensures (128 ^ b) as int == (b as int) - 128
  {
  }

  lemma ClearBit6(b: bv8)
    requires 64 <= b as int < 128
    ensures (64 ^ b) as int == (b as int) - 64
  {
  }

  lemma ClearBit5(b: bv8)
    requires 32 <= b as int < 64
    ensures (32 ^ b) as int == (b as int) - 32
  {
  }

  lemma ClearBit4(b: bv8)
    requires 16 <= b as int < 32
    ensures (16 ^ b) as int == (b as int) - 16
  {
  }

  lemma ClearBit3(b: bv8)
    requires 8 <= b as int < 16
    ensures (8 ^ b) as int == (b as int) - 8
  {
  }

  lemma ClearBit2(b: bv8)
    requires 4 <= b as int < 8
    ensures (4 ^ b) as int == (b as int) - 4
  {
  }

  lemma ClearBit1(b: bv8)
    requires 2 <= b as int < 4
    ensures (2 ^ b) as int == (b as int) - 2
  {
  }

  lemma ClearBit0(b: bv8)
    requires 1 <= b as int < 2
    ensures (1 ^ b) as int == (b as int) - 1
  {
  }

  /** Taking its highest bit out of a byte subtracts the power of two. */
  lemma ClearBit(b: bv8, e: nat)
    requires e < 8 && PowerOfTwo(e) <= b as int < 2 * PowerOfTwo(e)
    ensures XorByte(PowerByte(e), b) as int == (b as int) - PowerOfTwo(e)
    ensures XorByte(PowerByte(e), XorByte(PowerByte(e), b)) == b
  {
    if e == 7 {
      ClearBit7(b);
    } else if e == 6 {
      ClearBit6(b);
    } else if e == 5 {
      ClearBit5(b);
    } else if e == 4 {
      ClearBit4(b);
    } else if e == 3 {
      ClearBit3(b);
    } else if e == 2 {
      ClearBit2(b);
    } else if e == 1 {
      ClearBit1(b);
    } else {
      ClearBit0(b);
    }
    XorByteTwice(PowerByte(e), b);
  }

  // ---------------------------------------------------------------- blocks and GHASH

  /** The coefficients in the bytes of `x` from byte `i` on. */
  function BitsFrom(x: Block, i: nat): seq<bool>
    requires i <= 16
    decreases 16 - i
  {
    if i == 16 then [] else ByteBits(x[i]) + BitsFrom(x, i + 1)
  }

  /** The product in GF(2^128) of the hash key and `x`. */
  function GfMult(H: Block, x: Block): Block {
    Mult(H, BitsFrom(x, 0))
  }

  /** GHASH, continued from `x`, over the whole blocks of `data`. */
  function Ghash(H: Block, x: Block, data: seq<bv8>): Block
    decreases |data|
  {
    if |data| < 16 then x else Ghash(H, GfMult(H, Xor(x, data[..16])), data[16..])
  }

  lemma TakeByte(v: Block, x: Block, i: nat)
    requires i < 16
    ensures Mult(v, BitsFrom(x, i)) == Xor(ByteMult(v, x[i]), Mult(MulXn(v, 8), BitsFrom(x, i + 1)))
  {
    hide Mult, MulXn, Xor, ByteBits;
    MultConcat(v, ByteBits(x[i]), BitsFrom(x, i + 1));
  }

  // ---------------------------------------------------------------- multiplication bit by bit

  lemma MultNothing(v: Block)
    ensures Mult(v, []) == ZERO
  {
  }

  lemma ByteBitAt(b: bv8, k: nat)
    requires k < 8
    ensures ByteBits(b)[k] == (b & Mask(k) != 0)
  {
  }

  lemma TakeBit(v: Block, bits: seq<bool>, tail: seq<bool>, b: bool)
    requires bits == [b] + tail
    ensures Mult(v, bits) == Xor(if b then v else ZERO, Mult(MulX(v), tail))
  {
    hide MulX, Xor;
    assert bits[1..] == tail;
  }

  lemma BitStep(z: Block, v: Block, b: bv8, rest: seq<bool>, k: nat)
    requires k < 8
    ensures var bits := ByteBits(b);
            Xor(z, Mult(v, bits[k..] + rest))
            == Xor(Xor(z, if b & Mask(k) != 0 then v else ZERO), Mult(MulX(v), bits[k + 1..] + rest))
  {
    hide MulX, Mult, Xor, ByteBits;
    var bits := ByteBits(b);
    var tail := bits[k + 1..] + rest;
    ByteBitAt(b, k);
    TakeBit(v, bits[k..] + rest, tail, bits[k]);
    XorAssociates(z, if bits[k] then v else ZERO, Mult(MulX(v), tail));
  }

  lemma NextMask(k: nat)
    requires k < 8
    ensures Mask(k) >> 1 == if k < 7 then Mask(k + 1) else 0
    ensures Mask(k) != 0
  {
  }

  /** The eight bits of one byte. */
  method MultiplyByte(Z: Block, V: Block, b: bv8, ghost rest: seq<bool>) returns (Y: Block, W: Block)
    ensures Xor(Y, Mult(W, rest)) == Xor(Z, Mult(V, ByteBits(b) + rest))
  {
    hide MulX, Mult, Xor, Bit, ByteBits;
    Y, W := Z, V;
    ghost var bits := ByteBits(b);
    var j: bv8 := 0x80;
    ghost var k := 0;
    while j != 0
      invariant 0 <= k <= 8 && (k < 8 ==> j == Mask(k)) && (k == 8 ==> j == 0)
      invariant Xor(Y, Mult(W, bits[k..] + rest)) == Xor(Z, Mult(V, bits + rest))
      decreases 8 - k
    {
      var x := b & j;
      BitStep(Y, W, b, rest, k);
      Y := Xor(Y, if x != 0 then W else ZERO);
      W := MulX(W);
      NextMask(k);
      j := j >> 1;
      k := k + 1;
    }
    assert bits[8..] + rest == rest;
  }

  /**
   The reference multiplication kept in the source: `a` times the polynomial in the bytes `b`.
   V and Z stand for the source's pairs of words.
   */
  method gcm_gf_mult(a: Block, b: Block) returns (Z: Block)
    ensures Z == GfMult(a, b)
  {
    hide MulX, Mult, ByteBits, Xor;
    var V := a;
    Z := ZERO;
    XorUnit(GfMult(a, b));
    for i := 0 to 16
      invariant Xor(Z, Mult(V, BitsFrom(b, i))) == GfMult(a, b)
    {
      Z, V := MultiplyByte(Z, V, b[i], BitsFrom(b, i + 1));
    }
    MultNothing(V);
    XorUnit(Z);
  }
}
