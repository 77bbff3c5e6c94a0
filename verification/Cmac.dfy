/**
 cmac.cpp: the subkeys and the running state of CMAC (section 6 of NIST SP 800-38B), and the
 chaining loop of cryptlib.cpp that it uses.
 */
module Cmac {
  import opened Wrappers
  import opened Integers
  import opened Bytes
  import opened BlockTransformations

  // ---------------------------------------------------------------- doubling

  function ShiftedByte(k: seq<bv8>, i: nat): bv8
    requires i < |k|
  {
    (k[i] << 1) | (if i + 1 < |k| then k[i + 1] >> 7 else 0)
  }

  /** What a bit that is shifted out adds to byte `i`. */
  function Feedback(length: nat, i: nat): bv8 {
    if length == 8 && i == 7 then 0x1b
    else if length == 16 && i == 15 then 0x87
    else if length == 32 && i == 30 then 4
    else if length == 32 && i == 31 then 0x23
    else 0
  }

  predicate IsSupported(length: nat) {
    length in {8, 16, 32}
  }

  predicate TopBit(k: seq<bv8>) {
    |k| > 0 && k[0] >> 7 != 0
  }

  function Doubled(k: seq<bv8>): (r: seq<bv8>)
    ensures |r| == |k|
  {
    seq(|k|, i requires 0 <= i < |k| =>
      if TopBit(k) then XorByte(ShiftedByte(k, i), Feedback(|k|, i)) else ShiftedByte(k, i))
  }

  /** The coefficient of x^j, for bytes that hold a polynomial with its highest coefficient first. */
  predicate Coefficient(k: seq<bv8>, j: nat)
    requires j < 8 * |k|
  {
    Bit(k[|k| - 1 - j / 8], PowerByte(j % 8))
  }

  /** The low terms of the polynomial of degree 8 * length. */
  predicate LowTerm(length: nat, j: nat) {
    if length == 8 then j in {0, 1, 3, 4}
    else if length == 16 then j in {0, 1, 2, 7}
    else j in {0, 1, 5, 10}
  }

  lemma ShiftedBit(b: bv8, next: bv8, e: nat)
    requires e < 8
    ensures Bit((b << 1) | (next >> 7), PowerByte(e))
            <==> if e > 0 then Bit(b, PowerByte(e - 1)) else Bit(next, PowerByte(7))
    ensures Bit(b << 1, PowerByte(e)) <==> e > 0 && Bit(b, PowerByte(e - 1))
    ensures (b << 1) | 0 == b << 1
  {
  }

  lemma TopBitIs(b: bv8)
    ensures b >> 7 != 0 <==> Bit(b, PowerByte(7))
  {
  }

  lemma ConstantBits(e: nat)
    requires e < 8
    ensures Bit(0x1b, PowerByte(e)) <==> e in {0, 1, 3, 4}
    ensures Bit(0x87, PowerByte(e)) <==> e in {0, 1, 2, 7}
    ensures Bit(0x23, PowerByte(e)) <==> e in {0, 1, 5}
    ensures Bit(4, PowerByte(e)) <==> e == 2
    ensures !Bit(0, PowerByte(e))
  {
  }

  lemma FeedbackBit(length: nat, i: nat, e: nat)
    requires IsSupported(length) && i < length && e < 8
    ensures Bit(Feedback(length, i), PowerByte(e)) <==> LowTerm(length, 8 * (length - 1 - i) + e)
  {
    var j := 8 * (length - 1 - i) + e;
    ConstantBits(e);
    if i < length - 2 {
      assert j >= 16;
    }
  }

  lemma ShiftedCoefficient(k: seq<bv8>, j: nat)
    requires j < 8 * |k|
    ensures Bit(ShiftedByte(k, |k| - 1 - j / 8), PowerByte(j % 8)) <==> j > 0 && Coefficient(k, j - 1)
  {
    hide Bit, PowerByte;
    var i, e := |k| - 1 - j / 8, j % 8;
    ShiftedBit(k[i], if i + 1 < |k| then k[i + 1] else 0, e);
    if e > 0 {
      assert (j - 1) / 8 == j / 8 && (j - 1) % 8 == e - 1;
    } else if j > 0 {
      assert (j - 1) / 8 == j / 8 - 1 && (j - 1) % 8 == 7;
    }
  }

  /** Multiplication by x: a coefficient that would belong to x^(8 * length) goes to the low terms. */
  lemma DoubledCoefficient(k: seq<bv8>, j: nat)
    requires IsSupported(|k|) && j < 8 * |k|
    ensures Coefficient(Doubled(k), j)
            <==> ((j > 0 && Coefficient(k, j - 1)) != (Coefficient(k, 8 * |k| - 1) && LowTerm(|k|, j)))
  {
    hide Bit, PowerByte, ShiftedByte, Feedback, LowTerm;
    var i, e := |k| - 1 - j / 8, j % 8;
    ShiftedCoefficient(k, j);
    TopBitIs(k[0]);
    assert (8 * |k| - 1) / 8 == |k| - 1 && (8 * |k| - 1) % 8 == 7;
    BitOfXor(ShiftedByte(k, i), Feedback(|k|, i), e);
    FeedbackBit(|k|, i, e);
  }

  /** x^e modulo x^2 + x + 1, as the coefficients of 1 and x. */
  function PowerModulo(e: nat): (bool, bool) {
    if e == 0 then (true, false) else var (a, b) := PowerModulo(e - 1); (b, a != b)
  }

  /** A sum of powers of x, with the given exponents, modulo x^2 + x + 1. */
  function SumModulo(exponents: seq<nat>): (bool, bool) {
    if exponents == [] then (false, false)
    else
      var (a, b) := PowerModulo(exponents[0]);
      var (c, d) := SumModulo(exponents[1..]);
      (a != c, b != d)
  }

  lemma {:induction false} PowerPeriod(e: nat, n: nat)
    ensures PowerModulo(e + 3 * n) == PowerModulo(e)
  {
    if n > 0 {
      PowerPeriod(e, n - 1);
      assert PowerModulo(e + 3 * n - 1) == var (a, b) := PowerModulo(e + 3 * n - 2); (b, a != b);
    }
  }

  /**
   For blocks of 32 bytes doubling does not take place in a field: the polynomial
   x^256 + x^10 + x^5 + x + 1 that the source uses is a multiple of x^2 + x + 1.
   */
  lemma LargeBlocksReducible()
    ensures forall j: nat :: LowTerm(32, j) <==> j in [0, 1, 5, 10]
    ensures SumModulo([256, 10, 5, 1, 0]) == (false, false)
  {
    PowerPeriod(1, 85);
    PowerPeriod(1, 3);
    PowerPeriod(2, 1);
    var s: seq<nat> := [256, 10, 5, 1, 0];
    assert s[1..] == [10, 5, 1, 0] && s[1..][1..] == [5, 1, 0] && s[1..][1..][1..] == [1, 0];
    assert s[1..][1..][1..][1..] == [0] && s[1..][1..][1..][1..][1..] == [];
  }

  lemma AddTwice(b: bv8, carry: bv8, next: bv8)
    requires carry == next >> 7
    ensures b + (b + carry) == (b << 1) | (next >> 7)
    ensures b + (b + 0) == (b << 1) | 0
  {
  }

  /** Two bytes at a time from the end: the bytes after `i` have been shifted. */
  ghost predicate Shifting(s: seq<bv8>, t: seq<bv8>, i: int) {
    |s| == |t| && forall j :: 0 <= j < |t| ==> t[j] == if j <= i then s[j] else ShiftedByte(s, j)
  }

  lemma NothingShifted(s: seq<bv8>)
    ensures Shifting(s, s, |s| - 1)
  {
  }

  lemma DoubleByte(s: seq<bv8>, i: nat, carry: bv8)
    requires i < |s| && carry == if i + 1 < |s| then s[i + 1] >> 7 else 0
    ensures s[i] + (s[i] + carry) == ShiftedByte(s, i)
  {
    AddTwice(s[i], carry, if i + 1 < |s| then s[i + 1] else 0);
  }

  lemma PairShifted(s: seq<bv8>, t: seq<bv8>, i: nat, carry: bv8)
    requires Shifting(s, t, i) && 1 <= i < |s| && carry == if i + 1 < |s| then s[i + 1] >> 7 else 0
    ensures t[i] == s[i] && t[i - 1] == s[i - 1]
    ensures s[i] + (s[i] + carry) == ShiftedByte(s, i)
    ensures s[i - 1] + (s[i - 1] + (s[i] >> 7)) == ShiftedByte(s, i - 1)
    ensures Shifting(s, t[i := ShiftedByte(s, i)][i - 1 := ShiftedByte(s, i - 1)], i - 2)
  {
    DoubleByte(s, i, carry);
    DoubleByte(s, i - 1, s[i] >> 7);
    hide ShiftedByte;
  }

  /** Shifts by one bit, and returns the bit that falls out. */
  method ShiftUp(k: array<bv8>, off: nat, length: nat) returns (carry: bv8)
    requires off + length <= k.Length && length % 2 == 0
    modifies k
    ensures carry != 0 <==> TopBit(old(k[off..off + length]))
    ensures Shifting(old(k[off..off + length]), k[off..off + length], -1)
    ensures Untouched(old(k[..]), k[..], off, length)
  {
    hide ShiftedByte, Shifting;
    ghost var s := k[off..off + length];
    carry := 0;
    var i := length - 1;
    NothingShifted(s);
    while i >= 1
      invariant -1 <= i < length && i % 2 == 1
      invariant carry == if i + 1 < length then s[i + 1] >> 7 else 0
      invariant Shifting(s, k[off..off + length], i)
      invariant Untouched(old(k[..]), k[..], off, length)
    {
      ghost var t := k[off..off + length];
      PairShifted(s, t, i, carry);
      var carry2 := k[off + i] >> 7;
      k[off + i] := k[off + i] + (k[off + i] + carry);
      carry := k[off + i - 1] >> 7;
      k[off + i - 1] := k[off + i - 1] + (k[off + i - 1] + carry2);
      assert k[off..off + length] == t[i := ShiftedByte(s, i)][i - 1 := ShiftedByte(s, i - 1)];
      i := i - 2;
    }
  }

  /** The loop goes by pairs of bytes from the end; if the number of bytes is odd, the first one stays as it is. */
  function MulUOf(k: seq<bv8>): (r: seq<bv8>)
    ensures |r| == |k|
  {
    k[..|k| % 2] + Doubled(k[|k| % 2..])
  }

  predicate CarryOut(k: seq<bv8>) {
    TopBit(k[|k| % 2..])
  }

  /** For the block sizes that are supported, this is doubling. */
  lemma MulUDoubles(k: seq<bv8>)
    requires |k| % 2 == 0
    ensures MulUOf(k) == Doubled(k) && CarryOut(k) == TopBit(k)
  {
    hide Doubled;
    assert k[0..] == k;
    assert k[..0] == [];
  }

  ghost predicate WithFeedback(s: seq<bv8>, r: seq<bv8>) {
    |r| == |s| && forall i :: 0 <= i < |s| ==>
                    r[i] == if Feedback(|s|, i) != 0 then XorByte(s[i], Feedback(|s|, i)) else s[i]
  }

  method AddFeedback(k: array<bv8>, off: nat, length: nat)
    requires off + length <= k.Length && IsSupported(length)
    modifies k
    ensures WithFeedback(old(k[off..off + length]), k[off..off + length])
    ensures Untouched(old(k[..]), k[..], off, length)
  {
    hide XorByte;
    if length == 8 {
      k[off + 7] := XorByte(k[off + 7], 0x1b);
    } else if length == 16 {
      k[off + 15] := XorByte(k[off + 15], 0x87);
    } else {
      k[off + 30] := XorByte(k[off + 30], 4);
      k[off + 31] := XorByte(k[off + 31], 0x23);
    }
  }

  lemma DoubledIs(s: seq<bv8>, t: seq<bv8>, r: seq<bv8>)
    requires Shifting(s, t, -1) && if TopBit(s) then WithFeedback(t, r) else r == t
    ensures r == Doubled(s)
  {
    hide ShiftedByte, XorByte, Feedback;
    forall i | 0 <= i < |s|
      ensures r[i] == Doubled(s)[i]
    {
      XorByteLaws(ShiftedByte(s, i), 0, 0);
    }
  }

  method MulPairs(k: array<bv8>, off: nat, length: nat) returns (ok: bool)
    requires off + length <= k.Length
    modifies k
    ensures var first := off + length % 2;
            && (ok <==> IsSupported(length) || !TopBit(old(k[first..off + length])))
            && (ok ==> k[first..off + length] == Doubled(old(k[first..off + length])))
            && Untouched(old(k[..]), k[..], first, length - length % 2)
  {
    hide ShiftedByte, XorByte, Doubled, Shifting, Feedback;
    var first, n := off + length % 2, length - length % 2;
    ghost var s := k[first..off + length];
    assert first + n == off + length;
    var carry := ShiftUp(k, first, n);
    ghost var t := k[first..off + length];
    if carry != 0 {
      if length !in {8, 16, 32} {
        return false;
      }
      AddFeedback(k, off, length);
    }
    ok := true;
    DoubledIs(s, t, k[first..off + length]);
  }

  lemma Slice(t: seq<bv8>, u: seq<bv8>, off: nat, length: nat, i: nat, j: nat)
    requires Untouched(t, u, off, length) && i <= j <= |t| && (j <= off || off + length <= i)
    ensures t[i..j] == u[i..j]
  {
  }

  /** Doubles the bytes of `k` from `off` on; false where the source throws. */
  method MulU(k: array<bv8>, off: nat, length: nat) returns (ok: bool)
    requires off + length <= k.Length
    modifies k
    ensures ok <==> IsSupported(length) || !CarryOut(old(k[off..off + length]))
    ensures ok ==> k[off..off + length] == MulUOf(old(k[off..off + length]))
    ensures Untouched(old(k[..]), k[..], off, length)
  {
    hide TopBit, Doubled;
    ghost var t := k[..];
    ghost var odd := length % 2;
    assert k[off..off + length] == t[off..off + length];
    assert t[off..off + length][odd..] == k[off + odd..off + length];
    ok := MulPairs(k, off, length);
    Slice(t, k[..], off + odd, length - odd, off, off + odd);
    assert t[off..off + length][..odd] == t[off..off + odd] == k[off..off + odd];
    assert k[off..off + length] == k[off..off + odd] + k[off + odd..off + length];
  }

  // ---------------------------------------------------------------- the code of a message

  function Padded(b: nat, tail: seq<bv8>): (s: seq<bv8>)
    requires |tail| < b
    ensures |s| == b
  {
    tail + [0x80] + Zeros(b - |tail| - 1)
  }

  function Subkey1(E: Cipher, b: nat): (k: seq<bv8>)
    requires OnBlocks(E)
    ensures |k| == b
  {
    assert KeepsSize(E, Zeros(b));
    MulUOf(E(Zeros(b)))
  }

  function Subkey2(E: Cipher, b: nat): (k: seq<bv8>)
    requires OnBlocks(E)
    ensures |k| == b
  {
    MulUOf(Subkey1(E, b))
  }

  /** CMAC by its definition: the last block, complete or not, meets a subkey. */
  function CmacFrom(E: Cipher, b: nat, c: seq<bv8>, message: seq<bv8>): seq<bv8>
    requires b > 0 && |c| == b && OnBlocks(E)
    ensures |CmacFrom(E, b, c, message)| == b
    decreases |message|
  {
    assert forall x :: KeepsSize(E, x);
    if |message| > b then
      assert KeepsSize(E, XorBytes(c, message[..b]));
      CmacFrom(E, b, E(XorBytes(c, message[..b])), message[b..])
    else if |message| == b then
      assert KeepsSize(E, XorBytes(XorBytes(c, message), Subkey1(E, b)));
      E(XorBytes(XorBytes(c, message), Subkey1(E, b)))
    else
      assert KeepsSize(E, XorBytes(XorBytes(c, Padded(b, message)), Subkey2(E, b)));
      E(XorBytes(XorBytes(c, Padded(b, message)), Subkey2(E, b)))
  }

  /** Every block but the last one only takes the chain further. */
  lemma {:induction false} CmacAfterChain(E: Cipher, b: nat, c: seq<bv8>, full: seq<bv8>, tail: seq<bv8>)
    requires b > 0 && |c| == b && OnBlocks(E) && |full| % b == 0 && (tail == [] ==> full == [])
    ensures CmacFrom(E, b, c, full + tail) == CmacFrom(E, b, Chain(E, b, c, full), tail)
    decreases |full|
  {
    if full == [] {
      assert full + tail == tail;
    } else {
      BlocksLeft(|full|, b);
      var d := XorBytes(c, full[..b]);
      assert KeepsSize(E, d);
      CmacAfterChain(E, b, E(d), full[b..], tail);
      assert (full + tail)[..b] == full[..b] && (full + tail)[b..] == full[b..] + tail;
    }
  }

  /** The subkeys of the supported block sizes are twice and four times the enciphered zero block. */
  lemma SubkeysDoubled(E: Cipher, b: nat)
    requires IsSupported(b) && OnBlocks(E)
    ensures |E(Zeros(b))| == b
    ensures Subkey1(E, b) == Doubled(E(Zeros(b))) && Subkey2(E, b) == Doubled(Doubled(E(Zeros(b))))
  {
    hide Doubled, MulUOf, CarryOut;
    assert KeepsSize(E, Zeros(b));
    MulUDoubles(E(Zeros(b)));
    MulUDoubles(Doubled(E(Zeros(b))));
  }

  lemma LastOfCmac(E: Cipher, b: nat, c: seq<bv8>, last: seq<bv8>)
    requires b > 0 && |c| == b && OnBlocks(E) && |last| <= b
    ensures CmacFrom(E, b, c, last)
            == if |last| == b then E(XorBytes(XorBytes(c, last), Subkey1(E, b)))
               else E(XorBytes(XorBytes(c, last + [0x80] + Zeros(b - |last| - 1)), Subkey2(E, b)))
  {
    hide Subkey1, Subkey2, XorBytes;
  }

  /**
   The code of whole blocks and a last one, without naming the subkeys: with L the enciphered zero block, a
   complete last block meets 2 * L, and one that 0x80 and zeros complete meets 4 * L.
   */
  lemma CmacDefinition(E: Cipher, b: nat, full: seq<bv8>, last: seq<bv8>)
    requires IsSupported(b) && OnBlocks(E) && |full| % b == 0 && |last| <= b && (last == [] ==> full == [])
    ensures |E(Zeros(b))| == b
    ensures var c, L := Chain(E, b, Zeros(b), full), E(Zeros(b));
            CmacFrom(E, b, Zeros(b), full + last)
            == if |last| == b then E(XorBytes(XorBytes(c, last), Doubled(L)))
               else E(XorBytes(XorBytes(c, last + [0x80] + Zeros(b - |last| - 1)), Doubled(Doubled(L))))
  {
    hide Chain, Doubled, MulUOf, CarryOut, XorBytes, Subkey1, Subkey2, CmacFrom;
    SubkeysDoubled(E, b);
    CmacAfterChain(E, b, Zeros(b), full, last);
    LastOfCmac(E, b, Chain(E, b, Zeros(b), full), last);
  }

  // ---------------------------------------------------------------- the running state

  /** The padding bit, when the zeros before and after it are left out. */
  lemma XorPadded(c: seq<bv8>, tail: seq<bv8>)
    requires |tail| < |c|
    ensures XorAt(XorAt(c, 0, tail), |tail|, [0x80]) == XorBytes(c, Padded(|c|, tail))
  {
    hide XorAt, XorByte;
    var n := |c| - |tail| - 1;
    XorAtAgain(c, tail, [0x80]);
    var l, r := XorAt(c, 0, tail + [0x80]), XorBytes(c, Padded(|c|, tail));
    forall i | 0 <= i < |c|
      ensures l[i] == r[i]
    {
      XorAtAt(c, 0, tail + [0x80], i);
      XorByteLaws(c[i], 0, 0);
    }
  }

  /** Copies the second block of `a` to the third, and doubles it there. */
  method DoubleInto(a: array<bv8>, b: nat) returns (ok: bool)
    requires a.Length == 3 * b
    modifies a
    ensures ok <==> IsSupported(b) || !CarryOut(old(a[b..2 * b]))
    ensures ok ==> a[2 * b..3 * b] == MulUOf(old(a[b..2 * b]))
    ensures Untouched(old(a[..]), a[..], 2 * b, b)
  {
    hide MulUOf, CarryOut;
    forall i | 0 <= i < b {
      a[2 * b + i] := a[b + i];
    }
    assert a[2 * b..2 * b + b] == old(a[b..2 * b]);
    ok := MulU(a, 2 * b, b);
  }

  lemma SubkeyAdded(t: seq<bv8>, k: seq<bv8>, before: seq<bv8>, off: nat, b: nat)
    requires |t| == |before| == 3 * b && off in {b, 2 * b} && before[b..] == t[b..] && k == t[off..off + b]
    ensures k == before[off..off + b] && XorAt(t, 0, k)[..b] == XorBytes(t[..b], k)
    ensures XorAt(t, 0, k)[b..] == before[b..]
  {
    hide XorAt, XorBytes;
    XorAtFront(t, 0, k, b);
    XorAtWhole(t[..b], k);
    assert before[off..off + b] == before[b..][off - b..][..b];
    assert k == t[b..][off - b..][..b];
  }

  /** When only the first `b` of 3 * b bytes change, the rest can be cut up as before. */
  lemma Halves(t: seq<bv8>, u: seq<bv8>, b: nat)
    requires |t| == |u| == 3 * b && t[b..] == u[b..]
    ensures t[b..2 * b] == u[b..2 * b] && t[2 * b..] == u[2 * b..]
  {
    assert t[b..2 * b] == t[b..][..b] && t[2 * b..] == t[b..][b..];
    assert u[b..2 * b] == u[b..][..b] && u[2 * b..] == u[b..][b..];
  }

  class CMAC_Base {
    const m_cipher: Cipher
    const m_blockSize: nat
    var m_reg: array<bv8>         // the running block and the two subkeys
    var m_counter: nat
    ghost var full: seq<bv8>      // the blocks that have gone through the cipher
    ghost var tail: seq<bv8>      // what has been added to the running block since

    ghost predicate Keyed()
      reads this, m_reg
    {
      && m_blockSize > 0 && OnBlocks(m_cipher) && m_reg.Length == 3 * m_blockSize
      && m_reg[m_blockSize..2 * m_blockSize] == Subkey1(m_cipher, m_blockSize)
      && m_reg[2 * m_blockSize..] == Subkey2(m_cipher, m_blockSize)
    }

    ghost function Reg(): seq<bv8>
      reads this, m_reg
      requires m_reg.Length == 3 * m_blockSize
      ensures |Reg()| == m_blockSize
    {
      m_reg[..m_blockSize]
    }

    /** The running block holds the chain through `full`, with `tail` added to it. */
    ghost predicate Holds(full: seq<bv8>, tail: seq<bv8>)
      reads this, m_reg
    {
      && Keyed() && m_counter == |tail| <= m_blockSize && |full| % m_blockSize == 0
      && Reg() == XorAt(Chain(m_cipher, m_blockSize, Zeros(m_blockSize), full), 0, tail)
    }

    /** A full block is held back until more input comes: only the empty message has no tail. */
    ghost predicate Valid()
      reads this, m_reg
    {
      Holds(full, tail) && (tail == [] ==> full == [])
    }

    ghost function Message(): seq<bv8>
      reads this
    {
      full + tail
    }

    constructor (E: Cipher, blockSize: nat)
      requires blockSize > 0 && OnBlocks(E)
      ensures m_cipher == E && m_blockSize == blockSize && fresh(m_reg)
    {
      m_cipher, m_blockSize := E, blockSize;
      m_reg := new bv8[0];
      m_counter := 0;
      full, tail := [], [];
    }

    /** Makes the subkeys; false where the source throws, and then the object cannot be used. */
    method UncheckedSetKey() returns (ok: bool)
      requires m_blockSize > 0 && OnBlocks(m_cipher)
      modifies this
      ensures fresh(m_reg) && (ok ==> Valid() && Message() == [])
      ensures ok <==> IsSupported(m_blockSize)
                      || (!CarryOut(m_cipher(Zeros(m_blockSize))) && !CarryOut(Subkey1(m_cipher, m_blockSize)))
    {
      hide MulUOf, CarryOut, Chain, XorAt;
      var b := m_blockSize;
      m_reg := new bv8[3 * b](_ => 0);
      m_counter := 0;
      full, tail := [], [];
      ghost var t0 := m_reg[..];
      assert t0[..b] == Zeros(b);
      ProcessBlock(m_cipher, m_reg, b, b);
      ghost var t1 := m_reg[..];
      ok := MulU(m_reg, b, b);
      if !ok {
        return;
      }
      ghost var t2 := m_reg[..];
      assert t2[b..2 * b] == Subkey1(m_cipher, b);
      ok := DoubleInto(m_reg, b);
      Slice(t0, t1, b, b, 0, b);
      Slice(t1, t2, b, b, 0, b);
      Slice(t2, m_reg[..], 2 * b, b, 0, b);
      Slice(t2, m_reg[..], 2 * b, b, b, 2 * b);
      assert m_reg[2 * b..] == m_reg[2 * b..3 * b];
      XorAtWhole(Zeros(b), []);
      ChainNothing(m_cipher, b, Zeros(b));
    }

    /** Adds `s` to the running block, behind what has been added to it. */
    method XorBuf(s: seq<bv8>)
      requires Holds(full, tail) && m_counter + |s| <= m_blockSize
      modifies this`m_counter, this`tail, m_reg
      ensures Holds(full, tail) && tail == old(tail) + s
    {
      hide Chain, XorAt, Subkey1, Subkey2;
      ghost var c := Chain(m_cipher, m_blockSize, Zeros(m_blockSize), full);
      ghost var before := m_reg[..];
      XorInto(m_reg, m_counter, s);
      XorAtFront(before, m_counter, s, m_blockSize);
      XorAtAgain(c, tail, s);
      Halves(before, m_reg[..], m_blockSize);
      m_counter := m_counter + |s|;
      tail := tail + s;
    }

    /** Sends a full running block through the cipher. */
    method ProcessReg()
      requires Holds(full, tail) && m_counter == m_blockSize
      modifies this`m_counter, this`full, this`tail, m_reg
      ensures Holds(full, tail) && tail == [] && full == old(full) + old(tail)
    {
      hide Chain, XorAt, Subkey1, Subkey2;
      ghost var before := m_reg[..];
      ghost var c := Chain(m_cipher, m_blockSize, Zeros(m_blockSize), full);
      ProcessBlock(m_cipher, m_reg, m_blockSize, 0);
      Halves(before, m_reg[..], m_blockSize);
      XorAtWhole(c, tail);
      ChainConcat(m_cipher, m_blockSize, Zeros(m_blockSize), full, tail);
      ChainOne(m_cipher, m_blockSize, c, tail);
      AddBlock(|full|, m_blockSize);
      full, tail := full + tail, [];
      m_counter := 0;
      XorAtWhole(Reg(), []);
    }

    /** The whole blocks of `input` go through the cipher; returns how many bytes are left. */
    method ProcessBlocks(input: seq<bv8>) returns (left: nat)
      requires Holds(full, tail) && tail == []
      modifies this`full, m_reg
      ensures left < m_blockSize && left <= |input| && Holds(full, tail)
      ensures full == old(full) + input[..|input| - left]
    {
      hide Chain, XorAt, Subkey1, Subkey2;
      ghost var c := Reg();
      ghost var before := m_reg[..];
      XorAtWhole(Chain(m_cipher, m_blockSize, Zeros(m_blockSize), full), []);
      left := AdvancedProcessBlocks(m_cipher, m_reg, m_blockSize, input);
      Halves(before, m_reg[..], m_blockSize);
      ghost var blocks := input[..|input| - left];
      ChainConcat(m_cipher, m_blockSize, Zeros(m_blockSize), full, blocks);
      AddMultiples(|full|, |blocks|, m_blockSize);
      full := full + blocks;
      XorAtWhole(Reg(), []);
    }

    lemma KeyedSize()
      requires Holds(full, tail)
      ensures m_blockSize > 0
    {
    }

    lemma NothingAdded()
      requires Holds(full, tail) && tail == []
      ensures m_counter == 0
    {
    }

    lemma AllAdded()
      requires Holds(full, tail)
      ensures m_counter == |tail|
    {
    }

    /** More input.  What has been taken in is the concatenation of all inputs, however they are cut. */
    method Update(input: seq<bv8>)
      requires Valid()
      modifies this`m_counter, this`full, this`tail, m_reg
      ensures Valid() && Message() == old(Message()) + input
    {
      hide Holds;
      if |input| == 0 {
        assert Message() + input == Message();
        return;
      }
      KeyedSize();
      var rest := CompleteBlock(input);
      if |rest| > m_blockSize {
        var leftOver := ProcessBlocks(rest[..|rest| - 1]);
        leftOver := leftOver + 1;
        NothingAdded();
        rest := rest[|rest| - leftOver..];
        assert Message() + rest == old(Message()) + input;
      }
      if |rest| > 0 {
        AllAdded();
        XorBuf(rest);
      }
    }

    /** Input for a block that has been begun; it is sent through the cipher only if more input follows. */
    method CompleteBlock(input: seq<bv8>) returns (rest: seq<bv8>)
      requires Valid() && |input| > 0
      modifies this`m_counter, this`full, this`tail, m_reg
      ensures Holds(full, tail) && Message() + rest == old(Message()) + input && |rest| <= |input|
      ensures if rest == [] then tail != [] else tail == []
    {
      hide Holds;
      AllAdded();
      KeyedSize();
      CounterBound();
      rest := input;
      if m_counter > 0 {
        var len := Min(m_blockSize - m_counter, |rest|);
        XorBuf(rest[..len]);
        AllAdded();
        rest := rest[len..];
        if m_counter == m_blockSize && |rest| > 0 {
          ProcessReg();
        }
      }
    }

    lemma CounterBound()
      requires Holds(full, tail)
      ensures m_counter <= m_blockSize
    {
    }

    /**
     The first `size` bytes of the code, and the object is as it was after keying; None where the
     source throws.
     */
    method TruncatedFinal(size: nat) returns (mac: Option<seq<bv8>>)
      requires Valid()
      modifies this`m_counter, this`full, this`tail, m_reg
      ensures mac.None? <==> size > m_blockSize
      ensures mac.None? ==> m_reg[..] == old(m_reg[..]) && m_counter == old(m_counter)
      ensures mac.Some? ==>
                && mac.value == CmacFrom(m_cipher, m_blockSize, Zeros(m_blockSize), old(Message()))[..size]
                && Valid() && Message() == []
    {
      if size > m_blockSize {
        return None;
      }
      ghost var code := CmacFrom(m_cipher, m_blockSize, Zeros(m_blockSize), Message());
      LastBlock();
      mac := Some(m_reg[..size]);
      assert m_reg[..size] == Reg()[..size];
      Clear();
    }

    /** The last block goes through the cipher with its subkey. */
    method LastBlock()
      requires Valid()
      modifies m_reg
      ensures Keyed() && Reg() == CmacFrom(m_cipher, m_blockSize, Zeros(m_blockSize), Message())
    {
      hide Chain, XorAt, Subkey1, Subkey2, XorBytes, Padded;
      var b := m_blockSize;
      ghost var c := Chain(m_cipher, b, Zeros(b), full);
      CmacAfterChain(m_cipher, b, Zeros(b), full, tail);
      ghost var before := m_reg[..];
      if m_counter < b {
        XorInto(m_reg, m_counter, [0x80]);
        XorAtFront(before, m_counter, [0x80], b);
        XorPadded(c, tail);
        assert before[2 * b..2 * b + b] == before[2 * b..];
        XorSubkey(2 * b, before);
      } else {
        XorAtWhole(c, tail);
        XorSubkey(b, before);
      }
      Halves(before, m_reg[..], b);
    }

    /** Adds a subkey to the running block and sends it through the cipher. */
    method XorSubkey(off: nat, ghost before: seq<bv8>)
      requires m_reg.Length == 3 * m_blockSize && off in {m_blockSize, 2 * m_blockSize} && OnBlocks(m_cipher)
      requires |before| == 3 * m_blockSize && before[m_blockSize..] == m_reg[m_blockSize..]
      modifies m_reg
      ensures m_reg[m_blockSize..] == before[m_blockSize..]
      ensures Reg() == m_cipher(XorBytes(old(Reg()), before[off..off + m_blockSize]))
    {
      hide OnBlocks, XorBytes, XorAt;
      ghost var was := m_reg[..];
      ghost var r := Reg();
      var k := m_reg[off..off + m_blockSize];
      XorInto(m_reg, 0, k);
      SubkeyAdded(was, k, before, off, m_blockSize);
      ProcessBlock(m_cipher, m_reg, m_blockSize, 0);
    }

    method Clear()
      requires Keyed()
      modifies this`m_counter, this`full, this`tail, m_reg
      ensures Valid() && Message() == []
    {
      hide Chain, XorAt, Subkey1, Subkey2;
      ghost var before := m_reg[..];
      m_counter := 0;
      forall i | 0 <= i < m_blockSize {
        m_reg[i] := 0;
      }
      full, tail := [], [];
      Halves(before, m_reg[..], m_blockSize);
      assert Reg() == Zeros(m_blockSize);
      XorAtWhole(Zeros(m_blockSize), []);
      ChainNothing(m_cipher, m_blockSize, Zeros(m_blockSize));
    }
  }
}
