/** misc.h: bytes, as numbers and as eight bits, and the exclusive or of buffers. */
module Bytes {
  import opened Integers

  type byte = b: int | 0 <= b < 256

  /** How many values a 64-bit word has. */
  const LWORD: nat := 0x1_0000_0000_0000_0000

  function Repeat(b: byte, n: nat): (s: seq<byte>)
    ensures |s| == n && forall i :: 0 <= i < n ==> s[i] == b
  {
    seq(n, _ => b)
  }

  /** The number that bytes stand for, the highest first. */
  function NumberOf(s: seq<bv8>): nat {
    Number(seq(|s|, i requires 0 <= i < |s| => s[i] as int))
  }

  lemma NumberOfNothing()
    ensures NumberOf([]) == 0
  {
  }

  lemma NumberOfAppend(s: seq<bv8>, b: bv8)
    ensures NumberOf(s + [b]) == 256 * NumberOf(s) + (b as int)
  {
    var t := seq(|s| + 1, i requires 0 <= i < |s| + 1 => (s + [b])[i] as int);
    assert t[..|s|] == seq(|s|, i requires 0 <= i < |s| => s[i] as int);
  }

  function XorByte(a: bv8, b: bv8): bv8 {
    a ^ b
  }

  lemma XorByteLaws(a: bv8, b: bv8, c: bv8)
    ensures XorByte(a, b) == XorByte(b, a) && XorByte(XorByte(a, b), c) == XorByte(a, XorByte(b, c))
    ensures XorByte(a, 0) == a && XorByte(0, a) == a && XorByte(a, a) == 0
  {
  }

  lemma XorByteTwice(a: bv8, b: bv8)
    ensures XorByte(a, XorByte(a, b)) == b
  {
  }

  predicate Bit(b: bv8, m: bv8) {
    b & m != 0
  }

  function PowerOfTwo(k: nat): (j: nat)
    requires k < 8
    ensures 0 < j < 256
  {
    if k == 0 then 1 else if k == 1 then 2 else if k == 2 then 4 else if k == 3 then 8
    else if k == 4 then 16 else if k == 5 then 32 else if k == 6 then 64 else 128
  }

  /** The same power of two as a byte. */
  function PowerByte(k: nat): (b: bv8)
    requires k < 8
    ensures b as int == PowerOfTwo(k)
  {
    if k == 0 then 1 else if k == 1 then 2 else if k == 2 then 4 else if k == 3 then 8
    else if k == 4 then 16 else if k == 5 then 32 else if k == 6 then 64 else 128
  }

  lemma BitOfXor(a: bv8, b: bv8, e: nat)
    requires e < 8
    ensures Bit(XorByte(a, b), PowerByte(e)) <==> (Bit(a, PowerByte(e)) != Bit(b, PowerByte(e)))
  {
  }

  function XorBytes(s: seq<bv8>, t: seq<bv8>): (r: seq<bv8>)
    requires |s| == |t|
    ensures |r| == |s|
  {
    seq(|s|, k requires 0 <= k < |s| => XorByte(s[k], t[k]))
  }

  lemma XorTwice(s: seq<bv8>, t: seq<bv8>)
    requires |s| == |t|
    ensures XorBytes(XorBytes(s, t), t) == s
  {
    forall k | 0 <= k < |s|
      ensures XorBytes(XorBytes(s, t), t)[k] == s[k]
    {
      XorByteLaws(s[k], t[k], t[k]);
      XorByteLaws(s[k], 0, 0);
      XorByteLaws(t[k], 0, 0);
    }
  }
}
