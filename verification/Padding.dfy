/**
 The padding schemes of filters.cpp byte by byte: what is enciphered, and what a decrypting filter
 accepts (section 6.3 of RFC 5652 for PKCS padding).
 */
module Paddings {
  import opened Wrappers
  import opened Integers
  import opened Bytes
  import opened BufferedInput
  import opened StreamTransformations

  // ---------------------------------------------------------------- encrypting

  lemma LastPartOf(message: seq<byte>, n: nat) returns (e: nat)
    requires n > 0
    ensures e == Emitted(|message|, n, 0) && e <= |message| && e % n == 0 && |message| - e == |message| % n < n
  {
    e := Emitted(|message|, n, 0);
    EmittedWhole(|message|, n);
    DivModUnique(|message|, n, e / n, |message| - e);
  }

  /** Whole blocks and one more, sent through the cipher one after the other. */
  lemma OneMoreBlock<S(!new)>(c: Transformation<S>, s: S, p: seq<byte>, block: seq<byte>)
    requires c.mandatoryBlockSize > 0 && |p| % c.mandatoryBlockSize == 0 && |block| == c.mandatoryBlockSize
    ensures var (t, a) := ProcessString(c, s, p);
            var (u, b) := c.process(t, block);
            ProcessString(c, s, p + block) == (u, a + b)
  {
    hide ProcessString;
    ProcessConcat(c, s, p, block);
    ProcessOne(c, ProcessString(c, s, p).0, block);
  }

  /** With padding, a padded block follows the whole ones. */
  lemma PaddedEnciphered<S(!new)>(c: Transformation<S>, padding: BlockPaddingScheme, s: S, message: seq<byte>,
      block: seq<byte>)
    requires IsBlockCipher(c) && c.forward && padding in {PKCS_PADDING, ONE_AND_ZEROS_PADDING}
    requires var e := |message| - |message| % c.mandatoryBlockSize;
             block == Pad(padding, c.mandatoryBlockSize, message[e..]) && |block| == c.mandatoryBlockSize
    ensures var e := |message| - |message| % c.mandatoryBlockSize;
            Transform(c, padding, s, message) == Some(ProcessString(c, s, message[..e] + block))
  {
    hide ProcessString, Emitted, Pad;
    var e := LastPartOf(message, c.mandatoryBlockSize);
    OneMoreBlock(c, s, message[..e], block);
  }

  /** The message is completed by k bytes that are each k, from 1 to a whole block of them. */
  lemma PkcsEnciphered<S(!new)>(c: Transformation<S>, s: S, message: seq<byte>)
    requires IsBlockCipher(c) && c.forward && c.mandatoryBlockSize < 256
    ensures var k := c.mandatoryBlockSize - |message| % c.mandatoryBlockSize;
            && 1 <= k <= c.mandatoryBlockSize
            && Transform(c, PKCS_PADDING, s, message) == Some(ProcessString(c, s, message + Repeat(k, k)))
  {
    hide ProcessString, Transform;
    var n := c.mandatoryBlockSize;
    var e, k := |message| - |message| % n, n - |message| % n;
    var block := message[e..] + Repeat(k, k);
    PaddedEnciphered(c, PKCS_PADDING, s, message, block);
    assert message + Repeat(k, k) == message[..e] + block;
  }

  /** The message is completed by 0x80 and zeros. */
  lemma OneAndZerosEnciphered<S(!new)>(c: Transformation<S>, s: S, message: seq<byte>)
    requires IsBlockCipher(c) && c.forward
    ensures var k := c.mandatoryBlockSize - |message| % c.mandatoryBlockSize;
            && 1 <= k <= c.mandatoryBlockSize
            && Transform(c, ONE_AND_ZEROS_PADDING, s, message)
               == Some(ProcessString(c, s, message + [0x80] + Repeat(0, k - 1)))
  {
    hide ProcessString, Transform;
    var n := c.mandatoryBlockSize;
    var e, k := |message| - |message| % n, n - |message| % n;
    var block := message[e..] + [0x80] + Repeat(0, k - 1);
    PaddedEnciphered(c, ONE_AND_ZEROS_PADDING, s, message, block);
    assert message + [0x80] + Repeat(0, k - 1) == message[..e] + block;
  }

  /** The message is completed by as many zeros as are missing, or none. */
  lemma ZerosEnciphered<S(!new)>(c: Transformation<S>, s: S, message: seq<byte>)
    requires c.mandatoryBlockSize > 0 && c.minLastBlockSize == 0 && c.forward
    ensures var r := |message| % c.mandatoryBlockSize;
            var k := if r == 0 then 0 else c.mandatoryBlockSize - r;
            Transform(c, ZEROS_PADDING, s, message) == Some(ProcessString(c, s, message + Repeat(0, k)))
  {
    hide ProcessString, Emitted;
    var n := c.mandatoryBlockSize;
    var e := LastPartOf(message, n);
    var r := |message| % n;
    if r == 0 {
      assert message[..e] == message && message + Repeat(0, 0) == message;
      var (t, a) := ProcessString(c, s, message);
      assert a + [] == a;
    } else {
      OneMoreBlock(c, s, message[..e], message[e..] + Repeat(0, n - r));
      assert message + Repeat(0, n - r) == message[..e] + (message[e..] + Repeat(0, n - r));
    }
  }

  // ---------------------------------------------------------------- decrypting

  /** With padding, only whole blocks can be decrypted, and at least one of them. */
  lemma OnlyWholeBlocks<S(!new)>(c: Transformation<S>, padding: BlockPaddingScheme, s: S, data: seq<byte>)
    requires IsBlockCipher(c) && !c.forward && padding in {PKCS_PADDING, ONE_AND_ZEROS_PADDING}
    requires data == [] || |data| % c.mandatoryBlockSize != 0
    ensures Transform(c, padding, s, data) == None
  {
    hide ProcessString, Emitted, Unpad;
    var n := c.mandatoryBlockSize;
    var e := Emitted(|data|, n, n);
    LastLength(|data|, n, n);
    if |data| - e == n {
      AddBlock(e, n);
    }
  }

  lemma WholeBlocksBefore(m: nat, n: nat) returns (e: nat)
    requires n > 0 && m > 0 && m % n == 0
    ensures e + n == m && e % n == 0
  {
    if m < n {
      DivModUnique(m, n, 0, m);
    }
    e := m - n;
    DivModUnique(e, n, m / n - 1, 0);
  }

  lemma Size<S(!new)>(c: Transformation<S>, s: S, b: seq<byte>)
    requires WellFormed(c) && |b| == c.mandatoryBlockSize
    ensures |c.process(s, b).1| == |b|
  {
    assert KeepsSize(c, s, b);
  }

  /** What a decrypting filter makes of whole blocks: the last one loses its padding or is refused. */
  lemma LastBlockOpened<S(!new)>(c: Transformation<S>, padding: BlockPaddingScheme, s: S, data: seq<byte>)
    requires IsBlockCipher(c) && !c.forward && WellFormed(c) && padding in {PKCS_PADDING, ONE_AND_ZEROS_PADDING}
    requires data != [] && |data| % c.mandatoryBlockSize == 0
    ensures var (t, plain) := ProcessString(c, s, data);
            var n := c.mandatoryBlockSize;
            && |plain| == |data| >= n
            && var r := Unpad(padding, plain[|plain| - n..]);
               Transform(c, padding, s, data) == if r.None? then None else Some((t, plain[..|plain| - n] + r.value))
  {
    hide ProcessString, Emitted, Unpad, WellFormed;
    var n := c.mandatoryBlockSize;
    ProcessLength(c, s, data);
    var e := WholeBlocksBefore(|data|, n);
    EmittedAllButOne(e, n);
    OneMoreBlock(c, s, data[..e], data[e..]);
    assert data[..e] + data[e..] == data;
    var (t, a) := ProcessString(c, s, data[..e]);
    ProcessLength(c, s, data[..e]);
    var (u, b) := c.process(t, data[e..]);
    Size(c, t, data[e..]);
    assert (a + b)[e..] == b && (a + b)[..e] == a;
  }

  /** The last block as the end of everything. */
  lemma PkcsAtEnd(front: seq<byte>, block: seq<byte>)
    requires |block| > 0
    ensures var plain, k := front + block, block[|block| - 1];
            var r := Unpad(PKCS_PADDING, block);
            if 1 <= k <= |block| && plain[|plain| - k..] == Repeat(k, k)
            then r.Some? && front + r.value == plain[..|plain| - k] else r.None?
  {
    var plain, n, k := front + block, |block|, block[|block| - 1];
    if 1 <= k <= n {
      assert plain[|plain| - k..] == block[n - k..];
      assert front + block[..n - k] == plain[..|plain| - k];
      if block[n - k..] == Repeat(k, k) {
        forall i | n - k <= i < n
          ensures block[i] == k
        {
          assert block[i] == block[n - k..][i - (n - k)];
        }
      }
    }
  }

  /** Accepted if and only if the last byte is some k, from 1 to the block size, and so are the k last bytes. */
  lemma PkcsAccepted<S(!new)>(c: Transformation<S>, s: S, data: seq<byte>)
    requires IsBlockCipher(c) && !c.forward && WellFormed(c)
    requires data != [] && |data| % c.mandatoryBlockSize == 0
    ensures var (t, plain) := ProcessString(c, s, data);
            && |plain| == |data|
            && var k := plain[|plain| - 1];
               Transform(c, PKCS_PADDING, s, data)
               == if 1 <= k <= c.mandatoryBlockSize && k <= |plain| && plain[|plain| - k..] == Repeat(k, k)
                  then Some((t, plain[..|plain| - k])) else None
  {
    hide ProcessString, Transform, WellFormed, Unpad, Repeat;
    LastBlockOpened(c, PKCS_PADDING, s, data);
    var n, plain := c.mandatoryBlockSize, ProcessString(c, s, data).1;
    var front, block := plain[..|plain| - n], plain[|plain| - n..];
    assert front + block == plain && block[n - 1] == plain[|plain| - 1];
    PkcsAtEnd(front, block);
  }

  /** Accepted if and only if the last block ends with 0x80 and zeros. */
  lemma OneAndZerosAccepted<S(!new)>(c: Transformation<S>, s: S, data: seq<byte>, result: seq<byte>)
    requires IsBlockCipher(c) && !c.forward && WellFormed(c)
    requires data != [] && |data| % c.mandatoryBlockSize == 0
    ensures var (t, plain) := ProcessString(c, s, data);
            Transform(c, ONE_AND_ZEROS_PADDING, s, data) == Some((t, result))
            <==> |plain| - c.mandatoryBlockSize <= |result| < |plain|
                 && plain == result + [0x80] + Repeat(0, |plain| - |result| - 1)
  {
    hide ProcessString, Transform, WellFormed, Unpad;
    LastBlockOpened(c, ONE_AND_ZEROS_PADDING, s, data);
    var n, plain := c.mandatoryBlockSize, ProcessString(c, s, data).1;
    var e := |plain| - n;
    var front, block := plain[..e], plain[e..];
    assert plain == front + block;
    var r := Unpad(ONE_AND_ZEROS_PADDING, block);
    if r.Some? {
      UnpadOneAndZeros(block, r.value);
      assert plain == (front + r.value) + [0x80] + Repeat(0, n - |r.value| - 1);
    }
    if e <= |result| < |plain| && plain == result + [0x80] + Repeat(0, |plain| - |result| - 1) {
      var tail := result[e..];
      assert result == front + tail by {
        assert result == plain[..|result|];
      }
      assert block == tail + [0x80] + Repeat(0, n - |tail| - 1);
      UnpadOneAndZeros(block, tail);
    }
  }

  /** A message with k bytes k behind it, that make whole blocks of it, is what its encipherment decrypts to. */
  lemma PkcsTakenOff<S(!new)>(enc: Transformation<S>, dec: Transformation<S>, s: S, message: seq<byte>, k: byte)
    requires Undoes(enc, dec) && WellFormed(dec) && IsBlockCipher(dec)
    requires 1 <= k <= enc.mandatoryBlockSize && (|message| + k) % enc.mandatoryBlockSize == 0
    ensures var (t, data) := ProcessString(enc, s, message + Repeat(k, k));
            Transform(dec, PKCS_PADDING, s, data) == Some((t, message))
  {
    hide ProcessString, Transform, WellFormed;
    var plain := message + Repeat(k, k);
    ProcessUndone(enc, dec, s, plain);
    PkcsAccepted(dec, s, ProcessString(enc, s, plain).1);
    assert plain[|message|..] == Repeat(k, k) && plain[..|message|] == message;
  }

  lemma OneAndZerosTakenOff<S(!new)>(enc: Transformation<S>, dec: Transformation<S>, s: S, message: seq<byte>, k: nat)
    requires Undoes(enc, dec) && WellFormed(dec) && IsBlockCipher(dec)
    requires 1 <= k <= enc.mandatoryBlockSize && (|message| + k) % enc.mandatoryBlockSize == 0
    ensures var (t, data) := ProcessString(enc, s, message + [0x80] + Repeat(0, k - 1));
            Transform(dec, ONE_AND_ZEROS_PADDING, s, data) == Some((t, message))
  {
    hide ProcessString, Transform, WellFormed;
    var plain := message + [0x80] + Repeat(0, k - 1);
    ProcessUndone(enc, dec, s, plain);
    OneAndZerosAccepted(dec, s, ProcessString(enc, s, plain).1, message);
  }

  // ---------------------------------------------------------------- no padding, and special last blocks

  /** Without padding, and when decrypting with zeros, whole blocks go through and anything else is refused. */
  lemma UnpaddedIs<S(!new)>(c: Transformation<S>, padding: BlockPaddingScheme, s: S, message: seq<byte>)
    requires c.mandatoryBlockSize > 0 && c.minLastBlockSize == 0
    requires padding == NO_PADDING || (padding == ZEROS_PADDING && !c.forward)
    ensures Transform(c, padding, s, message)
            == if |message| % c.mandatoryBlockSize == 0 then Some(ProcessString(c, s, message)) else None
  {
    hide ProcessString, Emitted;
    var e := LastPartOf(message, c.mandatoryBlockSize);
    if e == |message| {
      assert message[..e] == message;
      var (t, a) := ProcessString(c, s, message);
      assert a + [] == a;
    }
  }

  /** A mode with a special last block gets at least the least size that it asks for, and less than a block more. */
  lemma SpecialLastBlock<S(!new)>(c: Transformation<S>, padding: BlockPaddingScheme, s: S, message: seq<byte>)
    returns (e: nat)
    requires WellFormed(c) && |message| >= c.minLastBlockSize > 0 && padding in {NO_PADDING, ZEROS_PADDING}
    ensures e <= |message| && e % c.mandatoryBlockSize == 0
    ensures c.minLastBlockSize <= |message| - e < c.minLastBlockSize + c.mandatoryBlockSize
    ensures var (t, a) := ProcessString(c, s, message[..e]);
            var (u, b) := c.processLast(t, message[e..]);
            Transform(c, padding, s, message) == Some((u, a + b))
  {
    hide ProcessString, Emitted;
    e := Emitted(|message|, c.mandatoryBlockSize, c.minLastBlockSize);
    LastLength(|message|, c.mandatoryBlockSize, c.minLastBlockSize);
  }

  /** A shorter message is completed with zeros if there are to be zeros, and nothing stays nothing. */
  lemma SpecialShortMessage<S(!new)>(c: Transformation<S>, padding: BlockPaddingScheme, s: S, message: seq<byte>)
    requires WellFormed(c) && |message| < c.minLastBlockSize && padding in {NO_PADDING, ZEROS_PADDING}
    ensures Transform(c, padding, s, message)
            == if message == [] then Some((s, []))
               else if padding == ZEROS_PADDING && c.forward
               then Some(c.processLast(s, message + Repeat(0, c.minLastBlockSize - |message|)))
               else Some(c.processLast(s, message))
  {
    hide ProcessString, Emitted;
    LastLength(|message|, c.mandatoryBlockSize, c.minLastBlockSize);
    ProcessNothing(c, s);
    assert message[..0] == [] && message[0..] == message;
    var (t, a) := LastResult(c, padding, s, message).value;
    assert [] + a == a;
  }
}
