/**
 filters.cpp: a cipher applied to a buffered stream of input, with padding of the last block, and
 how the decrypting filter takes back what the encrypting filter has done.
 */
module StreamTransformations {
  import opened Wrappers
  import opened Integers
  import opened Bytes
  import opened BufferedInput

  datatype BlockPaddingScheme = NO_PADDING | ZEROS_PADDING | PKCS_PADDING | ONE_AND_ZEROS_PADDING | DEFAULT_PADDING

  /** A mode of operation: from its state and a block it makes the next state and a block. */
  datatype Transformation<!S> = Transformation(
    mandatoryBlockSize: nat, minLastBlockSize: nat, forward: bool,
    process: (S, seq<byte>) -> (S, seq<byte>),
    processLast: (S, seq<byte>) -> (S, seq<byte>))

  ghost predicate KeepsSize<S>(c: Transformation<S>, s: S, b: seq<byte>) {
    |b| == c.mandatoryBlockSize ==> |c.process(s, b).1| == |b|
  }

  ghost predicate WellFormed<S(!new)>(c: Transformation<S>) {
    && c.mandatoryBlockSize > 0 && (c.minLastBlockSize == 0 || c.minLastBlockSize > c.mandatoryBlockSize)
    && forall s, b :: KeepsSize(c, s, b)
  }

  /** The blocks of `data`, one after the other. */
  function ProcessString<S>(c: Transformation<S>, s: S, data: seq<byte>): (S, seq<byte>)
    decreases |data|
  {
    var n := c.mandatoryBlockSize;
    if n == 0 || |data| < n then (s, [])
    else
      var (t, b) := c.process(s, data[..n]);
      var (u, rest) := ProcessString(c, t, data[n..]);
      (u, b + rest)
  }

  lemma {:induction false} ProcessLength<S(!new)>(c: Transformation<S>, s: S, data: seq<byte>)
    requires WellFormed(c) && |data| % c.mandatoryBlockSize == 0
    ensures |ProcessString(c, s, data).1| == |data|
    decreases |data|
  {
    var n := c.mandatoryBlockSize;
    if |data| >= n {
      assert KeepsSize(c, s, data[..n]);
      AddBlock(|data| - n, n);
      ProcessLength(c, c.process(s, data[..n]).0, data[n..]);
    } else {
      DivModUnique(|data|, n, 0, |data|);
    }
  }

  lemma {:induction false} ProcessConcat<S(!new)>(c: Transformation<S>, s: S, p: seq<byte>, q: seq<byte>)
    requires c.mandatoryBlockSize > 0 && |p| % c.mandatoryBlockSize == 0
    ensures var (t, a) := ProcessString(c, s, p);
            var (u, b) := ProcessString(c, t, q);
            ProcessString(c, s, p + q) == (u, a + b)
    decreases |p|
  {
    var n := c.mandatoryBlockSize;
    if |p| >= n {
      AddBlock(|p| - n, n);
      ProcessConcat(c, c.process(s, p[..n]).0, p[n..], q);
      assert (p + q)[..n] == p[..n] && (p + q)[n..] == p[n..] + q;
      var t := c.process(s, p[..n]).0;
      var a := ProcessString(c, t, p[n..]);
      var b := ProcessString(c, a.0, q);
      assert c.process(s, p[..n]).1 + (a.1 + b.1) == (c.process(s, p[..n]).1 + a.1) + b.1;
    } else {
      DivModUnique(|p|, n, 0, |p|);
      assert p == [] && p + q == q;
      assert [] + ProcessString(c, s, q).1 == ProcessString(c, s, q).1;
    }
  }

  // ---------------------------------------------------------------- padding

  /** The last block when encrypting. */
  function Pad(padding: BlockPaddingScheme, blockSize: nat, tail: seq<byte>): seq<byte>
    requires |tail| < blockSize
  {
    var n := blockSize - |tail|;
    if padding == PKCS_PADDING then tail + Repeat(n % 256, n)
    else if padding == ONE_AND_ZEROS_PADDING then tail + [0x80] + Repeat(0, n - 1)
    else tail + Repeat(0, n)
  }

  /** The length without the zeros at the end, but at least one byte. */
  function WithoutZeros(block: seq<byte>): (n: nat)
    requires |block| > 0
    ensures 1 <= n <= |block| && (forall i :: n <= i < |block| ==> block[i] == 0) && (n > 1 ==> block[n - 1] != 0)
  {
    if |block| > 1 && block[|block| - 1] == 0 then WithoutZeros(block[..|block| - 1]) else |block|
  }

  /** What is left of the last block, when decrypting, without its padding. */
  function Unpad(padding: BlockPaddingScheme, block: seq<byte>): Option<seq<byte>>
    requires |block| > 0
  {
    if padding == PKCS_PADDING then
      var pad := block[|block| - 1];
      if 1 <= pad <= |block| && (forall i :: |block| - pad <= i < |block| ==> block[i] == pad)
      then Some(block[..|block| - pad]) else None
    else
      var n := WithoutZeros(block);
      if block[n - 1] == 0x80 then Some(block[..n - 1]) else None
  }

  lemma UnpadPkcs(block: seq<byte>, tail: seq<byte>)
    requires 0 < |block| < 256
    ensures Unpad(PKCS_PADDING, block) == Some(tail) <==> |tail| < |block| && block == Pad(PKCS_PADDING, |block|, tail)
  {
    var s := |block|;
    if |tail| < s && block == Pad(PKCS_PADDING, s, tail) {
      assert block[s - 1] == s - |tail|;
      assert block[..|tail|] == tail;
    }
    if Unpad(PKCS_PADDING, block) == Some(tail) {
      assert block == tail + Repeat(s - |tail|, s - |tail|);
    }
  }

  lemma UnpadOneAndZeros(block: seq<byte>, tail: seq<byte>)
    requires 0 < |block|
    ensures Unpad(ONE_AND_ZEROS_PADDING, block) == Some(tail)
            <==> |tail| < |block| && block == Pad(ONE_AND_ZEROS_PADDING, |block|, tail)
  {
    var s, n := |block|, WithoutZeros(block);
    if |tail| < s && block == Pad(ONE_AND_ZEROS_PADDING, s, tail) {
      assert block[|tail|] == 0x80;
      assert n >= |tail| + 1;
      forall i | |tail| + 1 <= i < s
        ensures block[i] == 0
      {
        assert block[i] == Repeat(0, s - |tail| - 1)[i - |tail| - 1];
      }
      assert block[..|tail|] == tail;
    }
    if Unpad(ONE_AND_ZEROS_PADDING, block) == Some(tail) {
      assert tail == block[..n - 1];
      assert block == tail + [0x80] + Repeat(0, s - |tail| - 1);
    }
  }

  /** Exactly the padded blocks are accepted, and unpadding undoes padding. */
  lemma UnpadExactly(padding: BlockPaddingScheme, block: seq<byte>, tail: seq<byte>)
    requires 0 < |block| && padding in {PKCS_PADDING, ONE_AND_ZEROS_PADDING}
    requires (padding == PKCS_PADDING ==> |block| < 256)
    ensures Unpad(padding, block) == Some(tail) <==> |tail| < |block| && block == Pad(padding, |block|, tail)
  {
    if padding == PKCS_PADDING {
      UnpadPkcs(block, tail);
    } else {
      UnpadOneAndZeros(block, tail);
    }
  }

  // ---------------------------------------------------------------- sizes and the last block

  predicate IsBlockCipher<S>(c: Transformation<S>) {
    c.mandatoryBlockSize > 1 && c.minLastBlockSize == 0
  }

  function LastBlockSize<S>(c: Transformation<S>, padding: BlockPaddingScheme): nat {
    if c.minLastBlockSize > 0 then c.minLastBlockSize
    else if c.mandatoryBlockSize > 1 && !c.forward && padding != NO_PADDING && padding != ZEROS_PADDING
    then c.mandatoryBlockSize
    else 0
  }

  function LastBlock<S>(c: Transformation<S>, s: S, block: seq<byte>): (S, seq<byte>) {
    if c.minLastBlockSize == 0 then c.process(s, block) else c.processLast(s, block)
  }

  /**
   What becomes of the last part of a message; None where the source throws.  The last part is shorter
   than a block when there is no minimum for the last block, so that the test for zeros can compare
   with the larger of the two sizes.
   */
  function LastResult<S>(c: Transformation<S>, padding: BlockPaddingScheme, s: S, tail: seq<byte>): Option<(S,
      seq<byte>)>
    requires c.mandatoryBlockSize > 0
  {
    if padding == NO_PADDING || padding == ZEROS_PADDING then
      var blockSize := Max(c.minLastBlockSize, c.mandatoryBlockSize);
      if |tail| == 0 then Some((s, []))
      else if c.forward && padding == ZEROS_PADDING && |tail| < blockSize then
        Some(LastBlock(c, s, Pad(padding, blockSize, tail)))
      else if c.minLastBlockSize == 0 then None
      else Some(LastBlock(c, s, tail))
    else if c.forward then
      if |tail| < c.mandatoryBlockSize then Some(c.process(s, Pad(padding, c.mandatoryBlockSize, tail))) else None
    else if |tail| != c.mandatoryBlockSize then None
    else
      var (t, block) := c.process(s, tail);
      if |block| == 0 then None else
      match Unpad(padding, block)
      case None => None
      case Some(data) => Some((t, data))
  }

  /** What the filter makes of a whole message, and the state in which it leaves the cipher. */
  function Transform<S>(c: Transformation<S>, padding: BlockPaddingScheme, s: S, message: seq<byte>): Option<(S,
      seq<byte>)>
    requires c.mandatoryBlockSize > 0
  {
    var e := Emitted(|message|, c.mandatoryBlockSize, LastBlockSize(c, padding));
    var (t, a) := ProcessString(c, s, message[..e]);
    match LastResult(c, padding, t, message[e..])
    case None => None
    case Some(r) => Some((r.0, a + r.1))
  }

  // ---------------------------------------------------------------- decryption undoes encryption

  ghost predicate UndoneAt<S>(enc: Transformation<S>, dec: Transformation<S>, s: S, b: seq<byte>) {
    |b| == enc.mandatoryBlockSize ==>
      |enc.process(s, b).1| == |b| && dec.process(s, enc.process(s, b).1) == (enc.process(s, b).0, b)
  }

  /** The two directions of one mode: from the same state, they take the same path. */
  ghost predicate Undoes<S(!new)>(enc: Transformation<S>, dec: Transformation<S>) {
    && enc.mandatoryBlockSize == dec.mandatoryBlockSize > 0 && enc.forward && !dec.forward
    && enc.minLastBlockSize == 0 && dec.minLastBlockSize == 0
    && forall s, b :: UndoneAt(enc, dec, s, b)
  }

  lemma {:induction false} ProcessUndone<S(!new)>(enc: Transformation<S>, dec: Transformation<S>, s: S, data: seq<byte>)
    requires Undoes(enc, dec) && |data| % enc.mandatoryBlockSize == 0
    ensures var (t, c) := ProcessString(enc, s, data);
            |c| == |data| && ProcessString(dec, s, c) == (t, data)
    decreases |data|
  {
    var n := enc.mandatoryBlockSize;
    if |data| >= n {
      assert UndoneAt(enc, dec, s, data[..n]);
      AddBlock(|data| - n, n);
      var (t, b) := enc.process(s, data[..n]);
      ProcessUndone(enc, dec, t, data[n..]);
      var c := ProcessString(enc, t, data[n..]).1;
      assert (b + c)[..n] == b && (b + c)[n..] == c;
      assert data[..n] + data[n..] == data;
    } else {
      DivModUnique(|data|, n, 0, |data|);
    }
  }

  /** How much of a message goes through in whole blocks when nothing is held back. */
  lemma EmittedWhole(n: nat, blockSize: nat)
    requires blockSize > 0
    ensures var e := Emitted(n, blockSize, 0);
            e % blockSize == 0 && n - e < blockSize && (n % blockSize == 0 <==> e == n)
  {
    LastLength(n, blockSize, 0);
    var e := Emitted(n, blockSize, 0);
    DivModUnique(n, blockSize, e / blockSize, n - e);
  }

  lemma MultiplesApart(m: nat, n: nat, blockSize: nat)
    requires blockSize > 0 && m % blockSize == 0 && n % blockSize == 0 && n <= m < n + blockSize
    ensures m == n
  {
    DivModUnique(m, blockSize, n / blockSize, m - n);
  }

  /** The decryptor keeps back exactly one block. */
  lemma EmittedAllButOne(n: nat, blockSize: nat)
    requires blockSize > 0 && n % blockSize == 0
    ensures Emitted(n + blockSize, blockSize, blockSize) == n
  {
    var e := Emitted(n + blockSize, blockSize, blockSize);
    LastLength(n + blockSize, blockSize, blockSize);
    if n > 0 {
      AddMultiples(n, 0, blockSize);
      assert n >= blockSize by {
        if n < blockSize {
          DivModUnique(n, blockSize, 0, n);
        }
      }
      assert blockSize <= n + blockSize - e < 2 * blockSize;
      MultiplesApart(n, e, blockSize);
    }
  }

  lemma BlockUndone<S(!new)>(enc: Transformation<S>, dec: Transformation<S>, t: S, block: seq<byte>,
      padding: BlockPaddingScheme, tail: seq<byte>)
    requires Undoes(enc, dec) && |tail| < enc.mandatoryBlockSize && block == Pad(padding, enc.mandatoryBlockSize, tail)
    requires padding in {PKCS_PADDING, ONE_AND_ZEROS_PADDING}
    requires (padding == PKCS_PADDING ==> enc.mandatoryBlockSize < 256)
    ensures var (u, b) := enc.process(t, block);
            && |b| == |block| == enc.mandatoryBlockSize == dec.mandatoryBlockSize && enc.forward && !dec.forward
            && enc.minLastBlockSize == 0 && dec.minLastBlockSize == 0
            && dec.process(t, b) == (u, block) && Unpad(padding, block) == Some(tail)
  {
    assert UndoneAt(enc, dec, t, block);
    UnpadExactly(padding, block, tail);
  }

  /**
   With PKCS or one-and-zeros padding, every message comes back, whatever its length; the decryptor
   ends in the state of the encryptor.
   */
  lemma PaddedRoundTrip<S(!new)>(enc: Transformation<S>, dec: Transformation<S>, padding: BlockPaddingScheme, s: S,
      message: seq<byte>)
    requires Undoes(enc, dec) && IsBlockCipher(enc) && padding in {PKCS_PADDING, ONE_AND_ZEROS_PADDING}
    requires padding == PKCS_PADDING ==> enc.mandatoryBlockSize < 256
    ensures var r := Transform(enc, padding, s, message);
            && r.Some? && |r.value.1| % enc.mandatoryBlockSize == 0
            && |message| < |r.value.1| <= |message| + enc.mandatoryBlockSize
            && Transform(dec, padding, s, r.value.1) == Some((r.value.0, message))
  {
    hide Emitted, ProcessString, Undoes, Pad, Unpad;
    var n := enc.mandatoryBlockSize;
    var e := Emitted(|message|, n, 0);
    EmittedWhole(|message|, n);
    var (t, a) := ProcessString(enc, s, message[..e]);
    var block := Pad(padding, n, message[e..]);
    var (u, b) := enc.process(t, block);
    BlockUndone(enc, dec, t, block, padding, message[e..]);
    ProcessUndone(enc, dec, s, message[..e]);
    AddBlock(e, n);
    EmittedAllButOne(e, n);
    assert (a + b)[..e] == a && (a + b)[e..] == b;
    assert message[..e] + message[e..] == message;
  }

  /** Without padding, exactly the messages of whole blocks are accepted, and they come back. */
  lemma UnpaddedRoundTrip<S(!new)>(enc: Transformation<S>, dec: Transformation<S>, s: S, message: seq<byte>)
    requires Undoes(enc, dec)
    ensures var r := Transform(enc, NO_PADDING, s, message);
            && (r.Some? <==> |message| % enc.mandatoryBlockSize == 0)
            && (r.Some? ==>
                  && |r.value.1| == |message|
                  && Transform(dec, NO_PADDING, s, r.value.1) == Some((r.value.0, message)))
  {
    hide Emitted, ProcessString;
    var n := enc.mandatoryBlockSize;
    EmittedWhole(|message|, n);
    if |message| % n == 0 {
      ProcessUndone(enc, dec, s, message);
      assert message[..|message|] == message;
      var c := ProcessString(enc, s, message).1;
      assert c[..|c|] == c && c + [] == c && message + [] == message;
    }
  }

  lemma Sizes<S(!new)>(enc: Transformation<S>, dec: Transformation<S>)
    requires Undoes(enc, dec)
    ensures enc.mandatoryBlockSize == dec.mandatoryBlockSize > 0 && enc.forward && !dec.forward
    ensures enc.minLastBlockSize == 0 && dec.minLastBlockSize == 0
  {
  }

  lemma OneUndone<S(!new)>(enc: Transformation<S>, dec: Transformation<S>, s: S, b: seq<byte>)
    requires Undoes(enc, dec) && |b| == enc.mandatoryBlockSize
    ensures |enc.process(s, b).1| == |b| && dec.process(s, enc.process(s, b).1) == (enc.process(s, b).0, b)
  {
    assert UndoneAt(enc, dec, s, b);
  }

  lemma ProcessOne<S>(c: Transformation<S>, s: S, b: seq<byte>)
    requires |b| == c.mandatoryBlockSize > 0
    ensures ProcessString(c, s, b) == c.process(s, b)
  {
    assert b[..|b|] == b && b[|b|..] == [];
    var (t, r) := c.process(s, b);
    assert ProcessString(c, t, []) == (t, []);
    assert r + [] == r;
  }

  lemma ZerosNeeded(n: int, e: int, blockSize: nat, k: nat)
    requires blockSize > 0 && 0 <= e <= n && e % blockSize == 0 && k < blockSize && (n + k) - e in {0, blockSize}
    ensures -n % blockSize == k
  {
    if n + k == e {
      DivModUnique(-n, blockSize, -(e / blockSize), k);
    } else {
      DivModUnique(-n, blockSize, -(e / blockSize) - 1, k);
    }
  }

  /** With zeros, a message comes back with the zeros that complete its last block. */
  lemma ZerosRoundTrip<S(!new)>(enc: Transformation<S>, dec: Transformation<S>, s: S, message: seq<byte>)
    requires Undoes(enc, dec)
    ensures var r := Transform(enc, ZEROS_PADDING, s, message);
            var k := -|message| % enc.mandatoryBlockSize;
            && r.Some? && Transform(dec, ZEROS_PADDING, s, r.value.1) == Some((r.value.0, message + Repeat(0, k)))
  {
    hide Emitted, ProcessString, Undoes;
    var n := enc.mandatoryBlockSize;
    Sizes(enc, dec);
    var e := Emitted(|message|, n, 0);
    EmittedWhole(|message|, n);
    var (t, a) := ProcessString(enc, s, message[..e]);
    ProcessUndone(enc, dec, s, message[..e]);
    var tail := message[e..];
    assert message[..e] + tail == message;
    if tail == [] {
      ZerosNeeded(|message|, e, n, 0);
      EmittedWhole(e, n);
      assert a[..e] == a && a[e..] == [];
      assert a + [] == a && message + [] == message;
    } else {
      ZerosNeeded(|message|, e, n, n - |tail|);
      var block := Pad(ZEROS_PADDING, n, tail);
      var (u, b) := enc.process(t, block);
      OneUndone(enc, dec, t, block);
      AddBlock(e, n);
      EmittedWhole(e + n, n);
      ProcessOne(dec, t, b);
      ProcessConcat(dec, s, a, b);
      assert (a + b)[..e + n] == a + b && (a + b)[e + n..] == [];
      assert message[..e] + block == message + Repeat(0, n - |tail|);
      assert message[..e] + block + [] == message[..e] + block;
    }
  }

  // ---------------------------------------------------------------- the filter

  function EffectivePadding<S>(c: Transformation<S>, padding: BlockPaddingScheme): Option<BlockPaddingScheme> {
    var p := if padding != DEFAULT_PADDING then padding else if IsBlockCipher(c) then PKCS_PADDING else NO_PADDING;
    if !IsBlockCipher(c) && (p == PKCS_PADDING || p == ONE_AND_ZEROS_PADDING) then None else Some(p)
  }

  predicate PaddingFits<S>(c: Transformation<S>, padding: BlockPaddingScheme) {
    EffectivePadding(c, padding) == Some(padding)
  }

  /** The calls that the buffering makes, one after the other. */
  function Run<S>(c: Transformation<S>, padding: BlockPaddingScheme, s: S, puts: seq<Put>): Option<(S, seq<byte>)>
    requires c.mandatoryBlockSize > 0
  {
    if puts == [] then Some((s, []))
    else
      match Run(c, padding, s, puts[..|puts| - 1])
      case None => None
      case Some(r) =>
        match puts[|puts| - 1]
        case FirstPut(_) => Some(r)
        case NextPut(blocks) => var (t, out) := ProcessString(c, r.0, blocks); Some((t, r.1 + out))
        case LastPut(tail) =>
          match LastResult(c, padding, r.0, tail)
          case None => None
          case Some(q) => Some((q.0, r.1 + q.1))
  }

  lemma ProcessNothing<S>(c: Transformation<S>, s: S)
    ensures ProcessString(c, s, []) == (s, [])
  {
  }

  lemma {:induction false} RunBlocks<S(!new)>(c: Transformation<S>, padding: BlockPaddingScheme, s: S, first: Put,
      puts: seq<Put>)
    requires c.mandatoryBlockSize > 0 && first.FirstPut? && AreBlocks(puts, c.mandatoryBlockSize)
    ensures Run(c, padding, s, [first] + puts) == Some(ProcessString(c, s, Payload(puts)))
    ensures |Payload(puts)| % c.mandatoryBlockSize == 0
  {
    hide ProcessString;
    var all := [first] + puts;
    if puts == [] {
      ProcessNothing(c, s);
      assert all[..0] == [] && Run(c, padding, s, []) == Some((s, []));
      DivModUnique(0, c.mandatoryBlockSize, 0, 0);
    } else {
      var n := |puts| - 1;
      RunBlocks(c, padding, s, first, puts[..n]);
      assert all[..|all| - 1] == [first] + puts[..n] && all[|all| - 1] == puts[n];
      ProcessConcat(c, s, Payload(puts[..n]), puts[n].blocks);
      AddMultiples(|Payload(puts[..n])|, |puts[n].blocks|, c.mandatoryBlockSize);
    }
  }

  lemma RunOne<S>(c: Transformation<S>, padding: BlockPaddingScheme, s: S, puts: seq<Put>, p: Put)
    requires c.mandatoryBlockSize > 0
    ensures var r := Run(c, padding, s, puts);
            Run(c, padding, s, puts + [p]) ==
              if r.None? then None
              else if p.FirstPut? then r
              else if p.NextPut? then
                var (t, out) := ProcessString(c, r.value.0, p.blocks);
                Some((t, r.value.1 + out))
              else
                var q := LastResult(c, padding, r.value.0, p.tail);
                if q.None? then None else Some((q.value.0, r.value.1 + q.value.1))
  {
    hide ProcessString, LastResult;
    assert (puts + [p])[..|puts|] == puts;
  }

  /** For a whole message, however it came, the calls compute `Transform`. */
  lemma RunCutUp<S(!new)>(c: Transformation<S>, padding: BlockPaddingScheme, s: S, puts: seq<Put>, message: seq<byte>)
    requires c.mandatoryBlockSize > 0
    requires CutUp(BufferedInput.Sizes(0, c.mandatoryBlockSize, LastBlockSize(c, padding)), puts, message)
    ensures Run(c, padding, s, puts) == Transform(c, padding, s, message)
  {
    hide ProcessString, LastResult, Emitted, Payload, Run, LastBlockSize;
    var n := |puts| - 1;
    RunBlocks(c, padding, s, puts[0], puts[1..n]);
    assert [puts[0]] + puts[1..n] == puts[..n];
    assert puts == puts[..n] + [puts[n]];
    RunOne(c, padding, s, puts[..n], puts[n]);
  }

  /** The search for the end of the data in the last block. */
  method RemovePadding(padding: BlockPaddingScheme, space: seq<byte>) returns (data: Option<seq<byte>>)
    requires padding in {PKCS_PADDING, ONE_AND_ZEROS_PADDING} && |space| > 0
    ensures data == Unpad(padding, space)
  {
    var s := |space|;
    var length := s;
    if padding == PKCS_PADDING {
      var pad := space[s - 1];
      if pad < 1 || pad > s {
        return None;
      }
      for i := s - pad to s
        invariant forall j :: s - pad <= j < i ==> space[j] == pad
      {
        if space[i] != pad {
          return None;
        }
      }
      length := s - pad;
    } else {
      while length > 1 && space[length - 1] == 0
        invariant 1 <= length <= s && WithoutZeros(space[..length]) == WithoutZeros(space)
      {
        assert space[..length][..length - 1] == space[..length - 1];
        length := length - 1;
      }
      length := length - 1;
      if space[length] != 0x80 {
        return None;
      }
    }
    data := Some(space[..length]);
  }

  lemma RunNothing<S>(c: Transformation<S>, padding: BlockPaddingScheme, s: S, puts: seq<Put>)
    requires c.mandatoryBlockSize > 0 && puts == []
    ensures Run(c, padding, s, puts) == Some((s, []))
  {
  }

  predicate CallAllowed(z: BufferedInput.Sizes, p: Put)
    requires z.block > 0
  {
    match p
    case FirstPut(_) => true
    case NextPut(blocks) => |blocks| % z.block == 0
    case LastPut(tail) => |tail| < z.block + z.last
  }

  lemma CutUpAllowed(z: BufferedInput.Sizes, puts: seq<Put>, message: seq<byte>)
    requires z.block > 0 && z.first == 0 && CutUp(z, puts, message)
    ensures forall i :: 0 <= i < |puts| ==> CallAllowed(z, puts[i]) && (puts[i].LastPut? ==> i == |puts| - 1)
  {
    hide Payload, Emitted;
    var n := |puts| - 1;
    LastLength(|message|, z.block, z.last);
    forall i | 0 <= i < |puts|
      ensures CallAllowed(z, puts[i]) && (puts[i].LastPut? ==> i == n)
    {
      if 0 < i < n {
        assert puts[i] == puts[1..n][i - 1];
      }
    }
  }

  lemma PassedOnAllowed(z: BufferedInput.Sizes, done: bool, puts: seq<Put>, message: seq<byte>, held: seq<byte>)
    requires z.block > 0 && PassedOn(z, done, puts, message, held)
    ensures forall i :: 0 <= i < |puts| ==> CallAllowed(z, puts[i]) && !puts[i].LastPut?
  {
    hide Payload, Emitted;
    forall i | 0 <= i < |puts|
      ensures CallAllowed(z, puts[i]) && !puts[i].LastPut?
    {
      if 0 < i {
        assert puts[i] == puts[1..][i - 1];
      }
    }
  }

  class StreamTransformationFilter<S(!new, 0)> {
    const m_cipher: Transformation<S>
    const m_padding: BlockPaddingScheme
    const m_input: FilterWithBufferedInput
    var state: S
    var output: seq<byte>
    var m_done: nat               // how many of the calls have been made
    ghost var started: (S, seq<byte>)  // the state and the output when the message began

    ghost predicate Valid()
      reads this, m_input, m_input.m_queue, m_input.m_queue.m_buffer
    {
      && WellFormed(m_cipher) && m_input.Valid() && PaddingFits(m_cipher, m_padding)
      && m_input.Z() == BufferedInput.Sizes(0, m_cipher.mandatoryBlockSize, LastBlockSize(m_cipher, m_padding))
      && m_done == |m_input.puts| && AreCalls(m_input.start)
    }

    /** What has been put out since `start` is what the calls since then have made of the state at `start`. */
    ghost predicate AreCalls(start: nat)
      reads this, m_input
    {
      && m_cipher.mandatoryBlockSize > 0 && start <= m_done <= |m_input.puts|
      && var r := Run(m_cipher, m_padding, started.0, m_input.puts[start..m_done]);
      && r.Some? && state == r.value.0 && output == started.1 + r.value.1
    }

    constructor (c: Transformation<S>, padding: BlockPaddingScheme, s: S)
      requires WellFormed(c) && EffectivePadding(c, padding).Some?
      ensures Valid() && m_cipher == c && Some(m_padding) == EffectivePadding(c, padding)
      ensures state == s && output == [] && started == (s, []) && m_input.message == []
      ensures fresh(m_input) && fresh(m_input.m_queue) && fresh(m_input.m_queue.m_buffer)
    {
      m_cipher, m_padding := c, EffectivePadding(c, padding).value;
      var lastSize := LastBlockSize(c, EffectivePadding(c, padding).value);
      m_input := new FilterWithBufferedInput(0, c.mandatoryBlockSize, lastSize);
      state, output, m_done, started := s, [], 0, (s, []);
    }

    /** Whole blocks, in pieces as large as the space that happens to be there. */
    method NextPutMultiple(inString: seq<byte>)
      requires WellFormed(m_cipher) && |inString| % m_cipher.mandatoryBlockSize == 0
      modifies this`state, this`output
      ensures (state, output) == var (t, out) := ProcessString(m_cipher, old(state), inString); (t, old(output) + out)
    {
      hide ProcessString;
      var s := m_cipher.mandatoryBlockSize;
      var rest, length := inString, |inString|;
      ghost var made: seq<byte>, out := [], [];
      ProcessNothing(m_cipher, state);
      while length > 0
        invariant inString == made + rest && |rest| == length && |made| % s == 0 && length % s == 0
        invariant ProcessString(m_cipher, old(state), made) == (state, out) && output == old(output) + out
      {
        var len: nat := *;
        len := PieceSize(len, length, s);
        ProcessConcat(m_cipher, old(state), made, rest[..len]);
        var (t, piece) := ProcessString(m_cipher, state, rest[..len]);
        AddMultiples(|made|, len, s);
        made, out := made + rest[..len], out + piece;
        state, output := t, output + piece;
        rest := rest[len..];
        length := length - len;
      }
      assert made == inString;
    }

    /** A whole number of blocks that fits in the space, which has room for one block at least. */
    method PieceSize(space: nat, length: nat, s: nat) returns (len: nat)
      requires s > 0 && length > 0 && length % s == 0
      ensures 0 < len <= length && len % s == 0 && (length - len) % s == 0
    {
      len := Max(space, s);
      if len < length {
        WholeBlocks(len, s);
        len := RoundDownToMultipleOf(len, s);
      } else {
        len := length;
      }
      WholeBlocks(length - len, s);
      DivModUnique(length - len, s, length / s - len / s, 0);
    }

    lemma WholeBlocks(n: nat, s: nat)
      requires s > 0
      ensures RoundDownToMultipleOf(n, s) % s == 0 && (n >= s ==> RoundDownToMultipleOf(n, s) > 0)
    {
      DivModUnique(n - n % s, s, n / s, 0);
    }

    /** The end of a message; false where the source throws. */
    method LastPut(inString: seq<byte>) returns (ok: bool)
      requires WellFormed(m_cipher) && m_padding != DEFAULT_PADDING
      requires m_padding !in {NO_PADDING, ZEROS_PADDING} && m_cipher.forward ==>
                |inString| < m_cipher.mandatoryBlockSize
      modifies this`state, this`output
      ensures var r := LastResult(m_cipher, m_padding, old(state), inString);
              && (ok <==> r.Some?)
              && (ok ==> state == r.value.0 && output == old(output) + r.value.1)
    {
      var length, s := |inString|, m_cipher.mandatoryBlockSize;
      if m_padding == NO_PADDING || m_padding == ZEROS_PADDING {
        ok := true;
        if length > 0 {
          ok := LastPartialPut(inString);
        }
      } else if m_cipher.forward {
        var space := inString;
        if m_padding == PKCS_PADDING {
          space := space + Repeat((s - length) % 256, s - length);
        } else {
          space := space + [0x80] + Repeat(0, s - length - 1);
        }
        ok := true;
        var (t, block) := m_cipher.process(state, space);
        state, output := t, output + block;
      } else if length != s {
        ok := false;
      } else {
        ok := LastPaddedPut(inString);
      }
    }

    method LastPartialPut(inString: seq<byte>) returns (ok: bool)
      requires WellFormed(m_cipher) && m_padding in {NO_PADDING, ZEROS_PADDING} && |inString| > 0
      modifies this`state, this`output
      ensures var r := LastResult(m_cipher, m_padding, old(state), inString);
              && (ok <==> r.Some?)
              && (ok ==> state == r.value.0 && output == old(output) + r.value.1)
    {
      var length, minLastBlockSize := |inString|, m_cipher.minLastBlockSize;
      var space := inString;
      var blockSize := Max(minLastBlockSize, m_cipher.mandatoryBlockSize);
      if m_cipher.forward && m_padding == ZEROS_PADDING && length < blockSize {
        space := space + Repeat(0, blockSize - length);
      } else if minLastBlockSize == 0 {
        return false;
      }
      var (t, block) := LastBlock(m_cipher, state, space);
      state, output := t, output + block;
      ok := true;
    }

    /** Takes the padding off the last block. */
    method LastPaddedPut(inString: seq<byte>) returns (ok: bool)
      requires WellFormed(m_cipher) && m_padding in {PKCS_PADDING, ONE_AND_ZEROS_PADDING} && !m_cipher.forward
      requires |inString| == m_cipher.mandatoryBlockSize
      modifies this`state, this`output
      ensures var r := LastResult(m_cipher, m_padding, old(state), inString);
              && (ok <==> r.Some?)
              && (ok ==> state == r.value.0 && output == old(output) + r.value.1)
    {
      hide Unpad;
      assert KeepsSize(m_cipher, state, inString);
      var (t, space) := m_cipher.process(state, inString);
      var data := RemovePadding(m_padding, space);
      ok := data.Some?;
      if ok {
        state, output := t, output + data.value;
      }
    }

    /** Makes the next call; false where the source throws. */
    method Dispatch(p: Put, ghost start: nat) returns (ok: bool)
      requires WellFormed(m_cipher) && PaddingFits(m_cipher, m_padding) && AreCalls(start)
      requires m_done < |m_input.puts| && p == m_input.puts[m_done]
      requires CallAllowed(BufferedInput.Sizes(0, m_cipher.mandatoryBlockSize, LastBlockSize(m_cipher, m_padding)), p)
      modifies this`state, this`output, this`m_done
      ensures ok ==> AreCalls(start) && m_done == old(m_done) + 1
      ensures !ok ==>
                && m_done == old(m_done) && p.LastPut?
                && Run(m_cipher, m_padding, started.0, m_input.puts[start..old(m_done) + 1]) == None
    {
      hide Run, LastResult, ProcessString;
      RunOne(m_cipher, m_padding, started.0, m_input.puts[start..m_done], p);
      assert m_input.puts[start..m_done + 1] == m_input.puts[start..m_done] + [p];
      ok := true;
      match p {
        case FirstPut(_) =>
        case NextPut(blocks) => NextPutMultiple(blocks);
        case LastPut(tail) => ok := LastPut(tail);
      }
      if ok {
        m_done := m_done + 1;
      }
    }

    /**
     One call of Put.  At the end of a message what has been put out is the transformed message, or
     else the source throws; neither depends on the calls in which the message came.
     */
    method Put2(inString: seq<byte>, messageEnd: bool) returns (ok: bool)
      requires Valid()
      modifies this, m_input, m_input.m_queue, m_input.m_queue.m_buffer
      ensures m_input.m_queue.m_buffer == old(m_input.m_queue.m_buffer) || fresh(m_input.m_queue.m_buffer)
      ensures !messageEnd ==>
                ok && Valid() && m_input.message == old(m_input.message) + inString && started == old(started)
      ensures messageEnd ==>
                var r := Transform(m_cipher, m_padding, old(started.0), old(m_input.message) + inString);
                && (ok <==> r.Some?)
                && (ok ==> && Valid() && m_input.message == []
                           && state == r.value.0 && output == old(started.1) + r.value.1
                           && started == (state, output))
    {
      hide Run, LastResult, ProcessString, Transform, PassedOn, CutUp, WellFormed, LastBlockSize;
      ghost var start := m_input.start;
      m_input.PutMaybeModifiable(inString, messageEnd);
      ghost var z := m_input.Z();
      ghost var calls := m_input.puts[start..];
      if messageEnd {
        CutUpAllowed(z, calls, old(m_input.message) + inString);
        RunCutUp(m_cipher, m_padding, started.0, calls, old(m_input.message) + inString);
      } else {
        PassedOnAllowed(z, m_input.m_firstInputDone, calls, m_input.message, m_input.m_queue.Contents());
      }
      assert m_input.puts[start..m_done] == old(m_input.puts[start..m_done]);
      ok := true;
      while m_done < |m_input.puts|
        invariant AreCalls(start)
        modifies this`state, this`output, this`m_done
      {
        assert m_input.puts[m_done] == calls[m_done - start];
        ok := Dispatch(m_input.puts[m_done], start);
        if !ok {
          assert m_input.puts[start..m_done + 1] == calls;
          return;
        }
      }
      assert m_input.puts[start..m_done] == calls;
      if messageEnd {
        started := (state, output);
        RunNothing(m_cipher, m_padding, state, m_input.puts[m_input.start..m_done]);
      }
    }
  }

  /** A filter for a cipher; null where the source refuses the padding. */
  method NewStreamTransformationFilter<S(!new, 0)>(c: Transformation<S>, padding: BlockPaddingScheme, s: S)
    returns (filter: StreamTransformationFilter?<S>)
    requires WellFormed(c)
    ensures filter == null <==> !IsBlockCipher(c) && (padding == PKCS_PADDING || padding == ONE_AND_ZEROS_PADDING)
    ensures filter != null ==>
              && fresh(filter) && filter.Valid() && filter.m_cipher == c && filter.m_input.message == []
                               && filter.m_padding == (if padding != DEFAULT_PADDING then padding
                                                       else if IsBlockCipher(c) then PKCS_PADDING else NO_PADDING)
                               && filter.started == (s, []) && filter.output == []
  {
    var p := if padding != DEFAULT_PADDING then padding else if IsBlockCipher(c) then PKCS_PADDING else NO_PADDING;
    if !IsBlockCipher(c) && (p == PKCS_PADDING || p == ONE_AND_ZEROS_PADDING) {
      return null;
    }
    filter := new StreamTransformationFilter<S>(c, padding, s);
  }
}
