/**
 authenc.cpp and ccm.cpp: the states of authenticated encryption, the buffer for incomplete blocks,
 and CCM (RFC 3610).  Counter mode is a stream of key bytes for each initial counter block.
 */
module Ccm {
  import opened Wrappers
  import opened Integers
  import opened Bytes
  import opened BlockTransformations
  import opened CcmFormat

  datatype State =
    | State_Start | State_KeySet | State_IVSet
    | State_AuthUntransformed | State_AuthTransformed | State_AuthFooter

  /** How a call ends: the other two are exceptions. */
  datatype Status = Done | BadState | InvalidArgument

  /** Whether the lengths have been given: after the nonce and before any input, as they should, or not. */
  datatype Lengths = Awaited | Given | Muddled

  type Stream = (seq<bv8>, nat) -> bv8

  function CounterBlock(nonce: seq<bv8>): seq<bv8>
    requires IsNonce(nonce)
  {
    [ByteOf(14 - |nonce|)] + nonce + Zeros(15 - |nonce|)
  }

  /** The key bytes for places `from` to from + n - 1. */
  function KeyBytes(S: Stream, iv: seq<bv8>, from: nat, n: nat): (s: seq<bv8>)
    ensures |s| == n
  {
    seq(n, i requires 0 <= i < n => S(iv, from + i))
  }

  // ---------------------------------------------------------------- the result by definition

  function Encrypted(S: Stream, nonce: seq<bv8>, text: seq<bv8>): (s: seq<bv8>)
    requires IsNonce(nonce)
    ensures |s| == |text|
  {
    XorBytes(text, KeyBytes(S, CounterBlock(nonce), 16, |text|))
  }

  function Tag(E: Cipher, S: Stream, t: nat, nonce: seq<bv8>, header: seq<bv8>, message: seq<bv8>): (s: seq<bv8>)
    requires OnBlocks(E) && IsNonce(nonce) && t >= 2
    ensures |s| == 16
  {
    XorBytes(Chain(E, 16, Zeros(16), Format(t, nonce, header, message)), KeyBytes(S, CounterBlock(nonce), 0, 16))
  }

  lemma {:induction false} NumberOfZeros(n: nat)
    ensures NumberOf(Zeros(n)) == 0
  {
    if n == 0 {
      NumberOfNothing();
    } else {
      NumberOfZeros(n - 1);
      NumberOfAppend(Zeros(n - 1), 0);
      assert Zeros(n) == Zeros(n - 1) + [0];
    }
  }

  /** The initial counter block, read by its fields; counter 0 is for the tag, and the others for the text. */
  lemma CounterBlockFields(nonce: seq<bv8>)
    requires IsNonce(nonce)
    ensures var c, L := CounterBlock(nonce), 15 - |nonce|;
            |c| == 16 && c[0] as int == L - 1 && c[1..16 - L] == nonce && NumberOf(c[16 - L..]) == 0
  {
    var c, L := CounterBlock(nonce), 15 - |nonce|;
    ByteValue(L - 1);
    assert c[16 - L..] == Zeros(L);
    NumberOfZeros(L);
  }

  /** The tag meets the first block of the key stream, and the text what comes after it. */
  lemma KeyStreamPlaces(E: Cipher, S: Stream, t: nat, nonce: seq<bv8>, header: seq<bv8>, message: seq<bv8>, i: nat)
    requires OnBlocks(E) && IsNonce(nonce) && t >= 2
    ensures i < |message| ==> Encrypted(S, nonce, message)[i] == message[i] ^ S(CounterBlock(nonce), 16 + i)
    ensures i < 16 ==>
              Tag(E, S, t, nonce, header, message)[i]
              == Chain(E, 16, Zeros(16), Format(t, nonce, header, message))[i] ^ S(CounterBlock(nonce), i)
  {
    hide Chain, Format, CounterBlock;
  }

  /** Decrypting gives the message back, and so the same tag. */
  lemma DecryptUndoesEncrypt(E: Cipher, S: Stream, t: nat, nonce: seq<bv8>, header: seq<bv8>, message: seq<bv8>)
    requires OnBlocks(E) && IsNonce(nonce) && t >= 2
    ensures var text := Encrypted(S, nonce, Encrypted(S, nonce, message));
            text == message && Tag(E, S, t, nonce, header, text) == Tag(E, S, t, nonce, header, message)
  {
    XorTwice(message, KeyBytes(S, CounterBlock(nonce), 16, |message|));
  }

  // ---------------------------------------------------------------- parts of the definition

  function Beginning(t: nat, nonce: seq<bv8>, headerLength: nat, messageLength: nat): seq<bv8>
    requires IsNonce(nonce) && t >= 2
  {
    FirstBlock(t, nonce, headerLength > 0, messageLength)
    + (if headerLength > 0 then EncodedLength(headerLength) else [])
  }

  lemma PadLengthNone()
    ensures PadLength(0) == 0
  {
  }

  lemma PadLengthOf(m: nat, n: nat)
    requires m % 16 == 0
    ensures PadLength(m + n) == PadLength(n)
  {
  }

  lemma HeaderPadded(t: nat, nonce: seq<bv8>, header: seq<bv8>, messageLength: nat)
    requires IsNonce(nonce) && t >= 2
    ensures var s := Beginning(t, nonce, |header|, messageLength) + header;
            s + Zeros(PadLength(|s|)) == FirstBlock(t, nonce, header != [], messageLength) + HeaderBlocks(header)
  {
    hide FirstBlock, EncodedLength, PadLength;
    var f := FirstBlock(t, nonce, header != [], messageLength);
    PadLengthOf(16, 0);
    PadLengthNone();
    if header == [] {
      assert f + [] == f && f + [] + header == f && f + Zeros(0) == f;
    } else {
      var l := EncodedLength(|header|);
      assert f + l + header == f + (l + header);
      PadLengthOf(16, |l + header|);
      Grouped(f, l + header, Zeros(PadLength(|l + header|)));
    }
  }

  lemma WholeBlocks(t: nat, nonce: seq<bv8>, header: seq<bv8>, messageLength: nat)
    requires IsNonce(nonce) && t >= 2
    ensures |FirstBlock(t, nonce, header != [], messageLength) + HeaderBlocks(header)| % 16 == 0
  {
    hide FirstBlock, EncodedLength, PadLength;
    var padded := EncodedLength(|header|) + header;
    assert |PadZeros(padded)| == |padded| + PadLength(|padded|);
  }

  lemma MessagePadded(t: nat, nonce: seq<bv8>, header: seq<bv8>, message: seq<bv8>)
    requires IsNonce(nonce) && t >= 2
    ensures var s := FirstBlock(t, nonce, header != [], |message|) + HeaderBlocks(header) + message;
            s + Zeros(PadLength(|s|)) == Format(t, nonce, header, message)
  {
    hide FirstBlock, HeaderBlocks, PadLength;
    var f := FirstBlock(t, nonce, header != [], |message|) + HeaderBlocks(header);
    WholeBlocks(t, nonce, header, |message|);
    PadLengthOf(|f|, |message|);
    Grouped(f, message, Zeros(PadLength(|message|)));
  }

  lemma PadLengthSmall(n: nat)
    requires n < 16
    ensures PadLength(n) == if n == 0 then 0 else 16 - n
  {
  }

  lemma {:induction false} LowBytes(n: nat, k: nat, j: nat)
    requires j <= k
    ensures BigEndian(n, k)[k - j..] == BigEndian(n, j)
  {
    hide ByteOf;
    if j > 0 {
      LowBytes(n / 256, k - 1, j - 1);
      var a := BigEndian(n / 256, k - 1);
      assert BigEndian(n, k)[k - j..] == a[k - j..] + [ByteOf(n)];
    }
  }

  /** The block that the source writes the message length into as 8 bytes, and then the nonce over that. */
  lemma NonceOverLength(messageLength: nat, L: nat)
    requires L <= 8
    ensures BigEndian(messageLength, 8)[8 - L..] == BigEndian(messageLength, L)
  {
    LowBytes(messageLength, 8, L);
  }

  lemma KeyBytesConcat(S: Stream, iv: seq<bv8>, from: nat, m: nat, n: nat)
    ensures KeyBytes(S, iv, from, m) + KeyBytes(S, iv, from + m, n) == KeyBytes(S, iv, from, m + n)
  {
  }

  lemma XorConcat(s: seq<bv8>, s': seq<bv8>, t: seq<bv8>, t': seq<bv8>)
    requires |s| == |t| && |s'| == |t'|
    ensures XorBytes(s, t) + XorBytes(s', t') == XorBytes(s + s', t + t')
  {
    hide XorByte;
  }

  /** Copies `s` into `a`, from `off` on. */
  method CopyInto(a: array<bv8>, off: nat, s: seq<bv8>)
    requires off + |s| <= a.Length
    modifies a
    ensures a[..] == old(a[..])[..off] + s + old(a[..])[off + |s|..]
  {
    forall i | 0 <= i < |s| {
      a[off + i] := s[i];
    }
  }

  lemma EncryptedConcat(S: Stream, nonce: seq<bv8>, s: seq<bv8>, t: seq<bv8>)
    requires IsNonce(nonce)
    ensures Encrypted(S, nonce, s) + XorBytes(t, KeyBytes(S, CounterBlock(nonce), 16 + |s|, |t|))
         == Encrypted(S, nonce, s + t)
  {
    hide CounterBlock, KeyBytes, XorBytes;
    KeyBytesConcat(S, CounterBlock(nonce), 16, |s|, |t|);
    XorConcat(s, t, KeyBytes(S, CounterBlock(nonce), 16, |s|), KeyBytes(S, CounterBlock(nonce), 16 + |s|, |t|));
  }

  lemma XorPrefix(s: seq<bv8>, t: seq<bv8>, n: nat)
    requires |s| == |t| && n <= |s|
    ensures XorBytes(s, t)[..n] == XorBytes(s[..n], t[..n])
  {
  }

  lemma XorZeros(c: seq<bv8>, s: seq<bv8>)
    requires |c| == 16 && |s| <= 16
    ensures XorAt(c, 0, s) == XorBytes(c, s + Zeros(16 - |s|))
  {
    hide XorAt, XorByte;
    var block := s + Zeros(16 - |s|);
    forall i | 0 <= i < 16
      ensures XorAt(c, 0, s)[i] == XorBytes(c, block)[i]
    {
      XorAtAt(c, 0, s, i);
      XorByteLaws(c[i], 0, 0);
    }
  }

  lemma NothingAfter(s: seq<bv8>)
    ensures s + [] == s
  {
  }

  lemma NonceOf(block: seq<bv8>, nonce: seq<bv8>)
    requires IsNonce(nonce) && block == CounterBlock(nonce)
    ensures |block| == 16 && block[1..1 + |nonce|] == nonce
  {
  }

  lemma Whole(a: array<bv8>)
    requires a.Length == 16
    ensures a[..16] == a[..]
  {
  }

  lemma ZerosBefore(block: seq<bv8>)
    requires |block| == 16
    ensures XorBytes(Zeros(16), block) == block
  {
    hide XorByte;
    forall i | 0 <= i < 16
      ensures XorBytes(Zeros(16), block)[i] == block[i]
    {
      XorByteLaws(block[i], 0, 0);
    }
  }

  method WriteCounterBlock(a: array<bv8>, iv: seq<bv8>)
    requires a.Length == 16 && IsNonce(iv)
    modifies a
    ensures a[..] == CounterBlock(iv)
  {
    hide ByteOf;
    a[0] := ByteOf(15 - |iv| - 1);
    CopyInto(a, 1, iv);
    CopyInto(a, 1 + |iv|, Zeros(15 - |iv|));
  }

  class CCM_Base {
    const m_cipher: Cipher
    const m_stream: Stream
    const m_forward: bool
    const m_buffer: array<bv8>      // the first half of the source's buffer: an incomplete block
    const cbcBuffer: array<bv8>     // the second half: the chaining value
    var m_state: State
    var m_digestSize: nat
    var m_L: nat
    var m_bufferedDataLength: nat
    var m_aadLength: nat
    var m_messageLength: nat
    var m_totalHeaderLength: nat
    var m_totalMessageLength: nat
    var m_totalFooterLength: nat
    var ctrIV: seq<bv8>             // the counter mode object
    var ctrPosition: nat
    ghost var lengths: Lengths
    ghost var nonce: seq<bv8>
    ghost var header: seq<bv8>      // what has been given so far
    ghost var input: seq<bv8>
    ghost var output: seq<bv8>
    ghost var start: seq<bv8>       // where the chain started
    ghost var full: seq<bv8>        // the blocks that have gone into it
    ghost var fed: seq<bv8>         // all that has been authenticated since then

    ghost predicate Shape()
      reads this`m_bufferedDataLength, this`m_state, this`m_digestSize
    {
      && OnBlocks(m_cipher) && m_buffer.Length == 16 && cbcBuffer.Length == 16 && m_buffer != cbcBuffer
      && m_bufferedDataLength < 16 && (m_state != State_Start ==> IsTagSize(m_digestSize))
    }

    /** The chain has taken in `fed`, but for an incomplete block that waits in the buffer. */
    ghost predicate Fed()
      reads this`m_bufferedDataLength, this`m_state, this`m_digestSize, this`start, this`full, this`fed
      reads m_buffer, cbcBuffer
    {
      Shape() && Chained() && fed == full + m_buffer[..m_bufferedDataLength]
    }

    ghost predicate Chained()
      reads this`start, this`full, cbcBuffer
    {
      && OnBlocks(m_cipher) && cbcBuffer.Length == 16 && |start| == 16 && |full| % 16 == 0
      && cbcBuffer[..] == Chain(m_cipher, 16, start, full)
    }

    /** What is authenticated: the text that is not encrypted, whichever side it is on. */
    ghost function Text(): seq<bv8>
      reads this
    {
      if m_forward then input else output
    }

    ghost predicate IVSet()
      reads this
    {
      && m_digestSize >= 2 && IsNonce(nonce) && m_L == 15 - |nonce| && ctrIV == CounterBlock(nonce)
      && m_totalHeaderLength == |header| && m_totalMessageLength == |input| && m_totalFooterLength == 0
    }

    ghost predicate Valid()
      reads this, m_buffer, cbcBuffer
    {
      && Shape()
      && match m_state
         case State_IVSet => BeforeMessage()
         case State_AuthUntransformed => m_forward && InMessage()
         case State_AuthTransformed => !m_forward && InMessage()
         case State_AuthFooter => m_totalFooterLength > 0 && Fed()
         case _ => true
    }

    ghost predicate BeforeMessage()
      reads this, m_buffer, cbcBuffer
    {
      && IVSet() && input == [] && output == [] && ctrPosition == 16 && Fed()
      && match lengths
         case Awaited =>
           && header == [] && m_aadLength == 0 && m_messageLength == 0
           && m_buffer[..] == CounterBlock(nonce) && m_bufferedDataLength == 0
         case Given =>
           start == Zeros(16) && fed == Beginning(m_digestSize, nonce, m_aadLength, m_messageLength) + header
         case Muddled => true
    }

    ghost predicate InMessage()
      reads this, m_buffer, cbcBuffer
    {
      && IVSet() && |header| == m_aadLength
      && |output| == |input| && output == Encrypted(m_stream, nonce, input) && ctrPosition == 16 + |input|
      && Fed() && (lengths == Given ==> start == Zeros(16) && fed == Prefix() + Text())
    }

    /** The blocks before those of the text. */
    ghost function Prefix(): seq<bv8>
      reads this`m_digestSize, this`nonce, this`header, this`m_messageLength
      requires IsNonce(nonce) && m_digestSize >= 2
    {
      FirstBlock(m_digestSize, nonce, header != [], m_messageLength) + HeaderBlocks(header)
    }

    constructor (E: Cipher, S: Stream, forward: bool)
      requires OnBlocks(E)
      ensures m_cipher == E && m_stream == S && m_forward == forward
      ensures Valid() && m_state == State_Start && fresh(m_buffer) && fresh(cbcBuffer)
    {
      m_cipher, m_stream, m_forward := E, S, forward;
      m_buffer := new bv8[16](_ => 0);
      cbcBuffer := new bv8[16](_ => 0);
      m_state := State_Start;
      m_digestSize, m_L, m_bufferedDataLength := 0, 0, 0;
    }

    /** The cipher is fixed in the model; of its key only the block size and the size of the tag are looked at. */
    method SetKey(blockSize: nat, digestSize: nat) returns (r: Status)
      requires Shape()
      modifies this
      ensures Valid() && r == (if blockSize == 16 && IsTagSize(digestSize) then Done else InvalidArgument)
      ensures m_state == (if r == Done then State_KeySet else State_Start)
      ensures r == Done ==> m_digestSize == digestSize
    {
      m_bufferedDataLength := 0;
      m_state := State_Start;
      if blockSize != 16 {
        return InvalidArgument;
      }
      m_digestSize := digestSize;
      if m_digestSize % 2 > 0 || m_digestSize < 4 || m_digestSize > 16 {
        return InvalidArgument;
      }
      m_L := 8;
      m_state := State_KeySet;
      return Done;
    }

    /** A negative length stands for the default of 8 bytes. */
    static function IVLength(length: int): nat {
      if length < 0 then 8 else length
    }

    method Resynchronize(iv: seq<bv8>, length: int) returns (r: Status)
      requires Shape() && IVLength(length) <= |iv|
      modifies this, m_buffer
      ensures Valid() && m_digestSize == old(m_digestSize)
      ensures r == if old(m_state) == State_Start then BadState
                   else if !(7 <= IVLength(length) <= 13) then InvalidArgument else Done
      ensures r == Done ==> && m_state == State_IVSet && lengths == Awaited
                            && nonce == iv[..IVLength(length)] && m_L == 15 - IVLength(length)
                            && header == [] && input == [] && output == []
      ensures r != Done ==> m_state == if old(m_state) == State_Start then State_Start else State_KeySet
    {
      hide CounterBlock, Fed, InMessage, OnBlocks;
      if m_state == State_Start {
        return BadState;
      }
      m_bufferedDataLength := 0;
      m_totalHeaderLength, m_totalMessageLength, m_totalFooterLength := 0, 0, 0;
      m_state := State_KeySet;
      var len := IVLength(length);
      if len < 7 || len > 13 {
        return InvalidArgument;
      }
      SetIV(iv[..len]);
      return Done;
    }

    method SetIV(iv: seq<bv8>)
      requires Shape() && m_state == State_KeySet && IsNonce(iv) && m_bufferedDataLength == 0
      requires m_totalHeaderLength == 0 && m_totalMessageLength == 0 && m_totalFooterLength == 0
      modifies this, m_buffer
      ensures Valid() && m_state == State_IVSet && lengths == Awaited && nonce == iv && m_L == 15 - |iv|
      ensures header == [] && input == [] && output == [] && m_digestSize == old(m_digestSize)
    {
      hide CounterBlock, InMessage, OnBlocks, Fed;
      Resync(iv);
      m_state := State_IVSet;
      lengths, nonce, header, input, output := Awaited, iv, [], [], [];
      StartChain([], cbcBuffer[..]);
    }

    /** From here on the chain is looked at as started from `c`, with `block` behind it. */
    ghost method StartChain(block: seq<bv8>, c: seq<bv8>)
      requires Shape() && m_bufferedDataLength == 0 && |c| == 16 && |block| in {0, 16}
      requires cbcBuffer[..] == if block == [] then c else m_cipher(XorBytes(c, block))
      modifies this`start, this`full, this`fed
      ensures Shape() && Fed() && start == c && fed == full == block
    {
      hide Chain;
      start, full, fed := c, block, block;
      if block == [] {
        ChainNothing(m_cipher, 16, c);
      } else {
        ChainOne(m_cipher, 16, c, block);
      }
      assert full + m_buffer[..0] == full;
    }

    method Resync(iv: seq<bv8>)
      requires IsNonce(iv) && m_buffer.Length == 16
      modifies this`m_L, this`ctrIV, this`ctrPosition, this`m_aadLength, this`m_messageLength, m_buffer
      ensures m_L == 15 - |iv| && m_buffer[..] == CounterBlock(iv) && ctrIV == CounterBlock(iv) && ctrPosition == 16
      ensures m_aadLength == 0 && m_messageLength == 0
    {
      m_L := Min(15 - |iv|, 8);
      WriteCounterBlock(m_buffer, iv);
      ctrIV := m_buffer[..];
      ctrPosition := 16;
      m_aadLength, m_messageLength := 0, 0;
    }

    method SpecifyDataLengths(headerLength: nat, messageLength: nat, footerLength: nat) returns (r: Status)
      requires Valid()
      modifies this, m_buffer, cbcBuffer
      ensures Valid() && m_state == old(m_state) && m_digestSize == old(m_digestSize) && nonce == old(nonce)
      ensures m_L == old(m_L)
      ensures m_state == State_IVSet ==>
                r == if headerLength >= LWORD || messageLength > MaxMessageLength(15 - |nonce|) || footerLength > 0
                     then InvalidArgument else Done
      ensures m_state != State_IVSet ==> r != Done
      ensures r == Done ==> && m_aadLength == headerLength && m_messageLength == messageLength
                            && header == old(header) && input == [] && output == []
      ensures lengths == if r != Done then old(lengths) else if old(lengths) == Awaited then Given else Muddled
    {
      hide BeforeMessage, InMessage, Shape, MaxMessageLength;
      KnownSizes();
      if headerLength >= LWORD || messageLength > MaxMessageLength(m_L) || footerLength > 0 {
        return InvalidArgument;
      }
      r := UncheckedSpecifyDataLengths(headerLength, messageLength);
    }

    lemma KnownSizes()
      requires m_state == State_IVSet ==> BeforeMessage()
      ensures m_state == State_IVSet ==> IsNonce(nonce) && m_L == 15 - |nonce|
    {
    }

    /** Given before any input, the lengths begin the chain; later they start it anew from what is there. */
    method UncheckedSpecifyDataLengths(headerLength: nat, messageLength: nat) returns (r: Status)
      requires Valid()
      modifies this, m_buffer, cbcBuffer
      ensures Valid() && m_state == old(m_state) && m_digestSize == old(m_digestSize) && nonce == old(nonce)
      ensures m_L == old(m_L)
      ensures r == if m_state == State_IVSet then Done else BadState
      ensures r == Done ==> && m_aadLength == headerLength && m_messageLength == messageLength
                            && header == old(header) && input == [] && output == []
      ensures lengths == if r != Done then old(lengths) else if old(lengths) == Awaited then Given else Muddled
    {
      hide CounterBlock, InMessage, OnBlocks, Fed, Beginning;
      if m_state != State_IVSet {
        return BadState;
      }
      m_aadLength := headerLength;
      m_messageLength := messageLength;
      WriteBeginning();
      NothingAfter(Beginning(m_digestSize, nonce, m_aadLength, m_messageLength));
      lengths := if lengths == Awaited then Given else Muddled;
      return Done;
    }

    method WriteBeginning()
      requires Shape() && IVSet() && IsTagSize(m_digestSize)
      modifies this`start, this`full, this`fed, this`m_bufferedDataLength, m_buffer, cbcBuffer
      ensures Shape() && Fed()
      ensures old(m_buffer[..]) == CounterBlock(nonce) && old(m_bufferedDataLength) == 0 ==>
                start == Zeros(16) && fed == Beginning(m_digestSize, nonce, m_aadLength, m_messageLength)
    {
      hide CounterBlock, OnBlocks, Fed, FirstBlock, EncodedLength;
      WriteFirstBlock();
      if m_aadLength > 0 {
        WriteHeaderLength();
      }
      NothingAfter(FirstBlock(m_digestSize, nonce, m_aadLength > 0, m_messageLength));
    }

    /** The first block goes into the chain. */
    method WriteFirstBlock()
      requires Shape() && IVSet() && IsTagSize(m_digestSize)
      modifies this`start, this`full, this`fed, cbcBuffer
      ensures Shape() && Fed() && (m_bufferedDataLength == 0 ==> full == fed)
      ensures m_buffer[..] == CounterBlock(nonce) && m_bufferedDataLength == 0 ==>
                start == Zeros(16) && fed == FirstBlock(m_digestSize, nonce, m_aadLength > 0, m_messageLength)
    {
      hide CounterBlock, OnBlocks, FirstBlock;
      FormFirstBlock();
      ghost var block := cbcBuffer[..];
      Whole(cbcBuffer);
      ProcessBlock(m_cipher, cbcBuffer, 16, 0);
      Whole(cbcBuffer);
      if m_bufferedDataLength == 0 {
        ZerosBefore(block);
        StartChain(block, Zeros(16));
      } else {
        Resume();
      }
    }

    /** Flags, nonce and message length; the nonce is taken from the counter block. */
    method FormFirstBlock()
      requires Shape() && IVSet() && IsTagSize(m_digestSize)
      modifies cbcBuffer
      ensures m_buffer[..] == CounterBlock(nonce) ==>
                cbcBuffer[..] == FirstBlock(m_digestSize, nonce, m_aadLength > 0, m_messageLength)
    {
      hide ByteOf, BigEndian, CounterBlock, OnBlocks, Flags;
      cbcBuffer[0] := Flags(m_aadLength > 0, m_digestSize, m_L);
      CopyInto(cbcBuffer, 8, BigEndian(m_messageLength, 8));
      CopyInto(cbcBuffer, 1, m_buffer[1..16 - m_L]);
      NonceOverLength(m_messageLength, m_L);
      if m_buffer[..] == CounterBlock(nonce) {
        NonceOf(m_buffer[..], nonce);
      }
    }

    /** The chain is looked at as started anew, with what waits in the buffer behind it. */
    ghost method Resume()
      requires Shape()
      modifies this`start, this`full, this`fed
      ensures Shape() && Fed()
    {
      start, full, fed := cbcBuffer[..], [], m_buffer[..m_bufferedDataLength];
      ChainNothing(m_cipher, 16, start);
    }

    /** The length of the header waits in the buffer for the header. */
    method WriteHeaderLength()
      requires Fed() && m_aadLength > 0
      modifies this`m_bufferedDataLength, this`fed, m_buffer
      ensures Shape() && Fed() && fed == full + EncodedLength(m_aadLength)
    {
      hide BigEndian, Chained;
      EncodedLengthSizes(m_aadLength);
      if m_aadLength < 0xff00 {
        CopyInto(m_buffer, 0, BigEndian(m_aadLength, 2));
        m_bufferedDataLength := 2;
      } else if m_aadLength < 0x1_0000_0000 {
        m_buffer[0], m_buffer[1] := 0xff, 0xfe;
        CopyInto(m_buffer, 2, BigEndian(m_aadLength, 4));
        m_bufferedDataLength := 6;
      } else {
        m_buffer[0], m_buffer[1] := 0xff, 0xff;
        CopyInto(m_buffer, 2, BigEndian(m_aadLength, 8));
        m_bufferedDataLength := 10;
      }
      assert m_buffer[..m_bufferedDataLength] == EncodedLength(m_aadLength);
      fed := full + EncodedLength(m_aadLength);
    }

    /** The whole blocks of `data`; returns how many bytes are left. */
    method AuthenticateBlocks(data: seq<bv8>) returns (leftOver: nat)
      requires Chained()
      modifies this`full, cbcBuffer
      ensures Chained() && leftOver < 16 && leftOver <= |data| && (|data| - leftOver) % 16 == 0
      ensures full == old(full) + data[..|data| - leftOver]
    {
      hide Chain, OnBlocks;
      Whole(cbcBuffer);
      leftOver := AdvancedProcessBlocks(m_cipher, cbcBuffer, 16, data);
      Whole(cbcBuffer);
      ghost var blocks := data[..|data| - leftOver];
      ChainConcat(m_cipher, 16, start, full, blocks);
      full := full + blocks;
    }

    /** More data.  It waits in the buffer until it makes a block. */
    method AuthenticateData(input: seq<bv8>)
      requires Fed()
      modifies this`full, this`fed, this`m_bufferedDataLength, m_buffer, cbcBuffer
      ensures Shape() && Fed() && fed == old(fed) + input
    {
      hide Chained;
      fed := fed + input;
      var num, rest := m_bufferedDataLength, input;
      if num != 0 {
        if num + |rest| < 16 {
          CopyInto(m_buffer, num, rest);
          m_bufferedDataLength := num + |rest|;
          assert full + m_buffer[..m_bufferedDataLength] == fed;
          return;
        }
        rest := FillBuffer(rest);
      }
      assert full + rest == fed;
      TakeBlocks(rest);
    }

    /** Whole blocks go into the chain, and what is left of the input waits in the buffer. */
    method TakeBlocks(input: seq<bv8>)
      requires Shape() && Chained() && fed == full + input
      modifies this`full, this`m_bufferedDataLength, m_buffer, cbcBuffer
      ensures Shape() && Fed()
    {
      hide Chained;
      var rest := input;
      if |rest| >= 16 {
        var leftOver := AuthenticateBlocks(rest);
        rest := rest[|rest| - leftOver..];
        assert full + rest == fed;
      }
      CopyInto(m_buffer, 0, rest);
      m_bufferedDataLength := |rest|;
      assert m_buffer[..m_bufferedDataLength] == rest;
    }

    /** Completes the block in the buffer from the input, and returns the rest of that. */
    method FillBuffer(input: seq<bv8>) returns (rest: seq<bv8>)
      requires Shape() && Chained() && m_bufferedDataLength > 0 && m_bufferedDataLength + |input| >= 16
      modifies this`full, this`m_bufferedDataLength, m_buffer, cbcBuffer
      ensures Shape() && Chained() && full + rest == old(full) + old(m_buffer[..m_bufferedDataLength]) + input
    {
      hide Chained;
      var num := m_bufferedDataLength;
      ghost var waiting := m_buffer[..num];
      CopyInto(m_buffer, num, input[..16 - num]);
      assert m_buffer[..] == waiting + input[..16 - num];
      var none := AuthenticateBlocks(m_buffer[..]);
      assert none == 0 && m_buffer[..][..16] == m_buffer[..];
      m_bufferedDataLength := 0;
      rest := input[16 - num..];
      assert old(full) + (waiting + input[..16 - num]) + rest == old(full) + waiting + input;
    }

    /** Completes the block in the buffer, if there is one, with zeros. */
    method FlushBuffer()
      requires Fed()
      modifies this`full, this`fed, this`m_bufferedDataLength, cbcBuffer
      ensures Fed() && fed == full == old(fed) + Zeros(PadLength(|old(fed)|)) && m_bufferedDataLength == 0
    {
      hide Chained, OnBlocks, PadLength;
      FullBlocks();
      PadLengthOf(|full|, m_bufferedDataLength);
      PadLengthSmall(m_bufferedDataLength);
      if m_bufferedDataLength > 0 {
        FlushBlock(m_buffer[..m_bufferedDataLength]);
        m_bufferedDataLength := 0;
      } else {
        NothingAfter(fed);
      }
      fed := full;
      assert full + m_buffer[..0] == full;
    }

    lemma FullBlocks()
      requires Chained()
      ensures |full| % 16 == 0
    {
    }

    /** An incomplete block is added to the chain. */
    method FlushBlock(waiting: seq<bv8>)
      requires Chained() && |waiting| < 16
      modifies this`full, cbcBuffer
      ensures Chained() && full == (old(full) + waiting) + Zeros(16 - |waiting|)
    {
      hide Chain, OnBlocks, XorAt, XorBytes;
      ghost var c := cbcBuffer[..];
      ghost var block := waiting + Zeros(16 - |waiting|);
      XorInto(cbcBuffer, 0, waiting);
      XorZeros(c, waiting);
      Whole(cbcBuffer);
      ProcessBlock(m_cipher, cbcBuffer, 16, 0);
      Whole(cbcBuffer);
      ChainOne(m_cipher, 16, c, block);
      ChainConcat(m_cipher, 16, start, full, block);
      Grouped(full, waiting, Zeros(16 - |waiting|));
      full := full + block;
    }

    method AuthenticateLastHeaderBlock() returns (ok: bool)
      requires IVSet() && Fed()
      requires lengths == Given ==> fed == Beginning(m_digestSize, nonce, m_aadLength, m_messageLength) + header
      modifies this`full, this`fed, this`m_bufferedDataLength, cbcBuffer
      ensures ok <==> m_aadLength == |header|
      ensures ok ==> Fed() && (lengths == Given ==> fed == Prefix())
      ensures !ok ==> unchanged(this, cbcBuffer)
    {
      hide Fed, Beginning, FirstBlock, HeaderBlocks, PadLength;
      if m_aadLength != m_totalHeaderLength {
        return false;
      }
      HeaderPadded(m_digestSize, nonce, header, m_messageLength);
      FlushBuffer();
      return true;
    }

    method AuthenticateLastConfidentialBlock() returns (ok: bool)
      requires IVSet() && |Text()| == |input| && Fed() && (lengths == Given ==> fed == Prefix() + Text())
      modifies this`full, this`fed, this`m_bufferedDataLength, cbcBuffer
      ensures ok <==> m_messageLength == |input|
      ensures ok ==>
                && Fed() && m_bufferedDataLength == 0
                && (lengths == Given ==> full == Format(m_digestSize, nonce, header, Text()))
      ensures !ok ==> unchanged(this, cbcBuffer)
    {
      hide Fed, Format, FirstBlock, HeaderBlocks, PadLength;
      if m_messageLength != m_totalMessageLength {
        return false;
      }
      MessagePadded(m_digestSize, nonce, header, Text());
      FlushBuffer();
      return true;
    }

    /** The tag: the end of the chain, encrypted with the first key bytes. */
    method AuthenticateLastFooterBlock(macSize: nat) returns (mac: seq<bv8>)
      requires Chained() && macSize <= 16
      modifies this`ctrPosition
      ensures mac == XorBytes(Chain(m_cipher, 16, start, full), KeyBytes(m_stream, ctrIV, 0, 16))[..macSize]
    {
      ctrPosition := 0;
      mac := CtrProcess(cbcBuffer[..macSize]);
      XorPrefix(cbcBuffer[..], KeyBytes(m_stream, ctrIV, 0, 16), macSize);
      assert KeyBytes(m_stream, ctrIV, 0, 16)[..macSize] == KeyBytes(m_stream, ctrIV, 0, macSize);
    }

    method CtrProcess(inString: seq<bv8>) returns (outString: seq<bv8>)
      modifies this`ctrPosition
      ensures outString == XorBytes(inString, KeyBytes(m_stream, ctrIV, old(ctrPosition), |inString|))
      ensures ctrPosition == old(ctrPosition) + |inString|
    {
      outString := XorBytes(inString, KeyBytes(m_stream, ctrIV, ctrPosition, |inString|));
      ctrPosition := ctrPosition + |inString|;
    }

    method HeaderData(inString: seq<bv8>)
      requires Shape() && BeforeMessage()
      modifies this`full, this`fed, this`m_bufferedDataLength, this`m_totalHeaderLength, this`header, this`lengths
      modifies m_buffer, cbcBuffer
      ensures Shape() && BeforeMessage() && header == old(header) + inString
      ensures lengths == if old(lengths) == Awaited then Muddled else old(lengths)
    {
      hide Beginning, Fed, CounterBlock, OnBlocks;
      Grouped(Beginning(m_digestSize, nonce, m_aadLength, m_messageLength), header, inString);
      AuthenticateData(inString);
      m_totalHeaderLength := m_totalHeaderLength + |inString|;
      header := header + inString;
      lengths := if lengths == Awaited then Muddled else lengths;
    }

    method FooterData(inString: seq<bv8>)
      requires Fed()
      modifies this`full, this`fed, this`m_bufferedDataLength, this`m_totalFooterLength, m_buffer, cbcBuffer
      ensures Fed() && m_totalFooterLength == old(m_totalFooterLength) + |inString|
    {
      AuthenticateData(inString);
      m_totalFooterLength := m_totalFooterLength + |inString|;
    }

    /** Header input, or input after the message, which CCM refuses in the end. */
    method Update(inString: seq<bv8>) returns (r: Status)
      requires Valid()
      modifies this, m_buffer, cbcBuffer
      ensures Valid() && nonce == old(nonce) && m_digestSize == old(m_digestSize) && input == old(input)
      ensures output == old(output)
      ensures m_aadLength == old(m_aadLength) && m_messageLength == old(m_messageLength) && m_L == old(m_L)
      ensures lengths == if old(m_state) == State_IVSet && inString != [] && old(lengths) == Awaited
                         then Muddled else old(lengths)
      ensures r == if inString == [] || old(m_state) in {State_IVSet, State_AuthFooter} then Done
                   else if old(m_state) in {State_Start, State_KeySet} then BadState
                   else if m_messageLength == |input| then Done else InvalidArgument
      ensures m_state == if r == Done && inString != [] && old(m_state) != State_IVSet
                         then State_AuthFooter else old(m_state)
      ensures header == if old(m_state) == State_IVSet then old(header) + inString else old(header)
    {
      hide Beginning, FirstBlock, HeaderBlocks, Encrypted, CounterBlock, OnBlocks, Chained, Format;
      if |inString| == 0 {
        NothingAfter(header);
        return Done;
      }
      match m_state {
        case State_Start => return BadState;
        case State_KeySet => return BadState;
        case State_IVSet => HeaderData(inString);
        case State_AuthFooter => FooterData(inString);
        case _ =>
          var ok := AuthenticateLastConfidentialBlock();
          if !ok {
            return InvalidArgument;
          }
          m_bufferedDataLength := 0;
          m_state := State_AuthFooter;
          FooterData(inString);
      }
      return Done;
    }

    /** The message, in or out of its encrypted form. */
    method ProcessData(inString: seq<bv8>) returns (r: Status, outString: seq<bv8>)
      requires Valid()
      modifies this, m_buffer, cbcBuffer
      ensures r == if old(m_state) in {State_Start, State_KeySet} then BadState
                   else if old(m_state) == State_AuthFooter then
                     (if old(m_totalMessageLength) + |inString| > MaxMessageLength(m_L)
                      then InvalidArgument else BadState)
                   else if || |old(input)| + |inString| > MaxMessageLength(m_L)
                           || (old(m_state) == State_IVSet && m_aadLength != |header|)
                     then InvalidArgument else Done
      ensures r == Done ==>
                && Valid() && m_state == if m_forward then State_AuthUntransformed else State_AuthTransformed
      ensures r == Done ==>
                input == old(input) + inString && output == old(output) + outString && |outString| == |inString|
      ensures r != Done ==> Shape() && m_state == old(m_state) && outString == []
      ensures nonce == old(nonce) && header == old(header) && m_digestSize == old(m_digestSize)
      ensures lengths == old(lengths)
      ensures m_aadLength == old(m_aadLength) && m_messageLength == old(m_messageLength) && m_L == old(m_L)
    {
      hide Fed, Chained, BeforeMessage, InMessage, OnBlocks, MaxMessageLength;
      Totals();
      var total := m_totalMessageLength + |inString|;
      if m_state !in {State_Start, State_KeySet} && total > MaxMessageLength(m_L) {
        m_totalMessageLength := total;
        return InvalidArgument, [];
      }
      if m_state in {State_Start, State_KeySet, State_AuthFooter} {
        m_totalMessageLength := total;
        return BadState, [];
      }
      if m_state == State_IVSet {
        var ok := BeginMessage();
        if !ok {
          m_totalMessageLength := total;
          return InvalidArgument, [];
        }
      }
      outString := MessageData(inString);
      return Done, outString;
    }

    lemma Totals()
      requires Valid()
      ensures m_state in {State_IVSet, State_AuthUntransformed, State_AuthTransformed} ==>
                IVSet() && m_totalMessageLength == |input|
      ensures m_state == State_IVSet ==> input == [] && output == []
    {
    }

    /** The end of the header; from here on the state tells what is authenticated. */
    method BeginMessage() returns (ok: bool)
      requires Valid() && m_state == State_IVSet
      modifies this`full, this`fed, this`m_bufferedDataLength, this`m_state, cbcBuffer
      ensures ok <==> m_aadLength == |header|
      ensures ok ==> Valid() && m_state == if m_forward then State_AuthUntransformed else State_AuthTransformed
      ensures !ok ==> Shape() && m_state == old(m_state)
    {
      hide Chained, Beginning, FirstBlock, HeaderBlocks, CounterBlock, KeyBytes, OnBlocks;
      ok := AuthenticateLastHeaderBlock();
      if ok {
        assert Encrypted(m_stream, nonce, []) == [];
        m_state := if m_forward then State_AuthUntransformed else State_AuthTransformed;
        NothingAfter(Prefix());
      }
    }

    /** Text is authenticated before it is encrypted, or after it has been decrypted. */
    method MessageData(inString: seq<bv8>) returns (outString: seq<bv8>)
      requires Shape() && InMessage() && m_state == if m_forward then State_AuthUntransformed else State_AuthTransformed
      modifies this`full, this`fed, this`m_bufferedDataLength, this`m_totalMessageLength
      modifies this`ctrPosition, this`input, this`output
      modifies m_buffer, cbcBuffer
      ensures Shape() && InMessage()
      ensures |outString| == |inString| && input == old(input) + inString && output == old(output) + outString
    {
      hide FirstBlock, HeaderBlocks, CounterBlock, OnBlocks, Fed, XorBytes, Encrypted, KeyBytes, Prefix;
      outString := TextData(inString);
      Grouped(Prefix(), Text(), if m_forward then inString else outString);
      EncryptedConcat(m_stream, nonce, input, inString);
      m_totalMessageLength := m_totalMessageLength + |inString|;
      input, output := input + inString, output + outString;
    }

    method TextData(inString: seq<bv8>) returns (outString: seq<bv8>)
      requires Fed() && m_state == if m_forward then State_AuthUntransformed else State_AuthTransformed
      modifies this`full, this`fed, this`m_bufferedDataLength, this`ctrPosition, m_buffer, cbcBuffer
      ensures Shape() && Fed() && fed == old(fed) + if m_forward then inString else outString
      ensures outString == XorBytes(inString, KeyBytes(m_stream, ctrIV, old(ctrPosition), |inString|))
      ensures ctrPosition == old(ctrPosition) + |inString|
    {
      hide Fed, OnBlocks, KeyBytes;
      if m_state == State_AuthUntransformed {
        AuthenticateData(inString);
        outString := CtrProcess(inString);
      } else {
        outString := CtrProcess(inString);
        AuthenticateData(outString);
      }
    }

    /** The end of the message: all blocks have gone into the chain. */
    method LastConfidentialBlock() returns (ok: bool)
      requires Valid() && m_state in {State_AuthUntransformed, State_AuthTransformed}
      modifies this`full, this`fed, this`m_bufferedDataLength, cbcBuffer
      ensures ok <==> m_messageLength == |input|
      ensures ok ==>
                && Chained()
                && (lengths == Given ==> start == Zeros(16) && full == Format(m_digestSize, nonce, header, Text()))
      ensures Shape() && IVSet() && output == Encrypted(m_stream, nonce, input) && m_aadLength == |header|
    {
      hide Format, FirstBlock, HeaderBlocks, CounterBlock, OnBlocks, Chained, Encrypted;
      ok := AuthenticateLastConfidentialBlock();
    }

    method FinishMessage(macSize: nat) returns (ok: bool, mac: seq<bv8>)
      requires Valid() && m_state in {State_AuthUntransformed, State_AuthTransformed} && macSize <= 16
      modifies this`full, this`fed, this`m_bufferedDataLength, this`ctrPosition, cbcBuffer
      ensures ok <==> m_messageLength == |input|
      ensures Shape() && IVSet() && output == Encrypted(m_stream, nonce, input) && m_aadLength == |header|
      ensures ok && lengths == Given ==> mac == Tag(m_cipher, m_stream, m_digestSize, nonce, header, Text())[..macSize]
      ensures |mac| == if ok then macSize else 0
    {
      hide Format, CounterBlock, OnBlocks, Encrypted, KeyBytes, XorBytes, Valid;
      ok := LastConfidentialBlock();
      if !ok {
        return false, [];
      }
      ChainIs();
      mac := AuthenticateLastFooterBlock(macSize);
    }

    lemma ChainIs()
      requires Chained()
      ensures OnBlocks(m_cipher)
    {
    }

    /**
     The tag of everything since the nonce was set, however it was cut up, if the lengths were given when
     they should be.  The source would read past the chaining value for a longer tag.
     */
    method TruncatedFinal(macSize: nat) returns (r: Status, mac: seq<bv8>)
      requires Valid() && (m_state !in {State_Start, State_KeySet} ==> macSize <= 16)
      modifies this, m_buffer, cbcBuffer
      ensures r == Done ==> && IsNonce(nonce) && m_digestSize >= 2 && OnBlocks(m_cipher) && |mac| == macSize <= 16
                            && output == Encrypted(m_stream, nonce, input) && m_state == State_KeySet && Valid()
      ensures r == Done && old(lengths) == Given ==>
                mac == Tag(m_cipher, m_stream, m_digestSize, nonce, header, Text())[..macSize]
      ensures r == Done <==> && old(m_state) in {State_IVSet, State_AuthUntransformed, State_AuthTransformed}
                             && m_aadLength == |header| < LWORD && m_messageLength == |input|
      ensures r != Done ==> m_state == old(m_state) && mac == [] && Shape()
      ensures r == BadState ==> m_state in {State_Start, State_KeySet}
      ensures nonce == old(nonce) && header == old(header) && input == old(input) && output == old(output)
      ensures m_aadLength == old(m_aadLength) && m_messageLength == old(m_messageLength)
      ensures m_digestSize == old(m_digestSize)
    {
      hide Fed, Chained, BeforeMessage, InMessage, OnBlocks, Tag, Encrypted;
      Totals();
      if m_totalHeaderLength >= LWORD || m_totalFooterLength > 0 {
        return InvalidArgument, [];
      }
      if m_state in {State_Start, State_KeySet} {
        return BadState, [];
      }
      var state := m_state;
      if m_state == State_IVSet {
        var ok := BeginMessage();
        if !ok {
          return InvalidArgument, [];
        }
      }
      var ok;
      ok, mac := FinishMessage(macSize);
      m_state := if ok then State_KeySet else state;
      return if ok then Done else InvalidArgument, mac;
    }

    /** Compares the tag; one that is longer than the size that was set is refused, which TruncatedFinal does not do. */
    method TruncatedVerify(digest: seq<bv8>) returns (r: Status, valid: bool)
      requires Valid()
      modifies this, m_buffer, cbcBuffer
      ensures |digest| > old(m_digestSize) ==> r == InvalidArgument && unchanged(this, m_buffer, cbcBuffer)
      ensures |digest| <= old(m_digestSize) ==>
                (r == Done <==> && old(m_state) in {State_IVSet, State_AuthUntransformed, State_AuthTransformed}
                                && m_aadLength == |header| < LWORD && m_messageLength == |input|)
      ensures r == Done ==> && IsNonce(nonce) && m_digestSize >= 2 && OnBlocks(m_cipher) && |digest| <= 16
                            && m_state == State_KeySet && Valid()
      ensures r == Done && old(lengths) == Given ==>
                (valid <==> digest == Tag(m_cipher, m_stream, m_digestSize, nonce, header, Text())[..|digest|])
      ensures r != Done ==> m_state == old(m_state) && !valid && Shape()
      ensures nonce == old(nonce) && header == old(header) && input == old(input) && output == old(output)
      ensures m_aadLength == old(m_aadLength) && m_messageLength == old(m_messageLength)
      ensures m_digestSize == old(m_digestSize)
    {
      hide Fed, Chained, BeforeMessage, InMessage, OnBlocks, Tag, Encrypted;
      if |digest| > m_digestSize {
        return InvalidArgument, false;
      }
      var mac;
      r, mac := TruncatedFinal(|digest|);
      valid := r == Done && digest == mac;
    }
  }

  // ---------------------------------------------------------------- whole messages

  predicate Admissible(nonce: seq<bv8>, header: seq<bv8>, message: seq<bv8>) {
    IsNonce(nonce) && |header| < LWORD && |message| <= MaxMessageLength(15 - |nonce|)
  }

  /** Ciphertext and tag; None where the source throws. */
  function Sealed(E: Cipher, S: Stream, t: nat, macSize: nat, nonce: seq<bv8>, header: seq<bv8>, message: seq<bv8>):
      Option<(seq<bv8>, seq<bv8>)>
    requires OnBlocks(E) && IsTagSize(t) && macSize <= 16
  {
    if Admissible(nonce, header, message) then
      Some((Encrypted(S, nonce, message), Tag(E, S, t, nonce, header, message)[..macSize]))
    else None
  }

  /** The message, and whether the tag is right; None where the source throws. */
  function Opened(E: Cipher, S: Stream, t: nat, mac: seq<bv8>, nonce: seq<bv8>, header: seq<bv8>, ciphertext: seq<bv8>):
      Option<(seq<bv8>, bool)>
    requires OnBlocks(E) && IsTagSize(t)
  {
    if Admissible(nonce, header, ciphertext) && |mac| <= t then
      var message := Encrypted(S, nonce, ciphertext);
      Some((message, mac == Tag(E, S, t, nonce, header, message)[..|mac|]))
    else None
  }

  /**
   What has been sealed is opened again and found valid if and only if its tag is not longer than the
   size that was set, which only the opening side looks at.
   */
  lemma SealedOpens(E: Cipher, S: Stream, t: nat, macSize: nat, nonce: seq<bv8>, header: seq<bv8>, message: seq<bv8>)
    requires OnBlocks(E) && IsTagSize(t) && macSize <= 16
    requires Sealed(E, S, t, macSize, nonce, header, message).Some?
    ensures var (ciphertext, mac) := Sealed(E, S, t, macSize, nonce, header, message).value;
            && (macSize <= t ==> Opened(E, S, t, mac, nonce, header, ciphertext) == Some((message, true)))
            && (macSize > t ==> Opened(E, S, t, mac, nonce, header, ciphertext) == None)
  {
    hide Encrypted, Tag, MaxMessageLength;
    DecryptUndoesEncrypt(E, S, t, nonce, header, message);
  }

  /** With a size of 8 and a tag of 16 bytes, even the empty message is sealed and not opened. */
  lemma LongTagRefused(E: Cipher, S: Stream)
    requires OnBlocks(E)
    ensures var sealed := Sealed(E, S, 8, 16, Zeros(7), [], []);
            sealed.Some? && Opened(E, S, 8, sealed.value.1, Zeros(7), [], sealed.value.0) == None
  {
    hide Encrypted, Tag;
  }

  lemma NoneBefore(s: seq<bv8>)
    ensures [] + s == s
  {
  }

  /** The calls for a whole message up to its last byte, as cryptlib.cpp makes them; false where it throws. */
  method ProcessMessage(c: CCM_Base, iv: seq<bv8>, header: seq<bv8>, message: seq<bv8>)
    returns (ok: bool, out: seq<bv8>)
    requires c.Shape() && c.m_state != State_Start
    modifies c, c.m_buffer, c.cbcBuffer
    ensures c.Shape() && c.m_digestSize == old(c.m_digestSize)
    ensures ok <==> Admissible(iv, header, message)
    ensures ok ==> && c.Valid() && c.m_state == (if c.m_forward then State_AuthUntransformed else State_AuthTransformed)
                   && c.lengths == Given && c.nonce == iv && c.header == header && c.input == message && c.output == out
                   && c.m_aadLength == |header| && c.m_messageLength == |message|
  {
    hide MaxMessageLength, OnBlocks, CCM_Base.BeforeMessage, CCM_Base.InMessage;
    ok, out := false, [];
    assert iv[..|iv|] == iv;
    var r := c.Resynchronize(iv, |iv|);
    if r != Done {
      return;
    }
    r := c.SpecifyDataLengths(|header|, |message|, 0);
    if r != Done {
      return;
    }
    r := c.Update(header);
    NoneBefore(header);
    r, out := c.ProcessData(message);
    NoneBefore(message);
    NoneBefore(out);
    ok := true;
  }

  lemma Sizes(nonce: seq<bv8>, header: seq<bv8>, message: seq<bv8>)
    ensures Admissible(nonce, header, message) ==> IsNonce(nonce) && |header| < LWORD
  {
  }

  method EncryptAndAuthenticate(c: CCM_Base, macSize: nat, iv: seq<bv8>, header: seq<bv8>, message: seq<bv8>)
    returns (result: Option<(seq<bv8>, seq<bv8>)>)
    requires c.Shape() && c.m_state != State_Start && c.m_forward && macSize <= 16
    modifies c, c.m_buffer, c.cbcBuffer
    ensures OnBlocks(c.m_cipher) && IsTagSize(old(c.m_digestSize))
    ensures result == Sealed(c.m_cipher, c.m_stream, old(c.m_digestSize), macSize, iv, header, message)
  {
    hide Tag, Encrypted, OnBlocks, Admissible;
    var ok, ciphertext := ProcessMessage(c, iv, header, message);
    if !ok {
      return None;
    }
    Sizes(iv, header, message);
    var r, mac := c.TruncatedFinal(macSize);
    return Some((ciphertext, mac));
  }

  /** What comes out is to be used only if the tag is right. */
  method DecryptAndVerify(c: CCM_Base, mac: seq<bv8>, iv: seq<bv8>, header: seq<bv8>, ciphertext: seq<bv8>)
    returns (result: Option<(seq<bv8>, bool)>)
    requires c.Shape() && c.m_state != State_Start && !c.m_forward
    modifies c, c.m_buffer, c.cbcBuffer
    ensures OnBlocks(c.m_cipher) && IsTagSize(old(c.m_digestSize))
    ensures result == Opened(c.m_cipher, c.m_stream, old(c.m_digestSize), mac, iv, header, ciphertext)
  {
    hide Tag, Encrypted, OnBlocks, Admissible;
    var ok, message := ProcessMessage(c, iv, header, ciphertext);
    if !ok {
      return None;
    }
    Sizes(iv, header, ciphertext);
    var r, valid := c.TruncatedVerify(mac);
    return if r == Done then Some((message, valid)) else None;
  }
}
