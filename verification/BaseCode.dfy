/**
 basecode.cpp: text in base 2^w, for w from 1 to 7, such as base 64 (section 4 of RFC 4648).  The
 encoder and the decoder collect bits in a buffer for a block, the smallest run of characters that
 stands for a whole number of bytes.
 */
module BaseCode {
  import opened Integers
  import opened Bytes
  import opened BitGroups

  // ---------------------------------------------------------------- the text of a message

  /** The characters for `values`. */
  function Text(alphabet: seq<byte>, values: seq<nat>): (s: seq<byte>)
    requires forall i :: 0 <= i < |values| ==> values[i] < |alphabet|
    ensures |s| == |values|
  {
    seq(|values|, i requires 0 <= i < |values| => alphabet[values[i]])
  }

  predicate IsBase(w: nat) {
    1 <= w <= 7
  }

  /** How many bits there are in a block: the smallest common multiple of 8 and w. */
  function BlockBits(w: nat): nat {
    if w == 1 || w == 2 || w == 4 then 8 else if w == 6 then 24 else 8 * w
  }

  lemma BlockBitsIs(w: nat, i: nat)
    requires IsBase(w)
    ensures BlockBits(w) % 8 == 0 && BlockBits(w) % w == 0
    ensures 0 < i < BlockBits(w) ==> i % 8 != 0 || i % w != 0
    ensures BlockBits(w) / w <= 8 && (BlockBits(w) / w) * w == BlockBits(w) && BlockBits(w) / w > 0
    ensures BlockBits(w) / 8 <= 7 && (BlockBits(w) / 8) * 8 == BlockBits(w) && BlockBits(w) / 8 > 0
  {
    if w == 1 {
    } else if w == 2 {
    } else if w == 3 {
    } else if w == 4 {
    } else if w == 5 {
    } else if w == 6 {
    } else {
    }
  }

  function MessageValues(w: nat, message: seq<byte>): seq<nat>
    requires IsBase(w)
  {
    Groups(GroupBits(message, 8), w)
  }

  lemma {:induction false} GroupsSmall(bits: seq<bool>, w: nat)
    requires w > 0
    ensures forall i :: 0 <= i < |Groups(bits, w)| ==> Groups(bits, w)[i] < Pow2(w)
    decreases |bits|
  {
    hide Value;
    if bits == [] {
    } else if |bits| < w {
      ValueBound(bits + NoBits(w - |bits|));
    } else {
      ValueBound(bits[..w]);
      GroupsSmall(bits[w..], w);
    }
  }

  function PadCount(w: nat, n: int): nat
    requires IsBase(w) && n >= 0
  {
    BlockBitsIs(w, 0);
    -n % (BlockBits(w) / w)
  }

  /** The text for a whole message; padding completes the last block, unless it is -1. */
  function EncodedText(alphabet: seq<byte>, w: nat, padding: int, message: seq<byte>): seq<byte>
    requires IsBase(w) && |alphabet| == Pow2(w) && -1 <= padding < 256
  {
    GroupsSmall(GroupBits(message, 8), w);
    var text := Text(alphabet, MessageValues(w, message));
    if padding == -1 then text else text + Repeat(padding, PadCount(w, |text|))
  }

  // ---------------------------------------------------------------- the meaning of a text

  /** The entries of `lookup` that stand for values; all other characters are skipped. */
  predicate IsTable(lookup: seq<int>, w: nat) {
    |lookup| == 256 && forall c :: 0 <= c < 256 ==> (0 <= lookup[c] < 256 ==> lookup[c] < Pow2(w))
  }

  predicate IsValue(v: int) {
    0 <= v < 256
  }

  function Values(lookup: seq<int>, text: seq<byte>): seq<nat>
    requires |lookup| == 256
  {
    if text == [] then []
    else (if IsValue(lookup[text[0]]) then [lookup[text[0]]] else []) + Values(lookup, text[1..])
  }

  function DecodedText(lookup: seq<int>, w: nat, text: seq<byte>): seq<nat>
    requires |lookup| == 256
  {
    WholeGroups(GroupBits(Values(lookup, text), w), 8)
  }

  lemma {:induction false} ValuesConcat(lookup: seq<int>, s: seq<byte>, t: seq<byte>)
    requires |lookup| == 256
    ensures Values(lookup, s + t) == Values(lookup, s) + Values(lookup, t)
  {
    hide IsValue;
    if s == [] {
      assert s + t == t;
    } else {
      ValuesConcat(lookup, s[1..], t);
      assert (s + t)[1..] == s[1..] + t && (s + t)[0] == s[0];
    }
  }

  /** The table gives each character of the alphabet its place. */
  predicate IsTableFor(lookup: seq<int>, alphabet: seq<byte>) {
    |lookup| == 256 && |alphabet| <= 256 && forall i :: 0 <= i < |alphabet| ==> lookup[alphabet[i]] == i
  }

  predicate NoValues(lookup: seq<int>, s: seq<byte>)
    requires |lookup| == 256
  {
    forall i :: 0 <= i < |s| ==> !IsValue(lookup[s[i]])
  }

  lemma {:induction false} ValuesOfText(lookup: seq<int>, alphabet: seq<byte>, values: seq<nat>)
    requires IsTableFor(lookup, alphabet) && forall i :: 0 <= i < |values| ==> values[i] < |alphabet|
    ensures Values(lookup, Text(alphabet, values)) == values
  {
    if values != [] {
      ValuesOfText(lookup, alphabet, values[1..]);
      assert Text(alphabet, values)[1..] == Text(alphabet, values[1..]);
    }
  }

  lemma {:induction false} ValuesOfNone(lookup: seq<int>, s: seq<byte>)
    requires |lookup| == 256 && NoValues(lookup, s)
    ensures Values(lookup, s) == []
  {
    if s != [] {
      ValuesOfNone(lookup, s[1..]);
    }
  }

  // ---------------------------------------------------------------- groups of characters

  /** The text with a separator between groups, when `counter` characters of a group have gone out. */
  function Separated(text: seq<byte>, groupSize: nat, separator: seq<byte>, counter: nat): seq<byte>
    requires groupSize > 0
  {
    if text == [] then []
    else if counter == groupSize then separator + [text[0]] + Separated(text[1..], groupSize, separator, 1)
    else [text[0]] + Separated(text[1..], groupSize, separator, counter + 1)
  }

  function Grouped(text: seq<byte>, groupSize: nat, separator: seq<byte>, terminator: seq<byte>): seq<byte> {
    (if groupSize == 0 then text else Separated(text, groupSize, separator, 0)) + terminator
  }

  lemma {:induction false} ValuesSeparated(lookup: seq<int>, text: seq<byte>, groupSize: nat, separator: seq<byte>,
      counter: nat)
    requires |lookup| == 256 && groupSize > 0 && NoValues(lookup, separator)
    ensures Values(lookup, Separated(text, groupSize, separator, counter)) == Values(lookup, text)
  {
    hide Values;
    if text != [] {
      var c, rest := [text[0]], text[1..];
      assert text == c + rest;
      ValuesConcat(lookup, c, rest);
      if counter == groupSize {
        var more := Separated(rest, groupSize, separator, 1);
        ValuesSeparated(lookup, rest, groupSize, separator, 1);
        ValuesConcat(lookup, separator + c, more);
        ValuesConcat(lookup, separator, c);
        ValuesOfNone(lookup, separator);
        assert [] + Values(lookup, c) == Values(lookup, c);
      } else {
        var more := Separated(rest, groupSize, separator, counter + 1);
        ValuesSeparated(lookup, rest, groupSize, separator, counter + 1);
        ValuesConcat(lookup, c, more);
      }
    }
  }

  lemma ValuesGrouped(lookup: seq<int>, text: seq<byte>, groupSize: nat, separator: seq<byte>, terminator: seq<byte>)
    requires |lookup| == 256 && NoValues(lookup, separator) && NoValues(lookup, terminator)
    ensures Values(lookup, Grouped(text, groupSize, separator, terminator)) == Values(lookup, text)
  {
    hide Values, Separated;
    var s := if groupSize == 0 then text else Separated(text, groupSize, separator, 0);
    if groupSize > 0 {
      ValuesSeparated(lookup, text, groupSize, separator, 0);
    }
    ValuesConcat(lookup, s, terminator);
    ValuesOfNone(lookup, terminator);
    assert Values(lookup, s) + [] == Values(lookup, s);
  }

  /** Decoding undoes encoding and grouping, when neither padding nor separators look like characters. */
  lemma DecodeUndoesEncode(alphabet: seq<byte>, lookup: seq<int>, w: nat, padding: int, message: seq<byte>,
      groupSize: nat, separator: seq<byte>, terminator: seq<byte>)
    requires IsBase(w) && |alphabet| == Pow2(w) && -1 <= padding < 256 && IsTableFor(lookup, alphabet)
    requires padding != -1 ==> !IsValue(lookup[padding])
    requires NoValues(lookup, separator) && NoValues(lookup, terminator)
    ensures var text := EncodedText(alphabet, w, padding, message);
            DecodedText(lookup, w, Grouped(text, groupSize, separator, terminator)) == message
  {
    hide Grouped, Values, Groups, GroupBits, WholeGroups, PadCount, Text;
    var values := MessageValues(w, message);
    GroupsSmall(GroupBits(message, 8), w);
    var text := Text(alphabet, values);
    ValuesGrouped(lookup, EncodedText(alphabet, w, padding, message), groupSize, separator, terminator);
    ValuesOfText(lookup, alphabet, values);
    if padding != -1 {
      var pad := Repeat(padding, PadCount(w, |text|));
      ValuesConcat(lookup, text, pad);
      ValuesOfNone(lookup, pad);
      assert values + [] == values;
    }
    RegroupedBack(message, w);
  }

  lemma GroupCount(bits: seq<bool>, w: nat)
    requires w > 0
    ensures |Groups(bits, w)| == |bits| / w + (if |bits| % w > 0 then 1 else 0)
  {
    hide Groups, Slot;
    GroupsAreSlots(bits, w, |bits| / w, |bits| % w);
  }

  lemma Ceilings(n: nat, w: nat)
    requires 1 <= w <= 7
    ensures (n + 8) / w + (if (n + 8) % w > 0 then 1 else 0) > n / w + (if n % w > 0 then 1 else 0)
  {
    var q, r := n / w, n % w;
    var q', r' := (n + 8) / w, (n + 8) % w;
    if q' <= q {
      MulLe(q', q, w);
    } else if q' == q + 1 && r > 0 {
      assert (q + 1) * w == q * w + w;
      assert r' == r + 8 - w;
    }
  }

  /** Every byte of a message takes at least one more character. */
  lemma ByteTakesCharacter(w: nat, message: seq<byte>, b: byte)
    requires IsBase(w)
    ensures |MessageValues(w, message + [b])| > |MessageValues(w, message)|
  {
    hide Groups, GroupBits;
    GroupBitsConcat(message, [b], 8);
    GroupBitsLength(message, 8);
    GroupBitsLength([b], 8);
    GroupBitsLength(message + [b], 8);
    GroupCount(GroupBits(message, 8), w);
    GroupCount(GroupBits(message + [b], 8), w);
    var n := 8 * |message|;
    Ceilings(n, w);
  }

  // ---------------------------------------------------------------- a block in the making

  /** The buffer holds the groups of the bits, with zeros behind them. */
  ghost predicate SlotsAre(buffer: seq<byte>, bits: seq<bool>, w: nat) {
    forall j :: 0 <= j < |buffer| ==> buffer[j] == Slot(bits, w, j)
  }

  lemma SlotsEmpty(buffer: seq<byte>, w: nat)
    requires forall j :: 0 <= j < |buffer| ==> buffer[j] == 0
    ensures SlotsAre(buffer, [], w)
  {
    forall j | 0 <= j < |buffer|
      ensures Slot([], w, j) == 0
    {
      SlotEmpty(w, j);
    }
  }

  method Clear(buffer: array<byte>, w: nat)
    modifies buffer
    ensures SlotsAre(buffer[..], [], w)
  {
    forall i | 0 <= i < buffer.Length {
      buffer[i] := 0;
    }
    SlotsEmpty(buffer[..], w);
  }

  lemma SlotBound(bits: seq<bool>, w: nat, j: nat)
    requires w <= 8
    ensures Slot(bits, w, j) < Pow2(w) <= 256
  {
    hide Value;
    ValueBound(Window(bits, j * w, w));
    Pow8();
    Pow2Le(w, 8);
  }

  /** Or-ing bits into slot `p` puts them behind those that are there. */
  lemma SlotsPut(buffer: seq<byte>, bits: seq<bool>, more: seq<bool>, w: nat, p: nat, q: nat, v: nat)
    requires SlotsAre(buffer, bits, w) && w <= 8 && |bits| == p * w + q && q + |more| <= w && p < |buffer|
    requires v == Value(more + NoBits(w - q - |more|))
    ensures BitOr(buffer[p], v) < 256 && SlotsAre(buffer[p := BitOr(buffer[p], v)], bits + more, w)
  {
    hide Slot, BitOr, Value;
    PutBits(bits, more, w, p, q);
    SlotBound(bits + more, w, p);
  }

  /** (reg << k) & 0xff */
  function ShiftedOut(reg: nat, k: nat): byte {
    ShlOrder(0, reg, k);
    ShlZero(k);
    Pow8();
    Low(Shl(reg, k), 8)
  }

  /** The top `k` bits of a register with `|rest|` bits left in it, and what stays when they are shifted out. */
  lemma RegisterTop(rest: seq<bool>, k: nat)
    requires |rest| <= 8 && 1 <= k <= 7
    ensures var reg := Value(rest + NoBits(8 - |rest|));
            |rest| >= k ==>
              && Shr(reg, 8 - k) == Value(rest[..k] + NoBits(0))
              && ShiftedOut(reg, k) == Value(rest[k..] + NoBits(8 - |rest| + k))
    ensures var reg := Value(rest + NoBits(8 - |rest|));
            && |rest| < k ==> Shr(reg, 8 - k) == Value(rest + NoBits(k - |rest|))
  {
    hide Value, Shr, Low;
    var n := |rest|;
    var all := rest + NoBits(8 - n);
    if n >= k {
      assert all == rest[..k] + (rest[k..] + NoBits(8 - n));
      ValueSplit(rest[..k], rest[k..] + NoBits(8 - n));
      assert rest[..k] + NoBits(0) == rest[..k];
      ValuePadded(all, k);
      assert all + NoBits(k) == rest[..k] + (rest[k..] + NoBits(8 - n + k));
      ValueSplit(rest[..k], rest[k..] + NoBits(8 - n + k));
    } else {
      assert all == (rest + NoBits(k - n)) + NoBits(8 - k);
      ValueSplit(rest + NoBits(k - n), NoBits(8 - k));
    }
  }

  lemma ByteRegister(b: byte)
    ensures b == Value(Bits(b, 8) + NoBits(0))
  {
    Pow8();
    ValueOfBits(b, 8);
    assert Bits(b, 8) + NoBits(0) == Bits(b, 8);
  }

  lemma NextSlot(p: nat, w: nat)
    ensures (p + 1) * w == p * w + w
  {
  }

  /** A place before the end of the block is in the buffer. */
  lemma InBuffer(p: nat, q: nat, w: nat, n: nat, k: nat)
    requires p * w + q + k <= n * w && k > 0
    ensures p < n
  {
    if p >= n {
      MulLe(n, p, w);
    }
  }

  lemma NoGroupBits()
    ensures GroupBits([], 8) == []
  {
  }

  lemma PlaceUnique(p: nat, q: nat, w: nat, n: nat, r: nat)
    requires w > 0 && q < w && r < w && p * w + q == n * w + r
    ensures p == n && q == r
  {
    DivModUnique(p * w + q, w, p, q);
    DivModUnique(p * w + q, w, n, r);
  }

  lemma BlocksConcat(s: seq<byte>, t: seq<byte>, n: nat)
    requires n > 0 && 8 * |s| % n == 0 && 8 * |t| % n == 0
    ensures 8 * |s + t| % n == 0
  {
    AddMultiples(8 * |s|, 8 * |t|, n);
  }

  lemma Associate(k: nat, m: nat, w: nat)
    ensures k * (m * w) == (k * m) * w
  {
  }

  lemma Multiple(n: nat, b: nat, k: nat, m: nat, w: nat)
    requires b > 0 && n % b == 0 && k == n / b && b == m * w
    ensures n == (k * m) * w
  {
    assert n == k * b;
    Associate(k, m, w);
  }

  /** Whole blocks are encoded by themselves. */
  lemma EncodedConcat(alphabet: seq<byte>, w: nat, s: seq<byte>, t: seq<byte>)
    requires IsBase(w) && |alphabet| == Pow2(w) && 8 * |s| % BlockBits(w) == 0
    ensures MessageValues(w, s + t) == MessageValues(w, s) + Groups(GroupBits(t, 8), w)
  {
    hide Groups, GroupBits, BlockBits;
    BlockBitsIs(w, 0);
    GroupBitsConcat(s, t, 8);
    GroupBitsLength(s, 8);
    var k := 8 * |s| / BlockBits(w);
    var m := BlockBits(w) / w;
    Multiple(8 * |s|, BlockBits(w), k, m, w);
    GroupsConcat(GroupBits(s, 8), GroupBits(t, 8), w, k * m);
  }

  lemma BlockBitsAtLeast(w: nat)
    requires IsBase(w)
    ensures 8 <= BlockBits(w) && w <= BlockBits(w)
  {
  }

  /** The smallest number of characters that stand for whole bytes. */
  method EncoderBlockSize(w: nat) returns (size: nat)
    requires IsBase(w)
    ensures size == BlockBits(w) / w
  {
    hide BlockBits;
    BlockBitsIs(w, 0);
    var i: nat := 8;
    BlockBitsAtLeast(w);
    while i % w != 0
      invariant 0 < i <= BlockBits(w) && i % 8 == 0
      decreases BlockBits(w) - i
    {
      BlockBitsIs(w, i);
      i := i + 8;
    }
    BlockBitsIs(w, i);
    size := i / w;
  }

  lemma NotFirst(p: nat, q: nat, w: nat, n: nat)
    requires IsBase(w) && n % 8 == 0 && p * w + q == n && q < w
    ensures p == 0 ==> n == 0 && q == 0
  {
  }

  lemma MultipleBelow(n: nat, b: nat)
    requires n < b && n % 8 == 0 && b % 8 == 0
    ensures n + 8 <= b
  {
  }

  lemma LastSlot(p: nat, q: nat, w: nat, n: nat)
    requires w > 0 && q < w && p * w + q <= n * w
    ensures p == n <==> p * w + q == n * w
  {
    if p * w + q == n * w {
      PlaceUnique(p, q, w, n, 0);
    }
  }

  lemma EncodedNothing(alphabet: seq<byte>, w: nat)
    requires IsBase(w) && |alphabet| == Pow2(w)
    ensures MessageValues(w, []) == [] && GroupBits([], 8) == [] && 0 % BlockBits(w) == 0
  {
    BlockBitsAtLeast(w);
    DivModUnique(0, BlockBits(w), 0, 0);
  }

  /** What completes a block of which `n` characters are there. */
  function PaddingFor(padding: int, blockSize: nat, n: nat): seq<byte>
    requires -1 <= padding < 256 && n <= blockSize
  {
    if padding != -1 && n > 0 then Repeat(padding, blockSize - n) else []
  }

  lemma NoText(alphabet: seq<byte>)
    ensures Text(alphabet, []) == []
  {
  }

  lemma ValuesSmall(w: nat, message: seq<byte>)
    requires IsBase(w)
    ensures forall i :: 0 <= i < |MessageValues(w, message)| ==> MessageValues(w, message)[i] < Pow2(w)
  {
    GroupsSmall(GroupBits(message, 8), w);
  }

  lemma TextConcat(alphabet: seq<byte>, s: seq<nat>, t: seq<nat>)
    requires forall i :: 0 <= i < |s| ==> s[i] < |alphabet|
    requires forall i :: 0 <= i < |t| ==> t[i] < |alphabet|
    ensures Text(alphabet, s + t) == Text(alphabet, s) + Text(alphabet, t)
  {
  }

  lemma PadCountIs(w: nat, k: int, n: int)
    requires IsBase(w) && k >= 0 && 0 <= n <= BlockBits(w) / w
    ensures k * (BlockBits(w) / w) + n >= 0
    ensures PadCount(w, k * (BlockBits(w) / w) + n) == if n == 0 then 0 else BlockBits(w) / w - n
  {
    hide BlockBits;
    BlockBitsIs(w, 0);
    var b := BlockBits(w) / w;
    MulLe(0, k, b);
    if n == 0 {
      DivModUnique(-(k * b), b, -k, 0);
    } else {
      DivModUnique(-(k * b + n), b, -k - 1, b - n);
    }
  }

  lemma WholeBlockCount(w: nat, s: seq<byte>) returns (k: nat)
    requires IsBase(w) && 8 * |s| % BlockBits(w) == 0
    ensures |MessageValues(w, s)| == k * (BlockBits(w) / w)
  {
    hide Groups, GroupBits, BlockBits;
    BlockBitsIs(w, 0);
    GroupBitsLength(s, 8);
    var b := BlockBits(w) / w;
    k := 8 * |s| / BlockBits(w);
    Multiple(8 * |s|, BlockBits(w), k, b, w);
    DivModUnique(8 * |s|, w, k * b, 0);
    GroupCount(GroupBits(s, 8), w);
  }

  /** Padding the last block pads the text. */
  lemma PaddedText(alphabet: seq<byte>, w: nat, padding: int, s: seq<byte>, t: seq<byte>, values: seq<nat>)
    requires IsBase(w) && |alphabet| == Pow2(w) && -1 <= padding < 256 && 8 * |s| % BlockBits(w) == 0
    requires values == Groups(GroupBits(t, 8), w) && MessageValues(w, s + t) == MessageValues(w, s) + values
    requires |values| <= BlockBits(w) / w && forall i :: 0 <= i < |values| ==> values[i] < |alphabet|
    ensures forall i :: 0 <= i < |MessageValues(w, s)| ==> MessageValues(w, s)[i] < |alphabet|
    ensures EncodedText(alphabet, w, padding, s + t)
         == Text(alphabet, MessageValues(w, s))
            + (Text(alphabet, values) + PaddingFor(padding, BlockBits(w) / w, |values|))
  {
    hide Groups, GroupBits, BlockBits, PadCount, Text;
    GroupsSmall(GroupBits(s, 8), w);
    var k := WholeBlockCount(w, s);
    PadCountIs(w, k, |values|);
    TextConcat(alphabet, MessageValues(w, s), values);
    if padding != -1 && |values| == 0 {
      assert Repeat(padding, 0) == [];
    }
  }

  class BaseN_Encoder {
    const m_alphabet: seq<byte>
    const m_padding: int
    const m_bitsPerChar: nat
    const m_outputBlockSize: nat
    const m_outBuf: array<byte>
    var m_bytePos: nat
    var m_bitPos: nat
    var output: seq<byte>
    ghost var bits: seq<bool>         // the bits in the block
    ghost var pending: seq<byte>      // the bytes that they come from
    ghost var consumed: seq<byte>     // the bytes of the message before those
    ghost var before: seq<byte>       // the output when the message began

    ghost predicate Shape()
      reads this
    {
      && IsBase(m_bitsPerChar) && |m_alphabet| == Pow2(m_bitsPerChar) && -1 <= m_padding < 256
      && m_outputBlockSize == BlockBits(m_bitsPerChar) / m_bitsPerChar && m_outBuf.Length == m_outputBlockSize
      && m_outputBlockSize * m_bitsPerChar == BlockBits(m_bitsPerChar)
    }

    ghost predicate Holds()
      reads this, m_outBuf
    {
      && Shape() && |bits| == m_bytePos * m_bitsPerChar + m_bitPos && m_bitPos < m_bitsPerChar
      && |bits| <= BlockBits(m_bitsPerChar) && SlotsAre(m_outBuf[..], bits, m_bitsPerChar)
    }

    /** Between bytes: the buffer holds the bytes since the last whole block. */
    ghost predicate Valid()
      reads this, m_outBuf
    {
      && Shape() && bits == GroupBits(pending, 8) && 8 * |pending| < BlockBits(m_bitsPerChar)
      && (if pending == [] then m_bytePos == 0 && m_bitPos == 0 else Holds())
      && 8 * |consumed| % BlockBits(m_bitsPerChar) == 0
      && output == before + Encoded(consumed)
    }

    ghost function Encoded(message: seq<byte>): seq<byte>
      reads this
      requires Shape()
    {
      GroupsSmall(GroupBits(message, 8), m_bitsPerChar);
      Text(m_alphabet, MessageValues(m_bitsPerChar, message))
    }

    constructor (alphabet: seq<byte>, log2base: nat, padding: int)
      requires IsBase(log2base) && |alphabet| == Pow2(log2base) && -1 <= padding < 256
      ensures Valid() && m_alphabet == alphabet && m_bitsPerChar == log2base && m_padding == padding
      ensures output == [] && before == [] && Message() == [] && fresh(m_outBuf)
    {
      BlockBitsIs(log2base, 0);
      m_alphabet, m_bitsPerChar, m_padding := alphabet, log2base, padding;
      m_bytePos, m_bitPos := 0, 0;
      var size := EncoderBlockSize(log2base);
      m_outputBlockSize := size;
      m_outBuf := new byte[size](_ => 0);
      output, before, bits, pending, consumed := [], [], [], [], [];
    }

    ghost function Message(): seq<byte>
      reads this
    {
      consumed + pending
    }

    /** The first `n` bytes of the buffer become characters. */
    method MapToAlphabet(n: nat, ghost values: seq<nat>)
      requires Shape() && n <= m_outBuf.Length && |values| == n
      requires forall i :: 0 <= i < n ==> m_outBuf[i] == values[i] < |m_alphabet|
      modifies m_outBuf
      ensures m_outBuf[..n] == Text(m_alphabet, values)
    {
      hide BlockBits;
      for i := 0 to n
        invariant forall j :: 0 <= j < i ==> m_outBuf[j] == m_alphabet[values[j]]
        invariant forall j :: i <= j < n ==> m_outBuf[j] == values[j]
      {
        m_outBuf[i] := m_alphabet[m_outBuf[i]];
      }
    }

    method FlushBlock()
      requires Holds() && |bits| == BlockBits(m_bitsPerChar) && bits == GroupBits(pending, 8)
      requires 8 * |consumed| % BlockBits(m_bitsPerChar) == 0 && output == before + Encoded(consumed)
      modifies m_outBuf, this
      ensures Valid() && Message() == old(Message()) && before == old(before) && pending == []
    {
      hide Groups, GroupBits, WholeGroups, Slot, BlockBits, MessageValues, Text;
      BlockBitsIs(m_bitsPerChar, 0);
      PlaceUnique(m_bytePos, m_bitPos, m_bitsPerChar, m_outputBlockSize, 0);
      GroupsAreSlots(bits, m_bitsPerChar, m_bytePos, m_bitPos);
      GroupsSmall(bits, m_bitsPerChar);
      ghost var values := Groups(bits, m_bitsPerChar);
      MapToAlphabet(m_bytePos, values);
      assert m_outBuf[..] == m_outBuf[..m_bytePos];
      output := output + m_outBuf[..];
      ValuesSmall(m_bitsPerChar, consumed);
      EncodedConcat(m_alphabet, m_bitsPerChar, consumed, pending);
      TextConcat(m_alphabet, MessageValues(m_bitsPerChar, consumed), values);
      GroupBitsLength(pending, 8);
      DivModUnique(8 * |pending|, BlockBits(m_bitsPerChar), 1, 0);
      BlocksConcat(consumed, pending, BlockBits(m_bitsPerChar));
      m_bytePos, m_bitPos := 0, 0;
      consumed, pending, bits := consumed + pending, [], [];
      NoGroupBits();
    }

    /** One call of Put: the text depends on the message alone, and not on the calls in which it came. */
    method Put2(begin: seq<byte>, messageEnd: bool)
      requires Valid()
      modifies m_outBuf, this
      ensures Valid()
      ensures !messageEnd ==> Message() == old(Message()) + begin && before == old(before)
      ensures messageEnd ==> && Message() == [] && before == output
                             && output == old(before)
                                          + EncodedText(m_alphabet, m_bitsPerChar, m_padding, old(Message()) + begin)
    {
      hide Shape, EncodedText;
      ghost var start := Message();
      var inputPosition := 0;
      assert start + begin[..0] == start;
      while inputPosition < |begin|
        invariant Valid() && inputPosition <= |begin| && Message() == start + begin[..inputPosition]
        invariant before == old(before)
      {
        PutInput(begin[inputPosition]);
        assert start + begin[..inputPosition] + [begin[inputPosition]] == start + begin[..inputPosition + 1];
        inputPosition := inputPosition + 1;
      }
      assert begin[..|begin|] == begin;
      if messageEnd {
        MessageEnd();
      }
    }

    /** What is left in the buffer, with padding if there is to be any. */
    method MessageEnd()
      requires Valid()
      modifies m_outBuf, this
      ensures Valid() && Message() == [] && before == output
      ensures output == old(before) + EncodedText(m_alphabet, m_bitsPerChar, m_padding, old(Message()))
    {
      hide Groups, GroupBits, WholeGroups, Slot, BlockBits, PadCount, MessageValues, EncodedText, Text;
      ghost var values := Groups(bits, m_bitsPerChar);
      GroupsSmall(bits, m_bitsPerChar);
      CharactersLeft();
      EncodedConcat(m_alphabet, m_bitsPerChar, consumed, pending);
      PaddedText(m_alphabet, m_bitsPerChar, m_padding, consumed, pending, values);
      if m_bitPos > 0 {
        m_bytePos := m_bytePos + 1;
      }
      CompleteText(values);
      output := output + m_outBuf[..m_bytePos];
      m_bytePos, m_bitPos := 0, 0;
      consumed, pending, bits, before := [], [], [], output;
      EncodedNothing(m_alphabet, m_bitsPerChar);
      NoText(m_alphabet);
    }

    /** The characters in the buffer, and padding up to the end of the block if there are any. */
    method CompleteText(ghost values: seq<nat>)
      requires Shape() && |values| == m_bytePos <= m_outputBlockSize
      requires forall i :: 0 <= i < m_bytePos ==> m_outBuf[i] == values[i] < |m_alphabet|
      modifies m_outBuf, this`m_bytePos
      ensures m_bytePos <= m_outputBlockSize
      ensures m_outBuf[..m_bytePos] == Text(m_alphabet, values) + PaddingFor(m_padding, m_outputBlockSize, |values|)
    {
      hide BlockBits, Text;
      MapToAlphabet(m_bytePos, values);
      if m_padding != -1 && m_bytePos > 0 {
        forall i | m_bytePos <= i < m_outputBlockSize {
          m_outBuf[i] := m_padding;
        }
        assert m_outBuf[..m_bytePos] == Text(m_alphabet, values);
        m_bytePos := m_outputBlockSize;
      }
    }

    /** How many characters the bits in the buffer make. */
    lemma CharactersLeft()
      requires Valid()
      ensures var n := m_bytePos + (if m_bitPos > 0 then 1 else 0);
              var values := Groups(bits, m_bitsPerChar);
              && |values| == n <= m_outputBlockSize && (n == 0 <==> pending == [])
              && forall i :: 0 <= i < n ==> m_outBuf[i] == values[i]
    {
      hide Groups, WholeGroups, Slot, BlockBits, Bits;
      if pending == [] {
        GroupCount([], m_bitsPerChar);
      } else {
        GroupBitsLength(pending, 8);
        GroupsAreSlots(bits, m_bitsPerChar, m_bytePos, m_bitPos);
        InBuffer(m_bytePos, m_bitPos, m_bitsPerChar, m_outputBlockSize, 1);
      }
    }

    /** One byte of input; a block that is complete goes out. */
    method PutInput(b: byte)
      requires Valid()
      modifies m_outBuf, this
      ensures Valid() && Message() == old(Message()) + [b] && before == old(before)
    {
      hide Groups, GroupBits, SlotsAre, BlockBits;
      BlockBitsIs(m_bitsPerChar, 0);
      GroupBitsLength(pending, 8);
      NotFirst(m_bytePos, m_bitPos, m_bitsPerChar, 8 * |pending|);
      if m_bytePos == 0 {
        Clear(m_outBuf, m_bitsPerChar);
        NoGroupBits();
      }
      MultipleBelow(8 * |pending|, BlockBits(m_bitsPerChar));
      PutByte(b);
      GroupBitsConcat(pending, [b], 8);
      GroupBitsOne(b, 8);
      ghost var was := pending;
      pending := pending + [b];
      assert consumed + pending == consumed + was + [b];
      GroupBitsLength(pending, 8);
      LastSlot(m_bytePos, m_bitPos, m_bitsPerChar, m_outputBlockSize);
      if m_bytePos == m_outputBlockSize {
        FlushBlock();
      }
    }

    /** As many bits of the source as fit go into the character at m_bytePos. */
    method PutTop(reg: nat, bitsLeftInSource: nat, ghost rest: seq<bool>) returns (taken: nat)
      requires Holds() && |rest| == bitsLeftInSource && 0 < |rest| <= 8 && reg == Value(rest + NoBits(8 - |rest|))
      requires |bits| + |rest| <= BlockBits(m_bitsPerChar)
      modifies m_outBuf, this`bits, this`m_bytePos, this`m_bitPos
      ensures taken == Min(bitsLeftInSource, m_bitsPerChar - old(m_bitPos))
      ensures Holds() && bits == old(bits) + rest[..taken]
    {
      hide Value, BitOr, Shr, Low, Slot, BlockBits;
      var bitsLeftInTarget := m_bitsPerChar - m_bitPos;
      taken := Min(bitsLeftInSource, bitsLeftInTarget);
      RegisterTop(rest, bitsLeftInTarget);
      assert bitsLeftInSource < bitsLeftInTarget ==> rest[..taken] == rest;
      InBuffer(m_bytePos, m_bitPos, m_bitsPerChar, m_outputBlockSize, taken);
      SlotsPut(m_outBuf[..], bits, rest[..taken], m_bitsPerChar, m_bytePos, m_bitPos, Shr(reg, 8 - bitsLeftInTarget));
      ghost var t := m_outBuf[..];
      m_outBuf[m_bytePos] := BitOr(m_outBuf[m_bytePos], Shr(reg, 8 - bitsLeftInTarget));
      assert m_outBuf[..] == t[m_bytePos := BitOr(t[m_bytePos], Shr(reg, 8 - bitsLeftInTarget))];
      bits := bits + rest[..taken];
      if bitsLeftInSource >= bitsLeftInTarget {
        NextSlot(m_bytePos, m_bitsPerChar);
        m_bitPos := 0;
        m_bytePos := m_bytePos + 1;
      } else {
        m_bitPos := m_bitPos + bitsLeftInSource;
      }
    }

    /** One byte of input. */
    method PutByte(b: byte)
      requires Holds() && |bits| + 8 <= BlockBits(m_bitsPerChar)
      modifies m_outBuf, this`bits, this`m_bytePos, this`m_bitPos
      ensures Holds() && bits == old(bits) + Bits(b, 8)
    {
      hide Value, Bits, SlotsAre, BlockBits, ShiftedOut;
      var reg: nat, bitsLeftInSource: nat := b, 8;
      ghost var all := Bits(b, 8);
      ghost var rest := all;
      ByteRegister(b);
      while true
        invariant Holds() && |rest| == bitsLeftInSource && 0 < |rest| <= 8 && reg == Value(rest + NoBits(8 - |rest|))
        invariant bits + rest == old(bits) + all
        decreases bitsLeftInSource
      {
        var bitsLeftInTarget := m_bitsPerChar - m_bitPos;
        ghost var was := bits;
        RegisterTop(rest, bitsLeftInTarget);
        var taken := PutTop(reg, bitsLeftInSource, rest);
        assert was + rest == (was + rest[..taken]) + rest[taken..];
        bitsLeftInSource := bitsLeftInSource - taken;
        rest := rest[taken..];
        if bitsLeftInSource == 0 {
          break;
        }
        reg := ShiftedOut(reg, bitsLeftInTarget);
      }
      assert bits + rest == bits;
    }
  }

  // ---------------------------------------------------------------- the decoder

  /** The bits of a value that go into the byte at hand, and those that go into the next one. */
  lemma ValueParts(value: nat, w: nat, room: nat)
    requires value < Pow2(w) && 0 < room <= 8 && w <= 8
    ensures w <= room ==> Shl(value, room - w) == Value(Bits(value, w) + NoBits(room - w))
    ensures w > room ==> && Shr(value, w - room) == Value(Bits(value, w)[..room] + NoBits(0))
                         && ShiftedOut(value, 8 + room - w) == Value(Bits(value, w)[room..] + NoBits(8 + room - w))
  {
    hide Value, Bits, Shr, Low;
    var v := Bits(value, w);
    ValueOfBits(value, w);
    if w <= room {
      ValuePadded(v, room - w);
    } else {
      assert v == v[..room] + v[room..] && v[..room] + NoBits(0) == v[..room];
      ValueSplit(v[..room], v[room..]);
      ValuePadded(v, 8 + room - w);
      assert v + NoBits(8 + room - w) == v[..room] + (v[room..] + NoBits(8 + room - w));
      ValueSplit(v[..room], v[room..] + NoBits(8 + room - w));
    }
  }

  lemma NoneYet(values: seq<nat>, w: nat)
    requires w > 0
    ensures |GroupBits(values, w)| == 0 <==> values == []
    ensures |GroupBits(values, w)| == 0 ==> GroupBits(values, w) == []
  {
    if values != [] {
      assert |GroupBits(values, w)| >= w;
    }
  }

  lemma ValuesOne(lookup: seq<int>, text: seq<byte>, c: byte)
    requires |lookup| == 256
    ensures Values(lookup, text + [c]) == Values(lookup, text) + (if IsValue(lookup[c]) then [lookup[c]] else [])
  {
    ValuesConcat(lookup, text, [c]);
    assert [c][1..] == [] && Values(lookup, []) == [];
  }

  lemma BlockAdded(m: nat, n: nat, w: nat, b: nat)
    requires b > 0 && (m * w) % b == 0 && n * w == b
    ensures ((m + n) * w) % b == 0
  {
    assert (m + n) * w == m * w + b;
    AddBlock(m * w, b);
  }

  /** Characters do not straddle the end of a block. */
  lemma CharacterFits(n: nat, w: nat)
    requires IsBase(w) && n * w < BlockBits(w)
    ensures n * w + w <= BlockBits(w)
  {
    hide BlockBits;
    BlockBitsIs(w, 0);
    var m := BlockBits(w) / w;
    if n >= m {
      MulLe(m, n, w);
    } else {
      MulLe(n + 1, m, w);
    }
  }

  lemma DecodedConcat(w: nat, s: seq<nat>, t: seq<nat>)
    requires IsBase(w) && (|s| * w) % BlockBits(w) == 0
    ensures WholeGroups(GroupBits(s + t, w), 8) == WholeGroups(GroupBits(s, w), 8) + WholeGroups(GroupBits(t, w), 8)
  {
    hide GroupBits, WholeGroups, BlockBits;
    BlockBitsIs(w, 0);
    GroupBitsConcat(s, t, w);
    GroupBitsLength(s, w);
    var k := |s| * w / BlockBits(w);
    var m := BlockBits(w) / 8;
    Multiple(|s| * w, BlockBits(w), k, m, 8);
    GroupsConcat(GroupBits(s, w), GroupBits(t, w), 8, k * m);
  }

  lemma NothingDecoded(lookup: seq<int>, w: nat)
    requires |lookup| == 256 && IsBase(w)
    ensures Values(lookup, []) == [] && GroupBits([], w) == [] && WholeGroups([], 8) == []
    ensures 0 % BlockBits(w) == 0 && BlockBits(w) > 0
  {
    BlockBitsAtLeast(w);
    DivModUnique(0, BlockBits(w), 0, 0);
  }

  lemma MultipleFits(i: nat, w: nat)
    requires IsBase(w) && i <= BlockBits(w) && i % w == 0 && i % 8 != 0
    ensures i + w <= BlockBits(w)
  {
    hide BlockBits;
    BlockBitsIs(w, 0);
    assert i == (i / w) * w;
    CharacterFits(i / w, w);
  }

  method DecoderBlockSize(w: nat) returns (size: nat)
    requires IsBase(w)
    ensures size == BlockBits(w) / 8
  {
    hide BlockBits;
    BlockBitsIs(w, 0);
    var i := w;
    BlockBitsAtLeast(w);
    DivModUnique(w, w, 1, 0);
    while i % 8 != 0
      invariant 0 < i <= BlockBits(w) && i % w == 0
      decreases BlockBits(w) - i
    {
      MultipleFits(i, w);
      AddBlock(i, w);
      i := i + w;
    }
    BlockBitsIs(w, i);
    size := i / 8;
  }

  class BaseN_Decoder {
    const m_lookup: seq<int>
    const m_bitsPerChar: nat
    const m_outputBlockSize: nat
    const m_outBuf: array<byte>
    var m_bytePos: nat
    var m_bitPos: nat
    var output: seq<byte>
    ghost var bits: seq<bool>         // the bits in the block
    ghost var pending: seq<nat>       // the values that they come from
    ghost var consumed: seq<nat>      // the values of the message before those
    ghost var text: seq<byte>         // the text of the message so far
    ghost var before: seq<byte>       // the output when the message began

    ghost predicate Shape()
      reads this
    {
      && IsBase(m_bitsPerChar) && IsTable(m_lookup, m_bitsPerChar)
      && m_outBuf.Length == m_outputBlockSize == BlockBits(m_bitsPerChar) / 8
      && m_outputBlockSize * 8 == BlockBits(m_bitsPerChar)
    }

    ghost predicate Holds()
      reads this, m_outBuf
    {
      && Shape() && |bits| == 8 * m_bytePos + m_bitPos && m_bitPos < 8
      && |bits| <= BlockBits(m_bitsPerChar) && SlotsAre(m_outBuf[..], bits, 8)
    }

    ghost predicate Valid()
      reads this, m_outBuf
    {
      && Shape() && bits == GroupBits(pending, m_bitsPerChar) && |bits| < BlockBits(m_bitsPerChar)
      && (if pending == [] then m_bytePos == 0 && m_bitPos == 0 else Holds())
      && (|consumed| * m_bitsPerChar) % BlockBits(m_bitsPerChar) == 0 && Values(m_lookup, text) == consumed + pending
      && output == before + WholeGroups(GroupBits(consumed, m_bitsPerChar), 8)
    }

    constructor (lookup: seq<int>, log2base: nat)
      requires IsBase(log2base) && IsTable(lookup, log2base)
      ensures Valid() && m_lookup == lookup && m_bitsPerChar == log2base
      ensures output == [] && before == [] && text == [] && fresh(m_outBuf)
    {
      BlockBitsIs(log2base, 0);
      BlockBitsAtLeast(log2base);
      m_lookup, m_bitsPerChar := lookup, log2base;
      m_bytePos, m_bitPos := 0, 0;
      var size := DecoderBlockSize(log2base);
      m_outputBlockSize := size;
      m_outBuf := new byte[size](_ => 0);
      output, before, bits, pending, consumed, text := [], [], [], [], [], [];
    }

    method OrInto(p: nat, v: nat, ghost q: nat, ghost more: seq<bool>)
      requires Shape() && SlotsAre(m_outBuf[..], bits, 8) && |bits| == 8 * p + q && q + |more| <= 8
      requires p < m_outBuf.Length
      requires v == Value(more + NoBits(8 - q - |more|))
      modifies m_outBuf, this`bits
      ensures SlotsAre(m_outBuf[..], bits, 8) && bits == old(bits) + more
    {
      hide Value, BitOr, SlotsAre, BlockBits;
      SlotsPut(m_outBuf[..], bits, more, 8, p, q, v);
      ghost var t := m_outBuf[..];
      m_outBuf[p] := BitOr(m_outBuf[p], v);
      assert m_outBuf[..] == t[p := BitOr(t[p], v)];
      bits := bits + more;
    }

    /** The bits of one character. */
    method PutValue(value: nat)
      requires Holds() && value < Pow2(m_bitsPerChar) && |bits| + m_bitsPerChar <= BlockBits(m_bitsPerChar)
      modifies m_outBuf, this`bits, this`m_bytePos, this`m_bitPos
      ensures Holds() && bits == old(bits) + Bits(value, m_bitsPerChar)
    {
      hide Value, Bits, Shr, Shl, SlotsAre, BlockBits, ShiftedOut, IsTable;
      ghost var v := Bits(value, m_bitsPerChar);
      ghost var room := 8 - m_bitPos;
      ValueParts(value, m_bitsPerChar, room);
      var newBitPos := m_bitPos + m_bitsPerChar;
      if newBitPos <= 8 {
        ShlOrder(0, value, 8 - newBitPos);
        ShlZero(8 - newBitPos);
        OrInto(m_bytePos, Shl(value, 8 - newBitPos), m_bitPos, v);
      } else {
        OrInto(m_bytePos, Shr(value, newBitPos - 8), m_bitPos, v[..room]);
        OrInto(m_bytePos + 1, ShiftedOut(value, 16 - newBitPos), 0, v[room..]);
        assert v[..room] + v[room..] == v;
      }
      assert bits == old(bits) + v;
      m_bitPos := newBitPos;
      while m_bitPos >= 8
        invariant |bits| == 8 * m_bytePos + m_bitPos && SlotsAre(m_outBuf[..], bits, 8)
        modifies this`m_bytePos, this`m_bitPos
      {
        m_bitPos := m_bitPos - 8;
        m_bytePos := m_bytePos + 1;
      }
    }

    /** A complete block goes out. */
    method FlushBlock()
      requires Holds() && |bits| == BlockBits(m_bitsPerChar) && bits == GroupBits(pending, m_bitsPerChar)
      requires (|consumed| * m_bitsPerChar) % BlockBits(m_bitsPerChar) == 0
      requires Values(m_lookup, text) == consumed + pending
      requires output == before + WholeGroups(GroupBits(consumed, m_bitsPerChar), 8)
      modifies this
      ensures Valid() && text == old(text) && before == old(before)
    {
      hide Groups, GroupBits, WholeGroups, Slot, BlockBits, Values, IsTable;
      BlockBitsIs(m_bitsPerChar, 0);
      GroupsAreSlots(bits, 8, m_bytePos, m_bitPos);
      assert m_outBuf[..] == WholeGroups(bits, 8);
      DecodedConcat(m_bitsPerChar, consumed, pending);
      output := output + m_outBuf[..];
      GroupBitsLength(pending, m_bitsPerChar);
      BlockAdded(|consumed|, |pending|, m_bitsPerChar, BlockBits(m_bitsPerChar));
      m_bytePos, m_bitPos := 0, 0;
      consumed, pending, bits := consumed + pending, [], [];
      GroupBitsNone(m_bitsPerChar);
    }

    /** One character of input. */
    method PutInput(c: byte)
      requires Valid()
      modifies m_outBuf, this
      ensures Valid() && text == old(text) + [c] && before == old(before)
    {
      hide Groups, GroupBits, WholeGroups, SlotsAre, BlockBits, Values;
      ghost var was := text;
      ValuesOne(m_lookup, text, c);
      text := text + [c];
      var value := m_lookup[c];
      if value < 0 || value >= 256 {
        return;
      }
      BlockBitsIs(m_bitsPerChar, 0);
      GroupBitsLength(pending, m_bitsPerChar);
      NoneYet(pending, m_bitsPerChar);
      if m_bytePos == 0 && m_bitPos == 0 {
        Clear(m_outBuf, 8);
      }
      CharacterFits(|pending|, m_bitsPerChar);
      PutValue(value);
      GroupBitsConcat(pending, [value], m_bitsPerChar);
      GroupBitsOne(value, m_bitsPerChar);
      assert consumed + pending + [value] == consumed + (pending + [value]);
      pending := pending + [value];
      if m_bytePos == m_outputBlockSize {
        FlushBlock();
      }
    }

    /** The whole bytes that are left in the buffer. */
    method MessageEnd()
      requires Valid()
      modifies this
      ensures Valid() && text == [] && before == output
      ensures output == old(before) + DecodedText(m_lookup, m_bitsPerChar, old(text))
    {
      hide Groups, GroupBits, WholeGroups, Slot, BlockBits, Values;
      DecodedConcat(m_bitsPerChar, consumed, pending);
      BytesLeft();
      output := output + m_outBuf[..m_bytePos];
      m_bytePos, m_bitPos := 0, 0;
      consumed, pending, bits, text, before := [], [], [], [], output;
      NothingDecoded(m_lookup, m_bitsPerChar);
    }

    lemma BytesLeft()
      requires Valid()
      ensures m_bytePos <= m_outBuf.Length && m_outBuf[..m_bytePos] == WholeGroups(bits, 8)
    {
      hide Groups, GroupBits, Slot, BlockBits, Values, IsTable;
      GroupBitsNone(m_bitsPerChar);
      GroupsStep([], 8);
      if pending != [] {
        GroupsAreSlots(bits, 8, m_bytePos, m_bitPos);
      }
    }

    /** One call of Put: the bytes depend on the text alone, and not on the calls in which it came. */
    method Put2(begin: seq<byte>, messageEnd: bool)
      requires Valid()
      modifies m_outBuf, this
      ensures Valid()
      ensures !messageEnd ==> text == old(text) + begin && before == old(before)
      ensures messageEnd ==> && text == [] && before == output
                             && output == old(before) + DecodedText(m_lookup, m_bitsPerChar, old(text) + begin)
    {
      hide Shape, DecodedText;
      ghost var start := text;
      var inputPosition := 0;
      assert start + begin[..0] == start;
      while inputPosition < |begin|
        invariant Valid() && inputPosition <= |begin| && text == start + begin[..inputPosition] && before == old(before)
      {
        PutInput(begin[inputPosition]);
        assert start + begin[..inputPosition] + [begin[inputPosition]] == start + begin[..inputPosition + 1];
        inputPosition := inputPosition + 1;
      }
      assert begin[..|begin|] == begin;
      if messageEnd {
        MessageEnd();
      }
    }
  }

  // ---------------------------------------------------------------- the table of a decoder

  predicate IsAlpha(c: byte) {
    65 <= c <= 90 || 97 <= c <= 122
  }

  function ToUpper(c: byte): byte {
    if 97 <= c <= 122 then c - 32 else c
  }

  function ToLower(c: byte): byte {
    if 65 <= c <= 90 then c + 32 else c
  }

  /** Whether the character `c` of a text stands for the character `a` of the alphabet. */
  predicate StandsFor(c: byte, a: byte, caseInsensitive: bool) {
    if caseInsensitive && IsAlpha(a) then c == ToUpper(a) || c == ToLower(a) else c == a
  }

  predicate InAlphabet(c: byte, alphabet: seq<byte>, caseInsensitive: bool) {
    exists i :: 0 <= i < |alphabet| && StandsFor(c, alphabet[i], caseInsensitive)
  }

  predicate EntryRight(lookup: seq<int>, c: byte, alphabet: seq<byte>, caseInsensitive: bool)
    requires |lookup| == 256
  {
    IsValue(lookup[c]) <==> InAlphabet(c, alphabet, caseInsensitive)
  }

  predicate NoClash(alphabet: seq<byte>, caseInsensitive: bool) {
    forall i, j, c: byte :: 0 <= i < j < |alphabet| && StandsFor(c, alphabet[i], caseInsensitive) ==>
                              !StandsFor(c, alphabet[j], caseInsensitive)
  }

  ghost predicate EntryFor(lookup: seq<int>, c: byte, alphabet: seq<byte>, n: nat, caseInsensitive: bool)
    requires |lookup| == 256 && n <= |alphabet|
  {
    if lookup[c] == -1 then forall i :: 0 <= i < n ==> !StandsFor(c, alphabet[i], caseInsensitive)
    else 0 <= lookup[c] < n && StandsFor(c, alphabet[lookup[c]], caseInsensitive)
  }

  /** Every character is entered with the place of the one that it stands for, or with -1. */
  ghost predicate Entries(lookup: seq<int>, alphabet: seq<byte>, n: nat, caseInsensitive: bool) {
    |lookup| == 256 && n <= |alphabet| && forall c: byte :: EntryFor(lookup, c, alphabet, n, caseInsensitive)
  }

  lemma NoEntries(lookup: seq<int>, alphabet: seq<byte>, caseInsensitive: bool)
    requires |lookup| == 256 && forall c :: 0 <= c < 256 ==> lookup[c] == -1
    ensures Entries(lookup, alphabet, 0, caseInsensitive)
  {
  }

  lemma NextEntry(t: seq<int>, u: seq<int>, alphabet: seq<byte>, n: nat, caseInsensitive: bool)
    requires Entries(t, alphabet, n, caseInsensitive) && n < |alphabet| && |u| == 256
    requires forall c: byte :: u[c] == if StandsFor(c, alphabet[n], caseInsensitive) then n else t[c]
    ensures Entries(u, alphabet, n + 1, caseInsensitive)
  {
    hide StandsFor;
    var m := n + 1;
    forall c: byte
      ensures EntryFor(u, c, alphabet, m, caseInsensitive)
    {
      assert EntryFor(t, c, alphabet, n, caseInsensitive);
    }
  }

  method InitializeDecodingLookupArray(lookup: array<int>, alphabet: seq<byte>, caseInsensitive: bool)
    requires lookup.Length == 256 && NoClash(alphabet, caseInsensitive)
    modifies lookup
    ensures Entries(lookup[..], alphabet, |alphabet|, caseInsensitive)
  {
    hide NoClash;
    forall c | 0 <= c < 256 {
      lookup[c] := -1;
    }
    NoEntries(lookup[..], alphabet, caseInsensitive);
    for i := 0 to |alphabet|
      invariant Entries(lookup[..], alphabet, i, caseInsensitive)
    {
      ghost var t := lookup[..];
      var a := alphabet[i];
      if caseInsensitive && IsAlpha(a) {
        lookup[ToUpper(a)] := i;
        lookup[ToLower(a)] := i;
      } else {
        lookup[a] := i;
      }
      NextEntry(t, lookup[..], alphabet, i, caseInsensitive);
    }
  }

  /** The table of an alphabet is a table for it, and all else is skipped. */
  lemma TableOfAlphabet(lookup: seq<int>, alphabet: seq<byte>, w: nat, caseInsensitive: bool)
    requires IsBase(w) && |alphabet| == Pow2(w) && NoClash(alphabet, caseInsensitive)
    requires Entries(lookup, alphabet, |alphabet|, caseInsensitive)
    ensures IsTable(lookup, w) && IsTableFor(lookup, alphabet)
    ensures forall c: byte :: EntryRight(lookup, c, alphabet, caseInsensitive)
  {
    Pow8();
    Pow2Le(w, 8);
    hide Pow2;
    forall c: byte
      ensures EntryRight(lookup, c, alphabet, caseInsensitive)
    {
      assert EntryFor(lookup, c, alphabet, |alphabet|, caseInsensitive);
    }
    forall c | 0 <= c < 256
      ensures 0 <= lookup[c] < 256 ==> lookup[c] < |alphabet|
    {
      assert EntryFor(lookup, c, alphabet, |alphabet|, caseInsensitive);
    }
    forall i | 0 <= i < |alphabet|
      ensures lookup[alphabet[i]] == i
    {
      var c := alphabet[i];
      assert EntryFor(lookup, c, alphabet, |alphabet|, caseInsensitive);
      assert StandsFor(c, alphabet[i], caseInsensitive);
    }
  }

  // ---------------------------------------------------------------- the grouper

  /** How many characters of the last group there are, after `text`. */
  function InGroup(text: seq<byte>, groupSize: nat, counter: nat): nat {
    if text == [] then counter
    else InGroup(text[1..], groupSize, if counter == groupSize then 1 else counter + 1)
  }

  lemma {:induction false} SeparatedConcat(s: seq<byte>, t: seq<byte>, groupSize: nat, separator: seq<byte>,
      counter: nat)
    requires groupSize > 0
    ensures Separated(s + t, groupSize, separator, counter)
         == Separated(s, groupSize, separator, counter)
            + Separated(t, groupSize, separator, InGroup(s, groupSize, counter))
    ensures InGroup(s + t, groupSize, counter) == InGroup(t, groupSize, InGroup(s, groupSize, counter))
  {
    if s == [] {
      assert s + t == t;
    } else {
      SeparatedConcat(s[1..], t, groupSize, separator, if counter == groupSize then 1 else counter + 1);
      assert (s + t)[1..] == s[1..] + t;
    }
  }

  /** Characters that still fit in their group. */
  lemma {:induction false} SeparatedNone(s: seq<byte>, groupSize: nat, separator: seq<byte>, counter: nat)
    requires groupSize > 0 && counter + |s| <= groupSize
    ensures Separated(s, groupSize, separator, counter) == s && InGroup(s, groupSize, counter) == counter + |s|
  {
    if s != [] {
      SeparatedNone(s[1..], groupSize, separator, counter + 1);
    }
  }

  lemma SeparatedFull(s: seq<byte>, groupSize: nat, separator: seq<byte>)
    requires groupSize > 0 && s != []
    ensures Separated(s, groupSize, separator, groupSize) == separator + Separated(s, groupSize, separator, 0)
    ensures InGroup(s, groupSize, groupSize) == InGroup(s, groupSize, 0)
  {
  }

  lemma Continued(start: seq<byte>, s: seq<byte>, i: nat, n: nat)
    requires i + n <= |s|
    ensures start + s[..i] + s[i..][..n] == start + s[..i + n]
  {
  }

  class Grouper {
    const m_groupSize: nat
    const m_separator: seq<byte>
    const m_terminator: seq<byte>
    var m_counter: nat
    var output: seq<byte>
    ghost var text: seq<byte>
    ghost var before: seq<byte>

    ghost predicate Valid()
      reads this
    {
      if m_groupSize == 0 then output == before + text
      else
        && output == before + Separated(text, m_groupSize, m_separator, 0)
        && m_counter == InGroup(text, m_groupSize, 0) <= m_groupSize
    }

    constructor (groupSize: nat, separator: seq<byte>, terminator: seq<byte>)
      ensures Valid() && m_groupSize == groupSize && m_separator == separator && m_terminator == terminator
      ensures output == [] && before == [] && text == []
    {
      m_groupSize, m_separator, m_terminator := groupSize, separator, terminator;
      m_counter, output, text, before := 0, [], [], [];
    }

    /** Characters up to the end of the group at hand, after a separator if that group is full. */
    method PutGroup(rest: seq<byte>) returns (len: nat)
      requires Valid() && m_groupSize > 0 && rest != []
      modifies this
      ensures 0 < len <= |rest| && Valid() && text == old(text) + rest[..len] && before == old(before)
    {
      hide Separated, InGroup;
      var room := if m_counter == m_groupSize then m_groupSize else m_groupSize - m_counter;
      len := Min(|rest|, room);
      ghost var part := rest[..len];
      SeparatedConcat(text, part, m_groupSize, m_separator, 0);
      SeparatedFull(part, m_groupSize, m_separator);
      SeparatedNone(part, m_groupSize, m_separator, if m_counter == m_groupSize then 0 else m_counter);
      if m_counter == m_groupSize {
        output := output + m_separator;
        m_counter := 0;
      }
      output := output + rest[..len];
      m_counter := m_counter + len;
      text := text + part;
    }

    /** One call of Put: what comes out depends on the text alone. */
    method Put2(begin: seq<byte>, messageEnd: bool)
      requires Valid()
      modifies this
      ensures Valid()
      ensures !messageEnd ==> text == old(text) + begin && before == old(before)
      ensures messageEnd ==> && text == [] && before == output
                             && output == old(before)
                                          + Grouped(old(text) + begin, m_groupSize, m_separator, m_terminator)
    {
      if m_groupSize != 0 {
        PutGroups(begin);
      } else {
        output := output + begin;
        text := text + begin;
      }
      if messageEnd {
        output := output + m_terminator;
        m_counter := 0;
        text, before := [], output;
      }
    }

    method PutGroups(begin: seq<byte>)
      requires Valid() && m_groupSize > 0
      modifies this
      ensures Valid() && text == old(text) + begin && before == old(before)
    {
      hide Valid;
      ghost var start := text;
      var inputPosition := 0;
      assert start + begin[..0] == start;
      while inputPosition < |begin|
        invariant Valid() && inputPosition <= |begin| && text == start + begin[..inputPosition] && before == old(before)
      {
        var len := PutGroup(begin[inputPosition..]);
        Continued(start, begin, inputPosition, len);
        inputPosition := inputPosition + len;
      }
      assert begin[..|begin|] == begin;
    }
  }

  // ---------------------------------------------------------------- objects

  /** An encoder; null where the source refuses the base. */
  method NewEncoder(alphabet: seq<byte>, log2base: int, padding: int) returns (encoder: BaseN_Encoder?)
    requires 1 <= log2base <= 7 ==> |alphabet| == Pow2(log2base)
    requires -1 <= padding < 256
    ensures encoder == null <==> log2base <= 0 || log2base >= 8
    ensures encoder != null ==>
              && fresh(encoder) && encoder.Valid()
              && encoder.m_alphabet == alphabet && encoder.m_bitsPerChar == log2base
                                && encoder.m_padding == padding && encoder.Message() == [] && encoder.before == []
  {
    if log2base <= 0 || log2base >= 8 {
      return null;
    }
    encoder := new BaseN_Encoder(alphabet, log2base, padding);
  }

  /** A decoder; null where the source refuses the base. */
  method NewDecoder(lookup: seq<int>, log2base: int) returns (decoder: BaseN_Decoder?)
    requires 1 <= log2base <= 7 ==> IsTable(lookup, log2base)
    ensures decoder == null <==> log2base <= 0 || log2base >= 8
    ensures decoder != null ==>
              && fresh(decoder) && decoder.Valid() && decoder.m_lookup == lookup && decoder.m_bitsPerChar == log2base
                                && decoder.text == [] && decoder.before == []
  {
    if log2base <= 0 || log2base >= 8 {
      return null;
    }
    decoder := new BaseN_Decoder(lookup, log2base);
  }
}
