/**
 asn.cpp: lengths in BER and DER (sections 8.1.3 and 10.1 of X.690), and the re-encoding of a BER
 element.  It makes the indefinite lengths outside definite contents definite, and copies definite
 contents as they are.
 */
module Asn {
  import opened Integers
  import opened Wrappers
  import opened Bytes

  // ---------------------------------------------------------------- lengths

  function BytePrecision(n: nat): nat {
    if n == 0 then 0 else 1 + BytePrecision(n / 256)
  }

  function ShortestBytes(n: nat): (s: seq<byte>)
    ensures |s| == BytePrecision(n)
  {
    if n == 0 then [] else ShortestBytes(n / 256) + [n % 256]
  }

  lemma {:induction false} PrecisionBound(n: nat, k: nat)
    requires n < Power256(k)
    ensures BytePrecision(n) <= k
  {
    if n > 0 {
      PrecisionBound(n / 256, k - 1);
    }
  }

  lemma LengthOctetsBound(n: nat)
    requires n < LWORD
    ensures BytePrecision(n) <= 8
  {
    Powers256();
    PrecisionBound(n, 8);
  }

  /** The shortest definite form. */
  function LengthOctets(n: nat): seq<byte>
    requires n < LWORD
  {
    LengthOctetsBound(n);
    if n <= 0x7f then [n] else [BytePrecision(n) + 0x80] + ShortestBytes(n)
  }

  datatype Length = Definite(length: nat, used: nat) | Indefinite | Truncated | Overflow

  /** The length that starts with `length`, with `k` octets of `s` to follow, after `used` before them. */
  function LongLength(length: nat, s: seq<byte>, k: nat, used: nat): Length
    decreases k
  {
    if k == 0 then Definite(length, used)
    else if length >= 0x100_0000_0000_0000 then Overflow
    else if s == [] then Truncated
    else LongLength(length * 256 + s[0], s[1..], k - 1, used + 1)
  }

  /** The length octets at the front of `s`. */
  function ReadLength(s: seq<byte>): Length {
    if s == [] then Truncated
    else if s[0] < 0x80 then Definite(s[0], 1)
    else if s[0] == 0x80 then Indefinite
    else LongLength(0, s[1..], s[0] - 0x80, 1)
  }

  lemma {:induction false} LongLengthBounds(length: nat, s: seq<byte>, k: nat, used: nat)
    requires length < LWORD
    ensures var r := LongLength(length, s, k, used);
            r.Definite? ==> r.used == used + k && k <= |s| && r.length < LWORD
    decreases k
  {
    if k > 0 && length < 0x100_0000_0000_0000 && s != [] {
      LongLengthBounds(length * 256 + s[0], s[1..], k - 1, used + 1);
    }
  }

  lemma ReadLengthBounds(s: seq<byte>)
    ensures var r := ReadLength(s); r.Definite? ==> 1 <= r.used <= |s| && r.length < LWORD
  {
    if s != [] && s[0] > 0x80 {
      LongLengthBounds(0, s[1..], s[0] - 0x80, 1);
    }
  }

  lemma {:induction false} LongLengthConcat(length: nat, s: seq<byte>, t: seq<byte>, j: nat, k: nat, used: nat)
    requires j == |s|
    ensures var r := LongLength(length, s, j, used);
            r.Definite? ==> LongLength(length, s + t, j + k, used) == LongLength(r.length, t, k, used + j)
    decreases j
  {
    if j == 0 {
      assert s + t == t;
    } else if length < 0x100_0000_0000_0000 {
      LongLengthConcat(length * 256 + s[0], s[1..], t, j - 1, k, used + 1);
      assert (s + t)[1..] == s[1..] + t;
    }
  }

  lemma {:induction false} ShortestBytesRead(n: nat, t: seq<byte>, used: nat)
    requires n < LWORD
    ensures LongLength(0, ShortestBytes(n) + t, BytePrecision(n), used) == Definite(n, used + BytePrecision(n))
  {
    if n == 0 {
      assert ShortestBytes(n) + t == t;
    } else {
      var m, k := n / 256, BytePrecision(n) - 1;
      var rest := [n % 256] + t;
      ShortestBytesRead(m, [], used);
      assert ShortestBytes(m) + [] == ShortestBytes(m);
      LongLengthConcat(0, ShortestBytes(m), rest, k, 1, used);
      assert ShortestBytes(n) + t == ShortestBytes(m) + rest;
      assert rest[1..] == t;
      assert LongLength(m, rest, 1, used + k) == LongLength(n, t, 0, used + k + 1);
    }
  }

  /** Decoding undoes encoding, for every 64-bit length and whatever follows. */
  lemma LengthRoundTrip(n: nat, t: seq<byte>)
    requires n < LWORD
    ensures ReadLength(LengthOctets(n) + t) == Definite(n, |LengthOctets(n)|)
  {
    hide LongLength, ShortestBytes;
    LengthOctetsBound(n);
    if n > 0x7f {
      ShortestBytesRead(n, t, 1);
      assert (LengthOctets(n) + t)[1..] == ShortestBytes(n) + t;
    }
  }

  lemma {:induction false} LongLengthSize(length: nat, s: seq<byte>, k: nat, used: nat)
    ensures var r := LongLength(length, s, k, used);
            r.Definite? ==> BytePrecision(r.length) <= BytePrecision(length) + k
    decreases k
  {
    if k > 0 && length < 0x100_0000_0000_0000 && s != [] {
      LongLengthSize(length * 256 + s[0], s[1..], k - 1, used + 1);
      assert (length * 256 + s[0]) / 256 == length;
    }
  }

  /** No other octets for the same length are shorter. */
  lemma LengthShortest(s: seq<byte>)
    ensures var r := ReadLength(s); r.Definite? ==> r.length < LWORD && |LengthOctets(r.length)| <= r.used
  {
    ReadLengthBounds(s);
    if s != [] && s[0] > 0x80 {
      LongLengthSize(0, s[1..], s[0] - 0x80, 1);
      LongLengthBounds(0, s[1..], s[0] - 0x80, 1);
    }
  }

  // ---------------------------------------------------------------- elements

  predicate IsConstructed(tag: byte) {
    (tag / 32) % 2 == 1
  }

  /** Identifiers of more than one byte are not part of the model. */
  predicate IsShortTag(tag: byte) {
    tag % 32 != 31
  }

  predicate AtEnd(s: seq<byte>) {
    |s| >= 2 && s[0] == 0 && s[1] == 0
  }

  datatype Tree = Primitive(tag: byte, contents: seq<byte>) | Constructed(tag: byte, children: seq<Tree>)

  /** What the element at the front of `s` means, and how long it is. */
  function Parse(s: seq<byte>): (r: Option<(Tree, nat)>)
    ensures r.Some? ==> 2 <= r.value.1 <= |s|
    decreases |s|, 0
  {
    if s == [] || !IsShortTag(s[0]) then None
    else
      ReadLengthBounds(s[1..]);
      match ReadLength(s[1..])
      case Definite(n, used) =>
        if 1 + used + n > |s| then None
        else
          var contents := s[1 + used..1 + used + n];
          if !IsConstructed(s[0]) then Some((Primitive(s[0], contents), 1 + used + n))
          else
            var children := ParseAll(contents);
            if children.None? then None else Some((Constructed(s[0], children.value), 1 + used + n))
      case Indefinite =>
        if !IsConstructed(s[0]) then None
        else
          var r := ParseToEnd(s[2..]);
          if r.None? then None else Some((Constructed(s[0], r.value.0), 2 + r.value.1))
      case _ => None
  }

  /** The elements that make up definite contents. */
  function ParseAll(s: seq<byte>): Option<seq<Tree>>
    decreases |s|, 1
  {
    if s == [] then Some([])
    else
      match Parse(s)
      case None => None
      case Some(first) =>
        match ParseAll(s[first.1..])
        case None => None
        case Some(rest) => Some([first.0] + rest)
  }

  /** The elements up to the end-of-contents octets, and the length of it all. */
  function ParseToEnd(s: seq<byte>): (r: Option<(seq<Tree>, nat)>)
    ensures r.Some? ==> 2 <= r.value.1 <= |s|
    decreases |s|, 1
  {
    if AtEnd(s) then Some(([], 2))
    else
      match Parse(s)
      case None => None
      case Some(first) =>
        match ParseToEnd(s[first.1..])
        case None => None
        case Some(rest) => Some(([first.0] + rest.0, first.1 + rest.1))
  }

  /** An element in definite form. */
  function Encode(tag: byte, contents: seq<byte>): seq<byte> {
    [tag] + LengthOctets(|contents| % LWORD) + contents
  }

  /** The re-encoded form of the element at the front of `s`, and how long the element is. */
  function Reencode(s: seq<byte>): (r: Option<(seq<byte>, nat)>)
    ensures r.Some? ==> 2 <= r.value.1 <= |s|
    decreases |s|, 0
  {
    if s == [] then None
    else
      ReadLengthBounds(s[1..]);
      match ReadLength(s[1..])
      case Definite(n, used) =>
        if 1 + used + n > |s| then None
        else Some((Encode(s[0], s[1 + used..1 + used + n]), 1 + used + n))
      case Indefinite =>
        if !IsConstructed(s[0]) then None
        else
          var r := ReencodeToEnd(s[2..]);
          if r.None? then None else Some((Encode(s[0], r.value.0), 2 + r.value.1))
      case _ => None
  }

  function ReencodeToEnd(s: seq<byte>): (r: Option<(seq<byte>, nat)>)
    ensures r.Some? ==> 2 <= r.value.1 <= |s|
    decreases |s|, 1
  {
    if AtEnd(s) then Some(([], 2))
    else
      match Reencode(s)
      case None => None
      case Some(first) =>
        match ReencodeToEnd(s[first.1..])
        case None => None
        case Some(rest) => Some((first.0 + rest.0, first.1 + rest.1))
  }

  // ---------------------------------------------------------------- the meaning is kept

  lemma EncodeLength(tag: byte, contents: seq<byte>)
    ensures |contents| + 2 <= |Encode(tag, contents)| <= |contents| + 10
  {
    LengthOctetsBound(|contents| % LWORD);
  }

  /** The output is longer than the input by a bounded factor, so that its lengths still fit. */
  lemma {:induction false} Growth(s: seq<byte>)
    ensures var r := Reencode(s); r.Some? ==> |r.value.0| <= 5 * r.value.1
    decreases |s|, 0
  {
    hide Encode;
    if s != [] {
      ReadLengthBounds(s[1..]);
      match ReadLength(s[1..])
      case Definite(n, used) =>
        if 1 + used + n <= |s| {
          EncodeLength(s[0], s[1 + used..1 + used + n]);
        }
      case Indefinite =>
        GrowthToEnd(s[2..]);
        var r := ReencodeToEnd(s[2..]);
        if r.Some? {
          EncodeLength(s[0], r.value.0);
        }
      case _ =>
    }
  }

  lemma {:induction false} GrowthToEnd(s: seq<byte>)
    ensures var r := ReencodeToEnd(s); r.Some? ==> |r.value.0| + 10 <= 5 * r.value.1
    decreases |s|, 1
  {
    if !AtEnd(s) {
      Growth(s);
      var r := Reencode(s);
      if r.Some? {
        GrowthToEnd(s[r.value.1..]);
      }
    }
  }

  lemma InFront(tag: byte, octets: seq<byte>, contents: seq<byte>, t: seq<byte>)
    ensures var s := [tag] + octets + contents + t;
            && s[0] == tag && s[1..] == octets + (contents + t)
            && s[1 + |octets|..1 + |octets| + |contents|] == contents
  {
  }

  /** An element in definite form is read back, whatever follows it. */
  lemma ReadBack(tag: byte, contents: seq<byte>, t: seq<byte>)
    requires |contents| < LWORD
    ensures var s := Encode(tag, contents) + t;
            && |s| > 0 && s[0] == tag
            && ReadLength(s[1..]) == Definite(|contents|, |Encode(tag, contents)| - |contents| - 1)
            && s[|Encode(tag, contents)| - |contents|..|Encode(tag, contents)|] == contents
  {
    hide LengthOctets, ReadLength;
    var octets := LengthOctets(|contents|);
    var s := Encode(tag, contents) + t;
    InFront(tag, octets, contents, t);
    LengthRoundTrip(|contents|, contents + t);
  }

  lemma ParseEncoded(tag: byte, contents: seq<byte>, t: seq<byte>)
    requires |contents| < LWORD && IsShortTag(tag)
    ensures !IsConstructed(tag) ==>
              Parse(Encode(tag, contents) + t) == Some((Primitive(tag, contents), |Encode(tag, contents)|))
    ensures IsConstructed(tag) && ParseAll(contents).Some? ==>
              Parse(Encode(tag, contents) + t)
              == Some((Constructed(tag, ParseAll(contents).value), |Encode(tag, contents)|))
  {
    hide Encode, ReadLength;
    EncodeLength(tag, contents);
    ReadBack(tag, contents, t);
  }

  lemma MeaningKeptDefinite(s: seq<byte>, t: seq<byte>)
    requires Parse(s).Some? && 5 * |s| < LWORD && ReadLength(s[1..]).Definite?
    ensures var r := Reencode(s);
            && r.Some? && r.value.1 == Parse(s).value.1
            && Parse(r.value.0 + t) == Some((Parse(s).value.0, |r.value.0|))
  {
    hide Encode, ReadLength, ParseAll, ParseToEnd;
    ReadLengthBounds(s[1..]);
    var length := ReadLength(s[1..]);
    var contents := s[1 + length.used..1 + length.used + length.length];
    ParseEncoded(s[0], contents, t);
  }

  /**
   Re-encoding keeps the meaning: every well-formed element is accepted, it is used up exactly, and
   its new form, whatever follows, is a well-formed element with the same tree.
   */
  lemma {:induction false} MeaningKept(s: seq<byte>, t: seq<byte>)
    requires Parse(s).Some? && 5 * |s| < LWORD
    ensures var r := Reencode(s);
            && r.Some? && r.value.1 == Parse(s).value.1
            && Parse(r.value.0 + t) == Some((Parse(s).value.0, |r.value.0|))
    decreases |s|, 0
  {
    hide Encode, ReadLength, ParseAll, ParseToEnd;
    ReadLengthBounds(s[1..]);
    if ReadLength(s[1..]).Definite? {
      MeaningKeptDefinite(s, t);
    } else {
      MeaningKeptToEnd(s[2..]);
      GrowthToEnd(s[2..]);
      ParseEncoded(s[0], ReencodeToEnd(s[2..]).value.0, t);
    }
  }

  lemma EncodedNotEmpty(s: seq<byte>)
    ensures var r := Reencode(s); r.Some? ==> |r.value.0| > 0
  {
  }

  lemma {:induction false} MeaningKeptToEnd(s: seq<byte>)
    requires ParseToEnd(s).Some? && 5 * |s| < LWORD
    ensures var r := ReencodeToEnd(s);
            && r.Some? && r.value.1 == ParseToEnd(s).value.1
            && ParseAll(r.value.0) == Some(ParseToEnd(s).value.0)
    decreases |s|, 1
  {
    if !AtEnd(s) {
      var first := Parse(s).value;
      MeaningKeptToEnd(s[first.1..]);
      var rest := ReencodeToEnd(s[first.1..]).value.0;
      MeaningKept(s, rest);
      var out := Reencode(s).value.0;
      assert (out + rest)[|out|..] == rest;
      EncodedNotEmpty(s);
    }
  }

  /** The output is in definite form, with contents that are kept as they are if they were definite. */
  lemma OutputDefinite(s: seq<byte>)
    requires Reencode(s).Some?
    ensures exists contents :: Reencode(s).value.0 == Encode(s[0], contents)
    ensures var r := ReadLength(s[1..]);
            r.Definite? ==>
              && 1 + r.used + r.length <= |s|
              && Reencode(s).value.0 == Encode(s[0], s[1 + r.used..1 + r.used + r.length])
  {
    hide Encode, ReadLength, ReencodeToEnd;
    ReadLengthBounds(s[1..]);
    var r := ReadLength(s[1..]);
    if r.Indefinite? {
      assert Reencode(s).value.0 == Encode(s[0], ReencodeToEnd(s[2..]).value.0);
    } else {
      assert Reencode(s).value.0 == Encode(s[0], s[1 + r.used..1 + r.used + r.length]);
    }
  }

  /** Re-encoding once more changes nothing. */
  lemma ReencodeTwice(s: seq<byte>, t: seq<byte>)
    requires Reencode(s).Some? && 5 * |s| < LWORD
    ensures var out := Reencode(s).value.0; Reencode(out + t) == Some((out, |out|))
  {
    hide Encode, ReadLength;
    OutputDefinite(s);
    Growth(s);
    var out := Reencode(s).value.0;
    var contents :| out == Encode(s[0], contents);
    EncodeLength(s[0], contents);
    ReadBack(s[0], contents, t);
  }

  // ---------------------------------------------------------------- the form of the output

  /** Elements that all have a definite length, at every depth. */
  predicate DefiniteAll(s: seq<byte>)
    decreases |s|
  {
    if s == [] then true
    else
      ReadLengthBounds(s[1..]);
      match ReadLength(s[1..])
      case Definite(n, used) =>
        && 1 + used + n <= |s|
        && (IsConstructed(s[0]) ==> DefiniteAll(s[1 + used..1 + used + n]))
        && DefiniteAll(s[1 + used + n..])
      case _ => false
  }

  /** How long the element at the front of `s` is, if it has no indefinite length inside definite contents. */
  function CleanLength(s: seq<byte>): (r: Option<nat>)
    ensures r.Some? ==> 2 <= r.value <= |s|
    decreases |s|, 0
  {
    if s == [] then None
    else
      ReadLengthBounds(s[1..]);
      match ReadLength(s[1..])
      case Definite(n, used) =>
        if 1 + used + n > |s| then None
        else if IsConstructed(s[0]) && !DefiniteAll(s[1 + used..1 + used + n]) then None
        else Some(1 + used + n)
      case Indefinite =>
        if !IsConstructed(s[0]) then None
        else
          var r := CleanLengthToEnd(s[2..]);
          if r.None? then None else Some(2 + r.value)
      case _ => None
  }

  function CleanLengthToEnd(s: seq<byte>): (r: Option<nat>)
    ensures r.Some? ==> 2 <= r.value <= |s|
    decreases |s|, 1
  {
    if AtEnd(s) then Some(2)
    else
      match CleanLength(s)
      case None => None
      case Some(first) =>
        match CleanLengthToEnd(s[first..])
        case None => None
        case Some(rest) => Some(first + rest)
  }

  lemma DefiniteAllEncoded(tag: byte, contents: seq<byte>, t: seq<byte>)
    requires |contents| < LWORD
    ensures DefiniteAll(Encode(tag, contents) + t)
            <==> (IsConstructed(tag) ==> DefiniteAll(contents)) && DefiniteAll(t)
  {
    hide Encode, ReadLength, IsConstructed;
    var out := Encode(tag, contents);
    EncodeLength(tag, contents);
    ReadBack(tag, contents, t);
    assert (out + t)[|out|..] == t;
  }

  /**
   The output has nothing but definite lengths, at every depth and whatever follows, exactly when the
   input has no indefinite length inside definite contents.
   */
  lemma {:induction false} DefiniteExactly(s: seq<byte>, t: seq<byte>)
    requires Reencode(s).Some? && 5 * |s| < LWORD
    ensures DefiniteAll(Reencode(s).value.0 + t) <==> CleanLength(s).Some? && DefiniteAll(t)
    ensures CleanLength(s).Some? ==> CleanLength(s).value == Reencode(s).value.1
    decreases |s|, 0
  {
    hide Encode, ReadLength, DefiniteAll, ReencodeToEnd, CleanLengthToEnd;
    ReadLengthBounds(s[1..]);
    var length := ReadLength(s[1..]);
    if length.Definite? {
      DefiniteAllEncoded(s[0], s[1 + length.used..1 + length.used + length.length], t);
    } else {
      DefiniteExactlyToEnd(s[2..]);
      GrowthToEnd(s[2..]);
      DefiniteAllEncoded(s[0], ReencodeToEnd(s[2..]).value.0, t);
    }
  }

  lemma {:induction false} DefiniteExactlyToEnd(s: seq<byte>)
    requires ReencodeToEnd(s).Some? && 5 * |s| < LWORD
    ensures DefiniteAll(ReencodeToEnd(s).value.0) <==> CleanLengthToEnd(s).Some?
    ensures CleanLengthToEnd(s).Some? ==> CleanLengthToEnd(s).value == ReencodeToEnd(s).value.1
    decreases |s|, 1
  {
    hide Reencode, CleanLength;
    if !AtEnd(s) {
      var n := Reencode(s).value.1;
      DefiniteExactlyToEnd(s[n..]);
      DefiniteExactly(s, ReencodeToEnd(s[n..]).value.0);
    }
  }

  /** An indefinite length that stays: a well-formed element that is put out as it is. */
  lemma IndefiniteKept()
    ensures var s: seq<byte> := [0x30, 4, 0x30, 0x80, 0, 0];
            Parse(s).Some? && Reencode(s) == Some((s, 6)) && !DefiniteAll(s)
  {
    var s: seq<byte> := [0x30, 4, 0x30, 0x80, 0, 0];
    var inner: seq<byte> := [0x30, 0x80, 0, 0];
    assert s[2..6] == inner && s[6..] == [];
    assert inner[2..] == [0, 0] && inner[4..] == [];
    assert ReadLength(s[1..]) == Definite(4, 1);
    assert ReadLength(inner[1..]) == Indefinite;
    assert Parse(inner) == Some((Constructed(0x30, []), 4));
    assert ParseAll(inner).Some?;
    assert Encode(0x30, inner) == s;
    assert !DefiniteAll(inner);
  }

  // ---------------------------------------------------------------- the queues

  function WordOf(high: nat, low: nat): nat {
    256 * high + low
  }

  class ByteQueue {
    var m_bytes: seq<byte>

    constructor ()
      ensures m_bytes == []
    {
      m_bytes := [];
    }

    method Put(b: byte)
      modifies this
      ensures m_bytes == old(m_bytes) + [b]
    {
      m_bytes := m_bytes + [b];
    }

    method Get() returns (b: Option<byte>)
      modifies this
      ensures old(m_bytes) == [] ==> b == None && m_bytes == []
      ensures old(m_bytes) != [] ==> b == Some(old(m_bytes)[0]) && m_bytes == old(m_bytes)[1..]
    {
      if m_bytes == [] {
        return None;
      }
      b := Some(m_bytes[0]);
      m_bytes := m_bytes[1..];
    }

    /** As many of the first `n` bytes as there are. */
    method TransferTo(target: ByteQueue, n: nat) returns (moved: nat)
      requires target != this
      modifies this, target
      ensures moved == if n < |old(m_bytes)| then n else |old(m_bytes)|
      ensures target.m_bytes == old(target.m_bytes) + old(m_bytes)[..moved] && m_bytes == old(m_bytes)[moved..]
    {
      moved := if n < |m_bytes| then n else |m_bytes|;
      target.m_bytes := target.m_bytes + m_bytes[..moved];
      m_bytes := m_bytes[moved..];
    }

    /** The next two bytes, if there are two: how many there are, and their value. */
    method PeekWord16() returns (count: nat, value: nat)
      ensures count == 2 && value == 0 <==> AtEnd(m_bytes)
    {
      count := if |m_bytes| < 2 then |m_bytes| else 2;
      value := if count == 2 then WordOf(m_bytes[0], m_bytes[1]) else 0;
    }
  }

  /** length >> 8 * j */
  function ShiftRight8(length: nat, j: nat): nat {
    if j == 0 then length else ShiftRight8(length, j - 1) / 256
  }

  lemma {:induction false} ShiftedPrecision(n: nat, j: nat)
    ensures BytePrecision(ShiftRight8(n, j)) == if j <= BytePrecision(n) then BytePrecision(n) - j else 0
  {
    if j > 0 {
      ShiftedPrecision(n, j - 1);
    }
  }

  lemma ShiftedOut(n: nat)
    ensures ShortestBytes(ShiftRight8(n, BytePrecision(n))) == []
  {
    ShiftedPrecision(n, BytePrecision(n));
  }

  lemma NextOctet(n: nat, j: nat)
    requires 0 < j <= BytePrecision(n)
    ensures ShortestBytes(ShiftRight8(n, j - 1)) == ShortestBytes(ShiftRight8(n, j)) + [ShiftRight8(n, j - 1) % 256]
    ensures ShiftRight8(n, 0) == n
  {
    ShiftedPrecision(n, j - 1);
  }

  method DERLengthEncode(bt: ByteQueue, length: nat) returns (i: nat)
    requires length < LWORD
    modifies bt
    ensures bt.m_bytes == old(bt.m_bytes) + LengthOctets(length) && i == |LengthOctets(length)|
  {
    hide ShortestBytes, BytePrecision;
    LengthOctetsBound(length);
    i := 0;
    if length <= 0x7f {
      bt.Put(length);
      i := i + 1;
    } else {
      bt.Put(BytePrecision(length) + 0x80);
      i := i + 1;
      var j: nat := BytePrecision(length);
      ShiftedOut(length);
      while j > 0
        invariant j <= BytePrecision(length) && i == 1 + BytePrecision(length) - j
        invariant bt.m_bytes == old(bt.m_bytes) + [BytePrecision(length) + 0x80] + ShortestBytes(ShiftRight8(length, j))
      {
        NextOctet(length, j);
        bt.Put(ShiftRight8(length, j - 1) % 256);
        i := i + 1;
        j := j - 1;
      }
    }
  }

  /** Truncated is where the source returns false, Overflow where it throws. */
  method BERLengthDecode(bt: ByteQueue) returns (r: Length)
    modifies bt
    ensures r == ReadLength(old(bt.m_bytes))
    ensures r.Definite? ==> r.used <= |old(bt.m_bytes)| && bt.m_bytes == old(bt.m_bytes)[r.used..]
    ensures r.Indefinite? ==> |old(bt.m_bytes)| > 0 && bt.m_bytes == old(bt.m_bytes)[1..]
  {
    ghost var s := bt.m_bytes;
    var b := bt.Get();
    if b == None {
      return Truncated;
    }
    if b.value < 0x80 {
      return Definite(b.value, 1);
    }
    var lengthBytes := b.value - 0x80;
    if lengthBytes == 0 {
      return Indefinite;
    }
    var length: nat, used: nat := 0, 1;
    while lengthBytes > 0
      invariant used <= |s| && bt.m_bytes == s[used..]
      invariant LongLength(length, bt.m_bytes, lengthBytes, used) == ReadLength(s)
      decreases lengthBytes
    {
      if length >= 0x100_0000_0000_0000 {
        return Overflow;
      }
      b := bt.Get();
      if b == None {
        return Truncated;
      }
      length := WordOf(length, b.value);
      lengthBytes := lengthBytes - 1;
      used := used + 1;
    }
    return Definite(length, used);
  }

  /** Reads one element of the queue.  A decoder within an indefinite one reads on in the same queue. */
  class BERGeneralDecoder {
    const m_inQueue: ByteQueue
    var m_definiteLength: bool
    var m_length: nat

    constructor (inQueue: ByteQueue)
      ensures m_inQueue == inQueue
    {
      m_inQueue := inQueue;
      m_definiteLength, m_length := false, 0;
    }

    /** The identifier and the length; false where the source throws. */
    method Init(asnTag: byte) returns (ok: bool)
      modifies this, m_inQueue
      ensures var s := old(m_inQueue.m_bytes);
              var r := if s == [] then Truncated else ReadLength(s[1..]);
              && (ok <==> s != [] && s[0] == asnTag && (r.Definite? || (r.Indefinite? && IsConstructed(asnTag))))
              && (ok && r.Definite? ==>
                    && m_definiteLength && m_length == r.length
                    && 1 + r.used <= |s| && m_inQueue.m_bytes == s[1 + r.used..])
              && (ok && r.Indefinite? ==> !m_definiteLength && |s| >= 2 && m_inQueue.m_bytes == s[2..])
    {
      ghost var s := m_inQueue.m_bytes;
      var b := m_inQueue.Get();
      if b == None || b.value != asnTag {
        return false;
      }
      var r := BERLengthDecode(m_inQueue);
      match r {
        case Definite(n, used) =>
          m_definiteLength, m_length := true, n;
          assert s[1..][used..] == s[1 + used..];
          return true;
        case Indefinite =>
          m_definiteLength := false;
          assert s[1..][1..] == s[2..];
          return IsConstructed(asnTag);
        case _ =>
          return false;
      }
    }

    method EndReached() returns (r: bool)
      ensures r == if m_definiteLength then m_length == 0 else AtEnd(m_inQueue.m_bytes)
    {
      if m_definiteLength {
        return m_length == 0;
      }
      var count, value := m_inQueue.PeekWord16();
      return count == 2 && value == 0;
    }

    /** At most what is left of definite contents, or of the queue. */
    method TransferTo(target: ByteQueue, transferBytes: nat)
      requires target != m_inQueue
      modifies this`m_length, m_inQueue, target
      ensures var n := if m_definiteLength && transferBytes > old(m_length) then old(m_length) else transferBytes;
              var moved := if n < |old(m_inQueue.m_bytes)| then n else |old(m_inQueue.m_bytes)|;
              && (m_definiteLength ==> m_length == old(m_length) - moved)
              && m_inQueue.m_bytes == old(m_inQueue.m_bytes)[moved..]
              && target.m_bytes == old(target.m_bytes) + old(m_inQueue.m_bytes)[..moved]
    {
      var n := if m_definiteLength && transferBytes > m_length then m_length else transferBytes;
      var moved := m_inQueue.TransferTo(target, n);
      ReduceLength(moved);
    }

    /** Contents of indefinite length have no remaining length to reduce. */
    method ReduceLength(delta: nat)
      requires m_definiteLength ==> delta <= m_length
      modifies this`m_length
      ensures m_length == if m_definiteLength then old(m_length) - delta else old(m_length)
    {
      if m_definiteLength {
        m_length := m_length - delta;
      }
    }

    method MessageEnd() returns (ok: bool)
      modifies m_inQueue
      ensures ok <==> if m_definiteLength then m_length == 0 else AtEnd(old(m_inQueue.m_bytes))
      ensures ok ==>
                m_inQueue.m_bytes == if m_definiteLength then old(m_inQueue.m_bytes) else old(m_inQueue.m_bytes)[2..]
    {
      if m_definiteLength {
        return m_length == 0;
      }
      var count, value := m_inQueue.PeekWord16();
      var _ := m_inQueue.Get();
      var _ := m_inQueue.Get();
      return count == 2 && value == 0;
    }
  }

  /** Gathers the contents of one element, and puts it out when it is complete. */
  class DERGeneralEncoder {
    const m_contents: ByteQueue
    const m_outQueue: ByteQueue
    const m_asnTag: byte

    constructor (outQueue: ByteQueue, asnTag: byte)
      ensures m_outQueue == outQueue && m_asnTag == asnTag && fresh(m_contents) && m_contents.m_bytes == []
    {
      m_outQueue, m_asnTag := outQueue, asnTag;
      m_contents := new ByteQueue();
    }

    method MessageEnd()
      requires m_contents != m_outQueue
      modifies m_contents, m_outQueue
      ensures m_outQueue.m_bytes == old(m_outQueue.m_bytes) + Encode(m_asnTag, old(m_contents.m_bytes))
    {
      hide LengthOctets;
      var length := |m_contents.m_bytes| % LWORD;
      m_outQueue.Put(m_asnTag);
      var _ := DERLengthEncode(m_outQueue, length);
      var _ := m_contents.TransferTo(m_outQueue, |m_contents.m_bytes|);
    }
  }

  /** Re-encodes the element at the front of the queue; false where the source throws. */
  method DERReencode(source: ByteQueue, dest: ByteQueue) returns (ok: bool)
    requires source != dest
    modifies source, dest
    ensures var r := Reencode(old(source.m_bytes));
            && (ok <==> r.Some?)
            && (ok ==>
                  && dest.m_bytes == old(dest.m_bytes) + r.value.0
                  && source.m_bytes == old(source.m_bytes)[r.value.1..])
    decreases |source.m_bytes|, 0
  {
    hide Encode, ReadLength, ReencodeToEnd;
    ghost var s := source.m_bytes;
    if source.m_bytes == [] {
      return false;
    }
    ReadLengthBounds(s[1..]);
    var tag := source.m_bytes[0];
    var decoder := new BERGeneralDecoder(source);
    ok := decoder.Init(tag);
    if !ok {
      return;
    }
    var encoder := new DERGeneralEncoder(dest, tag);
    ghost var r := ReadLength(s[1..]);
    if decoder.m_definiteLength {
      decoder.TransferTo(encoder.m_contents, decoder.m_length);
      if decoder.m_length == 0 {
        assert s[1 + r.used..][..r.length] == s[1 + r.used..1 + r.used + r.length];
        assert s[1 + r.used..][r.length..] == s[1 + r.used + r.length..];
        assert encoder.m_contents.m_bytes == s[1 + r.used..1 + r.used + r.length];
      }
    } else {
      ok := ReencodeContents(decoder, encoder);
      if !ok {
        return;
      }
      ghost var m := ReencodeToEnd(s[2..]).value.1;
      assert s[2..][m - 2..][2..] == s[2 + m..];
    }
    ok := decoder.MessageEnd();
    encoder.MessageEnd();
  }

  /** After `used` bytes of `s` have become `out`, the rest decides what becomes of `s`. */
  ghost predicate ContinuesTo(s: seq<byte>, out: seq<byte>, used: nat) {
    used <= |s| &&
    var r := ReencodeToEnd(s[used..]);
    ReencodeToEnd(s) == if r.None? then None else Some((out + r.value.0, used + r.value.1))
  }

  lemma NothingUsed(s: seq<byte>)
    ensures ContinuesTo(s, [], 0)
  {
    assert s[0..] == s;
    var r := ReencodeToEnd(s);
    if r.Some? {
      assert [] + r.value.0 == r.value.0;
    }
  }

  lemma ContinuesOn(s: seq<byte>, out: seq<byte>, used: nat)
    requires ContinuesTo(s, out, used) && !AtEnd(s[used..])
    ensures var r := Reencode(s[used..]);
            && (r.None? ==> ReencodeToEnd(s) == None)
            && (r.Some? ==>
                  && ContinuesTo(s, out + r.value.0, used + r.value.1)
                  && s[used..][r.value.1..] == s[used + r.value.1..])
  {
    hide Reencode;
    var r := Reencode(s[used..]);
    if r.Some? {
      assert s[used..][r.value.1..] == s[used + r.value.1..];
      var rest := ReencodeToEnd(s[used + r.value.1..]);
      if rest.Some? {
        assert out + (r.value.0 + rest.value.0) == (out + r.value.0) + rest.value.0;
      }
    }
  }

  /** The elements up to the end-of-contents octets, which stay in the queue. */
  method ReencodeContents(decoder: BERGeneralDecoder, encoder: DERGeneralEncoder) returns (ok: bool)
    requires !decoder.m_definiteLength && decoder.m_inQueue != encoder.m_contents && encoder.m_contents.m_bytes == []
    modifies decoder.m_inQueue, encoder.m_contents
    ensures var s := old(decoder.m_inQueue.m_bytes);
            var r := ReencodeToEnd(s);
            && (ok <==> r.Some?)
            && (ok ==> && encoder.m_contents.m_bytes == r.value.0
                       && decoder.m_inQueue.m_bytes == s[r.value.1 - 2..] && AtEnd(decoder.m_inQueue.m_bytes))
    decreases |decoder.m_inQueue.m_bytes|, 1
  {
    hide Reencode;
    var source, dest := decoder.m_inQueue, encoder.m_contents;
    ghost var s, used: nat := source.m_bytes, 0;
    NothingUsed(s);
    var end := decoder.EndReached();
    while !end
      invariant used <= |s| && source.m_bytes == s[used..] && end == AtEnd(source.m_bytes)
      invariant ContinuesTo(s, dest.m_bytes, used)
      decreases |source.m_bytes|
    {
      ContinuesOn(s, dest.m_bytes, used);
      ok := DERReencode(source, dest);
      if !ok {
        return;
      }
      used := |s| - |source.m_bytes|;
      end := decoder.EndReached();
    }
    ok := true;
    assert dest.m_bytes + [] == dest.m_bytes;
  }
}
