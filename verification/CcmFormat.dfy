/**
 The blocks over which CCM computes its code: section 2.2 of RFC 3610.  Different inputs have
 different blocks.
 */
module CcmFormat {
  import opened Integers
  import opened Bytes
  import opened BlockTransformations

  function ByteOf(n: nat): bv8 {
    (n % 256) as bv8
  }

  /** The `k` low bytes of `n`, the highest first. */
  function BigEndian(n: nat, k: nat): (s: seq<bv8>)
    ensures |s| == k
  {
    if k == 0 then [] else BigEndian(n / 256, k - 1) + [ByteOf(n)]
  }

  /** The flags: is there a header, the size of the tag, and the size of the length field. */
  function Flags(hasHeader: bool, t: nat, L: nat): bv8
    requires t >= 2 && L >= 1
  {
    ByteOf((if hasHeader then 64 else 0) + 8 * ((t - 2) / 2) + (L - 1))
  }

  function MaxMessageLength(L: nat): nat {
    Power256(L) - 1
  }

  predicate IsNonce(nonce: seq<bv8>) {
    7 <= |nonce| <= 13
  }

  predicate IsTagSize(t: nat) {
    t % 2 == 0 && 4 <= t <= 16
  }

  function FirstBlock(t: nat, nonce: seq<bv8>, hasHeader: bool, messageLength: nat): (s: seq<bv8>)
    requires IsNonce(nonce) && t >= 2
    ensures |s| == 16
  {
    [Flags(hasHeader, t, 15 - |nonce|)] + nonce + BigEndian(messageLength, 15 - |nonce|)
  }

  /** The length of the header, in one of three forms. */
  function EncodedLength(n: nat): seq<bv8> {
    if n < 0xff00 then BigEndian(n, 2)
    else if n < 0x1_0000_0000 then [0xff, 0xfe] + BigEndian(n, 4)
    else [0xff, 0xff] + BigEndian(n, 8)
  }

  function PadLength(n: nat): (k: nat)
    ensures k < 16 && (n + k) % 16 == 0
  {
    (16 - n % 16) % 16
  }

  function PadZeros(s: seq<bv8>): seq<bv8> {
    s + Zeros(PadLength(|s|))
  }

  function HeaderBlocks(header: seq<bv8>): seq<bv8> {
    if header == [] then [] else PadZeros(EncodedLength(|header|) + header)
  }

  function Format(t: nat, nonce: seq<bv8>, header: seq<bv8>, message: seq<bv8>): seq<bv8>
    requires IsNonce(nonce) && t >= 2
  {
    FirstBlock(t, nonce, header != [], |message|) + HeaderBlocks(header) + PadZeros(message)
  }

  // ---------------------------------------------------------------- the fields of the blocks

  lemma ByteValue(a: nat)
    requires a < 256
    ensures ByteOf(a) as int == a
  {
  }

  lemma LowByte(n: nat)
    ensures ByteOf(n) as int == n % 256
  {
    ByteValue(n % 256);
  }

  lemma SplitLowByte(n: nat, p: nat)
    requires p > 0
    ensures n % (256 * p) == 256 * ((n / 256) % p) + n % 256
  {
    var q := n / 256;
    DivisionIdentity(q, p);
    assert n == (q / p) * (256 * p) + (256 * (q % p) + n % 256) by {
      assert 256 * ((q / p) * p) == (q / p) * (256 * p);
    }
    DivModUnique(n, 256 * p, q / p, 256 * (q % p) + n % 256);
  }

  /** Read as a number again, the bytes are as much of `n` as goes into them. */
  lemma {:induction false} BigEndianRead(n: nat, k: nat)
    ensures NumberOf(BigEndian(n, k)) == n % Power256(k)
  {
    hide ByteOf;
    if k == 0 {
      NumberOfNothing();
      DivModUnique(n, 1, n, 0);
    } else {
      BigEndianRead(n / 256, k - 1);
      NumberOfAppend(BigEndian(n / 256, k - 1), ByteOf(n));
      LowByte(n);
      SplitLowByte(n, Power256(k - 1));
    }
  }

  lemma NumberFits(n: nat, k: nat)
    ensures NumberOf(BigEndian(n, k)) == n <==> n < Power256(k)
  {
    BigEndianRead(n, k);
    if n < Power256(k) {
      DivModUnique(n, Power256(k), 0, n);
    }
  }

  lemma FlagsNumber(f: nat, h: nat, m: nat, l: nat)
    requires h < 2 && m < 8 && l < 8 && f == 64 * h + 8 * m + l
    ensures f % 8 == l && (f / 8) % 8 == m && f / 64 == h && f < 256
  {
  }

  /**
   The first block, read by its fields: from the lowest bits of the first byte up, the size of the length
   field less one, half the size of the tag less one, and whether there is a header; then the nonce; then
   the length of the message, which is all there exactly for an admissible length.
   */
  lemma FirstBlockFields(t: nat, nonce: seq<bv8>, hasHeader: bool, messageLength: nat)
    requires IsTagSize(t) && IsNonce(nonce)
    ensures var b, L := FirstBlock(t, nonce, hasHeader, messageLength), 15 - |nonce|;
            var f := b[0] as int;
            && f % 8 == L - 1 && (f / 8) % 8 == (t - 2) / 2 && f / 64 == (if hasHeader then 1 else 0)
            && b[1..16 - L] == nonce
            && NumberOf(b[16 - L..]) == messageLength % Power256(L)
            && (NumberOf(b[16 - L..]) == messageLength <==> messageLength <= MaxMessageLength(L))
  {
    hide ByteOf, BigEndian;
    var b, L := FirstBlock(t, nonce, hasHeader, messageLength), 15 - |nonce|;
    var h := if hasHeader then 1 else 0;
    FlagsNumber(64 * h + 8 * ((t - 2) / 2) + (L - 1), h, (t - 2) / 2, L - 1);
    ByteValue(64 * h + 8 * ((t - 2) / 2) + (L - 1));
    assert b[16 - L..] == BigEndian(messageLength, L);
    BigEndianRead(messageLength, L);
    NumberFits(messageLength, L);
  }

  lemma TwoBytes(a: bv8, b: bv8)
    ensures NumberOf([a, b]) == 256 * (a as int) + (b as int)
  {
    NumberOfNothing();
    NumberOfAppend([], a);
    NumberOfAppend([a], b);
    assert [] + [a] == [a] && [a] + [b] == [a, b];
  }

  /** The length of a header: two bytes, or 0xfffe and four bytes, or 0xffff and eight. */
  lemma EncodedLengthFields(n: nat)
    requires n < LWORD
    ensures var s := EncodedLength(n);
            if n < 65280 then |s| == 2 && NumberOf(s) == n < 65280
            else if n < 4294967296 then |s| == 6 && NumberOf(s[..2]) == 65534 && NumberOf(s[2..]) == n
            else |s| == 10 && NumberOf(s[..2]) == 65535 && NumberOf(s[2..]) == n
  {
    hide BigEndian;
    var s := EncodedLength(n);
    Powers256();
    NumberFits(n, 2);
    NumberFits(n, 4);
    NumberFits(n, 8);
    TwoBytes(0xff, 0xfe);
    TwoBytes(0xff, 0xff);
    if n >= 0x1_0000_0000 {
      assert s[..2] == [0xff, 0xff] && s[2..] == BigEndian(n, 8);
    } else if n >= 0xff00 {
      assert s[..2] == [0xff, 0xfe] && s[2..] == BigEndian(n, 4);
    }
  }

  lemma PadLengthRoundsUp(n: nat)
    ensures n + PadLength(n) == 16 * ((n + 15) / 16)
  {
  }

  lemma ThreeParts(b: seq<bv8>, p: seq<bv8>, q: seq<bv8>, h: seq<bv8>, m: seq<bv8>)
    requires |b| == 16 && |p| >= |h| && |q| >= |m|
    requires p == h + Zeros(|p| - |h|) && q == m + Zeros(|q| - |m|)
    ensures var s, a := b + p + q, 16 + |p|;
            && |s| == a + |q| && s[..16] == b
            && s[16..16 + |h|] == h && (forall i :: 16 + |h| <= i < a ==> s[i] == 0)
            && s[a..a + |m|] == m && (forall i :: a + |m| <= i < |s| ==> s[i] == 0)
  {
    var s, a := b + p + q, 16 + |p|;
    assert s[..a] == b + p && s[a..] == q;
    assert s[16..a] == p;
    forall i | 16 + |h| <= i < a
      ensures s[i] == 0
    {
      assert s[i] == p[i - 16];
    }
    assert s[16..16 + |h|] == p[..|h|];
    forall i | a + |m| <= i < |s|
      ensures s[i] == 0
    {
      assert s[i] == q[i - a];
    }
    assert s[a..a + |m|] == q[..|m|];
  }

  /** Where everything stands: header and message each begin a block, and zeros complete their last blocks. */
  lemma FormatLayout(t: nat, nonce: seq<bv8>, header: seq<bv8>, message: seq<bv8>)
    requires IsNonce(nonce) && t >= 2
    ensures var s := Format(t, nonce, header, message);
            var h := if header == [] then [] else EncodedLength(|header|) + header;
            var a := 16 + 16 * ((|h| + 15) / 16);
            && |s| == a + 16 * ((|message| + 15) / 16)
            && s[..16] == FirstBlock(t, nonce, header != [], |message|)
            && s[16..16 + |h|] == h && (forall i :: 16 + |h| <= i < a ==> s[i] == 0)
            && s[a..a + |message|] == message && (forall i :: a + |message| <= i < |s| ==> s[i] == 0)
  {
    hide FirstBlock, EncodedLength, PadLength;
    var h := if header == [] then [] else EncodedLength(|header|) + header;
    PadLengthRoundsUp(|h|);
    PadLengthRoundsUp(|message|);
    if header == [] {
      assert HeaderBlocks(header) == h + Zeros(0);
    }
    ThreeParts(FirstBlock(t, nonce, header != [], |message|), HeaderBlocks(header), PadZeros(message), h, message);
  }

  // ---------------------------------------------------------------- different inputs, different blocks

  lemma ByteOfInjective(a: nat, b: nat)
    requires a < 256 && b < 256 && ByteOf(a) == ByteOf(b)
    ensures a == b
  {
    ByteValue(a);
    ByteValue(b);
  }

  lemma ByteModulo(n: nat)
    ensures ByteOf(n) == ByteOf(n % 256)
  {
  }

  lemma {:induction false} BigEndianInjective(m: nat, n: nat, k: nat)
    requires m < Power256(k) && n < Power256(k) && BigEndian(m, k) == BigEndian(n, k)
    ensures m == n
  {
    hide ByteOf;
    if k > 0 {
      var a, b := BigEndian(m / 256, k - 1), BigEndian(n / 256, k - 1);
      assert BigEndian(m, k)[..k - 1] == a && BigEndian(n, k)[..k - 1] == b;
      BigEndianInjective(m / 256, n / 256, k - 1);
      assert BigEndian(m, k)[k - 1] == ByteOf(m) && BigEndian(n, k)[k - 1] == ByteOf(n);
      ByteModulo(m);
      ByteModulo(n);
      ByteOfInjective(m % 256, n % 256);
    }
  }

  /** The first byte of a short length tells it from the longer forms. */
  lemma ShortLength(n: nat)
    requires n < 0xff00
    ensures EncodedLength(n)[0] != 0xff
  {
    hide ByteOf;
    assert BigEndian(n, 2) == BigEndian(n / 256, 1) + [ByteOf(n)];
    assert BigEndian(n / 256, 1) == BigEndian(n / 256 / 256, 0) + [ByteOf(n / 256)];
    ByteValue(n / 256);
  }

  lemma EncodedLengthSizes(n: nat)
    ensures |EncodedLength(n)| == if n < 0xff00 then 2 else if n < 0x1_0000_0000 then 6 else 10
  {
  }

  /** The encoded length can be told from what follows it. */
  lemma LengthsDiffer(m: nat, n: nat, s: seq<bv8>, t: seq<bv8>)
    requires m < LWORD && n < LWORD && EncodedLength(m) + s == EncodedLength(n) + t
    ensures m == n && s == t
  {
    hide BigEndian;
    Powers256();
    var p, q := EncodedLength(m), EncodedLength(n);
    EncodedLengthSizes(m);
    EncodedLengthSizes(n);
    assert (p + s)[0] == p[0] && (q + t)[0] == q[0] && (p + s)[1] == p[1] && (q + t)[1] == q[1];
    if m < 0xff00 {
      ShortLength(m);
    }
    if n < 0xff00 {
      ShortLength(n);
    }
    assert |p| == |q|;
    assert (p + s)[..|p|] == p && (q + t)[..|q|] == q && (p + s)[|p|..] == s && (q + t)[|q|..] == t;
    if m < 0xff00 {
      BigEndianInjective(m, n, 2);
    } else if m < 0x1_0000_0000 {
      assert p[2..] == BigEndian(m, 4) && q[2..] == BigEndian(n, 4);
      BigEndianInjective(m, n, 4);
    } else {
      assert p[2..] == BigEndian(m, 8) && q[2..] == BigEndian(n, 8);
      BigEndianInjective(m, n, 8);
    }
  }

  lemma FlagsDiffer(h: bool, h': bool, t: nat, L: nat)
    requires IsTagSize(t) && 2 <= L <= 8 && Flags(h, t, L) == Flags(h', t, L)
    ensures h == h'
  {
    hide ByteOf;
    var c := 8 * ((t - 2) / 2) + (L - 1);
    assert c < 64;
    ByteOfInjective((if h then 64 else 0) + c, (if h' then 64 else 0) + c);
  }

  lemma FirstBlocksDiffer(t: nat, nonce: seq<bv8>, h: bool, m: nat, nonce': seq<bv8>, h': bool, m': nat)
    requires IsTagSize(t) && IsNonce(nonce) && |nonce'| == |nonce|
    requires m < Power256(15 - |nonce|) && m' < Power256(15 - |nonce|)
    requires FirstBlock(t, nonce, h, m) == FirstBlock(t, nonce', h', m')
    ensures nonce == nonce' && h == h' && m == m'
  {
    hide Flags, BigEndian;
    var k := |nonce|;
    var p, q := FirstBlock(t, nonce, h, m), FirstBlock(t, nonce', h', m');
    assert p[0] == Flags(h, t, 15 - k) && q[0] == Flags(h', t, 15 - k);
    assert p[1..1 + k] == nonce && q[1..1 + k] == nonce';
    assert p[1 + k..] == BigEndian(m, 15 - k) && q[1 + k..] == BigEndian(m', 15 - k);
    FlagsDiffer(h, h', t, 15 - k);
    BigEndianInjective(m, m', 15 - k);
  }

  lemma Front(p: seq<bv8>, q: seq<bv8>, p': seq<bv8>, q': seq<bv8>)
    requires p + q == p' + q' && |p| == |p'|
    ensures p == p' && q == q'
  {
    assert (p + q)[..|p|] == p && (p' + q')[..|p'|] == p';
    assert (p + q)[|p|..] == q && (p' + q')[|p'|..] == q';
  }

  lemma Grouped(s: seq<bv8>, t: seq<bv8>, u: seq<bv8>)
    ensures (s + t) + u == s + (t + u)
  {
  }

  lemma PaddedDiffer(s: seq<bv8>, t: seq<bv8>)
    requires |s| == |t| && PadZeros(s) == PadZeros(t)
    ensures s == t
  {
    Front(s, Zeros(PadLength(|s|)), t, Zeros(PadLength(|t|)));
  }

  lemma HeaderParts(l: seq<bv8>, header: seq<bv8>, z: seq<bv8>, s: seq<bv8>)
    ensures ((l + header) + z) + s == l + (header + (z + s))
  {
    Grouped(l + header, z, s);
    Grouped(l, header, z + s);
  }

  lemma HeadersDiffer(header: seq<bv8>, s: seq<bv8>, header': seq<bv8>, s': seq<bv8>)
    requires header != [] && header' != [] && |header| < LWORD && |header'| < LWORD
    requires HeaderBlocks(header) + s == HeaderBlocks(header') + s'
    ensures header == header'
  {
    hide EncodedLength, PadLength;
    var l, l' := EncodedLength(|header|), EncodedLength(|header'|);
    var z, z' := Zeros(PadLength(|l + header|)), Zeros(PadLength(|l' + header'|));
    HeaderParts(l, header, z, s);
    HeaderParts(l', header', z', s');
    LengthsDiffer(|header|, |header'|, header + (z + s), header' + (z' + s'));
    Front(header, z + s, header', z' + s');
  }

  /** Of two inputs with nonces of one size, both within bounds, the blocks agree only if the inputs do. */
  lemma FormatInjective(t: nat, nonce: seq<bv8>, header: seq<bv8>, message: seq<bv8>,
      nonce': seq<bv8>, header': seq<bv8>, message': seq<bv8>)
    requires IsTagSize(t) && IsNonce(nonce) && |nonce'| == |nonce|
    requires |header| < LWORD && |header'| < LWORD
    requires |message| < Power256(15 - |nonce|) && |message'| < Power256(15 - |nonce|)
    requires Format(t, nonce, header, message) == Format(t, nonce', header', message')
    ensures nonce == nonce' && header == header' && message == message'
  {
    hide FirstBlock, HeaderBlocks, PadZeros;
    var b, b' := FirstBlock(t, nonce, header != [], |message|), FirstBlock(t, nonce', header' != [], |message'|);
    var h, h', m, m' := HeaderBlocks(header), HeaderBlocks(header'), PadZeros(message), PadZeros(message');
    Grouped(b, h, m);
    Grouped(b', h', m');
    Front(b, h + m, b', h' + m');
    FirstBlocksDiffer(t, nonce, header != [], |message|, nonce', header' != [], |message'|);
    if header != [] {
      HeadersDiffer(header, m, header', m');
    }
    Front(h, m, h', m');
    PaddedDiffer(message, message');
  }
}
