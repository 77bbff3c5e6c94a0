/**
 The text of basecode.cpp bit by bit (sections 4 to 8 of RFC 4648): which bits of a message a character
 stands for, how long a text is, and where separators stand.
 */
module BaseCodeTexts {
  import opened Integers
  import opened Bytes
  import opened BitGroups
  import opened BaseCode

  // ---------------------------------------------------------------- bits

  lemma HalfBit(v: nat, k: nat)
    ensures GetBit(v / 2, k) == GetBit(v, k + 1)
  {
    ShrShr(v, 1, k);
    assert Shr(v, 1) == Shr(v, 0) / 2;
  }

  lemma LowestBit(v: nat)
    ensures GetBit(v, 0) == (v % 2 == 1)
  {
  }

  lemma {:induction false} BitAt(v: nat, w: nat, k: nat)
    requires k < w
    ensures Bits(v, w)[k] == GetBit(v, w - 1 - k)
  {
    hide GetBit;
    if k < w - 1 {
      BitAt(v / 2, w - 1, k);
      HalfBit(v, w - 2 - k);
    } else {
      LowestBit(v);
    }
  }

  lemma ValueBit(s: seq<bool>, k: nat)
    requires k < |s|
    ensures GetBit(Value(s), |s| - 1 - k) == s[k]
  {
    hide Value, GetBit, Bits;
    BitsOfValue(s);
    BitAt(Value(s), |s|, k);
  }

  lemma NextGroup(i: nat, w: nat)
    requires w > 0 && i >= w
    ensures (i - w) / w == i / w - 1 && (i - w) % w == i % w
  {
    DivModUnique(i - w, w, i / w - 1, i % w);
  }

  /** The bits of groups, the highest bit of the first group first. */
  lemma {:induction false} GroupBit(values: seq<nat>, w: nat, i: nat)
    requires w > 0 && i < |GroupBits(values, w)|
    ensures i / w < |values| && GroupBits(values, w)[i] == GetBit(values[i / w], w - 1 - i % w)
    decreases |values|
  {
    hide Bits, GroupBits, GetBit;
    if values == [] {
      GroupBitsNone(w);
    } else {
      GroupBitsStep(values, w);
      if i < w {
        BitAt(values[0], w, i);
        DivModUnique(i, w, 0, i);
      } else {
        GroupBit(values[1..], w, i - w);
        NextGroup(i, w);
      }
    }
  }

  /** How many characters of `w` bits are needed for `n` bytes. */
  function CharactersFor(n: nat, w: nat): nat
    requires w > 0
  {
    (8 * n + w - 1) / w
  }

  lemma RoundedUp(m: nat, w: nat)
    requires w > 0
    ensures (m + w - 1) / w == m / w + (if m % w > 0 then 1 else 0)
  {
    var q, r := m / w, m % w;
    if r > 0 {
      DivModUnique(m + w - 1, w, q + 1, r - 1);
    } else {
      DivModUnique(m + w - 1, w, q, w - 1);
    }
  }

  lemma ValueCount(w: nat, message: seq<byte>)
    requires IsBase(w)
    ensures |MessageValues(w, message)| == CharactersFor(|message|, w)
  {
    hide Groups, GroupBits;
    GroupBitsLength(message, 8);
    GroupCount(GroupBits(message, 8), w);
    RoundedUp(8 * |message|, w);
  }

  lemma Place(bits: seq<bool>, w: nat, j: nat)
    requires w > 0 && j < |Groups(bits, w)|
    ensures Groups(bits, w)[j] == Slot(bits, w, j)
  {
    hide Groups, Slot;
    GroupsAreSlots(bits, w, |bits| / w, |bits| % w);
  }

  /** Bit `i` of a message, or a zero behind its end. */
  predicate BitOf(message: seq<byte>, i: nat) {
    i < 8 * |message| && GetBit(message[i / 8], 7 - i % 8)
  }

  predicate SameBit(v: nat, w: nat, message: seq<byte>, i: nat, k: nat)
    requires k < w
  {
    GetBit(v, w - 1 - k) == BitOf(message, i + k)
  }

  /** Character `j` stands for bits j * w to j * w + w - 1 of the message, the first of them on top. */
  lemma CharacterBits(alphabet: seq<byte>, w: nat, padding: int, message: seq<byte>, j: nat) returns (v: nat)
    requires IsBase(w) && |alphabet| == Pow2(w) && -1 <= padding < 256 && j < CharactersFor(|message|, w)
    ensures v < |alphabet|
    ensures var text := EncodedText(alphabet, w, padding, message);
            j < |text| && text[j] == alphabet[v]
    ensures j * w >= 0 && forall k :: 0 <= k < w ==> SameBit(v, w, message, j * w, k)
  {
    hide Groups, GroupBits, GetBit, Value, PadCount;
    ValueCount(w, message);
    ValuesSmall(w, message);
    var bits := GroupBits(message, 8);
    v := MessageValues(w, message)[j];
    Place(bits, w, j);
    MulLe(0, j, w);
    GroupBitsLength(message, 8);
    var window := Window(bits, j * w, w);
    forall k | 0 <= k < w
      ensures SameBit(v, w, message, j * w, k)
    {
      ValueBit(window, k);
      if j * w + k < 8 * |message| {
        GroupBit(message, 8, j * w + k);
      }
    }
  }

  lemma SlotBit(bits: seq<bool>, j: nat, k: nat)
    requires k < 8 && 8 * j + k < |bits|
    ensures GetBit(Slot(bits, 8, j), 7 - k) == bits[8 * j + k]
  {
    hide GetBit, Value;
    ValueBit(Window(bits, j * 8, 8), k);
  }

  /**
   A text stands for as many bytes as its characters' bits fill; bit `k` of byte `j`, from the top, is bit
   8 * j + k of the characters' values.
   */
  lemma DecodedBits(lookup: seq<int>, w: nat, text: seq<byte>, j: nat, k: nat)
    requires w > 0 && |lookup| == 256 && k < 8 && j < |DecodedText(lookup, w, text)|
    ensures |DecodedText(lookup, w, text)| == |Values(lookup, text)| * w / 8
    ensures var i, values := 8 * j + k, Values(lookup, text);
            && i / w < |values|
            && GetBit(DecodedText(lookup, w, text)[j], 7 - k) == GetBit(values[i / w], w - 1 - i % w)
  {
    hide WholeGroups, GroupBits, GetBit, Value, Values, Slot;
    var values := Values(lookup, text);
    var bits := GroupBits(values, w);
    GroupBitsLength(values, w);
    GroupsAreSlots(bits, 8, |bits| / 8, |bits| % 8);
    var i := 8 * j + k;
    SlotBit(bits, j, k);
    GroupBit(values, w, i);
  }

  /** Characters without a value are skipped, all others count in their order. */
  lemma ValuesOf(lookup: seq<int>, c: byte, text: seq<byte>)
    requires |lookup| == 256
    ensures Values(lookup, []) == []
    ensures Values(lookup, [c] + text)
            == (if 0 <= lookup[c] < 256 then [lookup[c]] else []) + Values(lookup, text)
  {
    assert ([c] + text)[1..] == text;
  }

  // ---------------------------------------------------------------- lengths

  lemma CharactersInBlock(w: nat)
    requires IsBase(w)
    ensures BlockBits(w) / w == if w == 2 || w == 6 then 4 else if w == 4 then 2 else 8
  {
    if w == 3 {
    } else if w == 5 {
    } else if w == 7 {
    }
  }

  /** An odd factor is its own inverse modulo 8. */
  lemma OddFactor(w: nat, v: nat, m: nat, q: nat)
    requires w * w == 8 * v + 1 && m * w == 8 * q
    ensures m % 8 == 0
  {
    assert w * (m * w) == (w * w) * m;
    assert w * (8 * q) == 8 * (w * q) && (8 * v + 1) * m == 8 * (v * m) + m;
    DivModUnique(m, 8, w * q - v * m, 0);
  }

  lemma WholeBytes(w: nat, m: nat)
    requires IsBase(w) && (m * w) % 8 == 0
    ensures m % (BlockBits(w) / w) == 0
  {
    hide BlockBits;
    CharactersInBlock(w);
    var q := (m * w) / 8;
    assert m * w == 8 * q;
    if w == 2 {
      DivModUnique(m, 4, q, 0);
    } else if w == 4 {
      DivModUnique(m, 2, q, 0);
    } else if w == 6 {
      DivModUnique(m, 4, 3 * q - 2 * m, 0);
    } else {
      OddFactor(w, if w == 1 then 0 else if w == 3 then 1 else if w == 5 then 3 else 6, m, q);
    }
  }

  lemma CharactersOfBlocks(w: nat, k: nat)
    requires IsBase(w)
    ensures k * (BlockBits(w) / w) >= 0 && (k * (BlockBits(w) / w) * w) % 8 == 0
  {
    hide BlockBits;
    BlockBitsIs(w, 0);
    var B, b := BlockBits(w), BlockBits(w) / w;
    MulLe(0, k, b);
    assert k * b * w == k * (b * w) == k * B == 8 * (k * (B / 8)) by {
      assert B == 8 * (B / 8);
    }
    DivModUnique(k * b * w, 8, k * (B / 8), 0);
  }

  lemma WholePadded(n: int, p: nat, b: nat) returns (k: nat)
    requires b > 0 && n >= 0 && p == -n % b
    ensures n + p == k * b && p < b
  {
    var q := (-n) / b;
    DivisionIdentity(-n, b);
    assert n + p == (-q) * b;
    if -q < 0 {
      MulLe(-q, -1, b);
    }
    k := -q;
  }

  lemma NextMultiple(m: nat, k: nat, b: nat, p: nat, n: nat)
    requires b > 0 && n <= m < n + p == k * b && p < b
    ensures m % b != 0
  {
    DivisionIdentity(m, b);
    assert (k - m / b) * b == k * b - (m / b) * b;
    if m % b == 0 {
      SmallMultiple(k - m / b, b);
    }
  }

  /**
   The text has as many characters as the bits of the message need.  With padding it goes on to the least
   length of which the bits make up whole bytes.
   */
  lemma TextLength(alphabet: seq<byte>, w: nat, padding: int, message: seq<byte>)
    requires IsBase(w) && |alphabet| == Pow2(w) && -1 <= padding < 256
    ensures var text, n := EncodedText(alphabet, w, padding, message), CharactersFor(|message|, w);
            && |text| >= n && (padding == -1 ==> |text| == n)
            && (padding != -1 ==>
                  && (forall i :: n <= i < |text| ==> text[i] == padding)
                  && (|text| * w) % 8 == 0 && forall m :: n <= m < |text| ==> (m * w) % 8 != 0)
  {
    hide Groups, GroupBits, BlockBits, CharactersFor;
    var text, n := EncodedText(alphabet, w, padding, message), CharactersFor(|message|, w);
    ValueCount(w, message);
    if padding != -1 {
      BlockBitsIs(w, 0);
      var b := BlockBits(w) / w;
      var p := PadCount(w, n);
      var k := WholePadded(n, p, b);
      CharactersOfBlocks(w, k);
      forall m | n <= m < |text|
        ensures (m * w) % 8 != 0
      {
        NextMultiple(m, k, b, p, n);
        if (m * w) % 8 == 0 {
          WholeBytes(w, m);
        }
      }
    }
  }

  // ---------------------------------------------------------------- groups

  lemma Regroup(c: byte, s: seq<byte>, t: seq<byte>, u: seq<byte>)
    ensures [c] + (s + t + u) == ([c] + s) + t + u
    ensures t + [c] + s == t + ([c] + s)
  {
  }

  lemma {:induction false} SeparatedFrom(text: seq<byte>, groupSize: nat, separator: seq<byte>, counter: nat)
    requires groupSize > 0 && counter <= groupSize
    ensures var left := groupSize - counter;
            Separated(text, groupSize, separator, counter)
            == if |text| <= left then text
               else text[..left] + separator + Separated(text[left..], groupSize, separator, 0)
  {
    if text != [] {
      var rest := text[1..];
      if counter == groupSize {
        assert text[..0] == [] && text[0..] == text;
        Regroup(text[0], Separated(rest, groupSize, separator, 1), separator, []);
      } else {
        var left := groupSize - counter;
        SeparatedFrom(rest, groupSize, separator, counter + 1);
        if |text| > left {
          assert text[..left] == [text[0]] + rest[..left - 1] && text[left..] == rest[left - 1..];
          Regroup(text[0], rest[..left - 1], separator, Separated(text[left..], groupSize, separator, 0));
        } else {
          assert text == [text[0]] + rest;
        }
      }
    }
  }

  /** A separator stands after every full group that more text follows, and nowhere else. */
  lemma GroupedText(text: seq<byte>, groupSize: nat, separator: seq<byte>, terminator: seq<byte>)
    ensures groupSize == 0 || |text| <= groupSize ==>
              Grouped(text, groupSize, separator, terminator) == text + terminator
    ensures 0 < groupSize < |text| ==>
              Grouped(text, groupSize, separator, terminator)
              == text[..groupSize] + separator + Grouped(text[groupSize..], groupSize, separator, terminator)
  {
    hide Separated;
    if groupSize > 0 {
      SeparatedFrom(text, groupSize, separator, 0);
      if groupSize < |text| {
        var more := Separated(text[groupSize..], groupSize, separator, 0);
        assert text[..groupSize] + separator + more + terminator == text[..groupSize] + separator + (more + terminator);
      }
    }
  }
}
