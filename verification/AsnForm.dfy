/**
 What DERReencode of asn.cpp does to elements written out octet by octet (sections 8.1.2 to 8.1.5 of
 X.690): the bits of an identifier, the forms of a length, and the end-of-contents octets.
 */
module AsnForms {
  import opened Wrappers
  import opened Integers
  import opened Bytes
  import opened Asn

  // ---------------------------------------------------------------- lengths

  lemma {:induction false} ShortestBytesNumber(n: nat)
    ensures Number(ShortestBytes(n)) == n && (n > 0 ==> ShortestBytes(n) != [] && ShortestBytes(n)[0] != 0)
  {
    if n > 0 {
      ShortestBytesNumber(n / 256);
      var s := ShortestBytes(n);
      assert s[..|s| - 1] == ShortestBytes(n / 256);
      if n / 256 == 0 {
        assert s == [n % 256];
      }
    }
  }

  /** One octet for a length below 128; otherwise their number, and the length in base 256 without leading zeros. */
  lemma LengthForm(n: nat)
    requires n < LWORD
    ensures var s := LengthOctets(n);
            if n < 128 then s == [n]
            else 2 <= |s| <= 9 && s[0] == 128 + (|s| - 1) && s[1] != 0 && Number(s[1..]) == n
  {
    hide ShortestBytes, BytePrecision;
    LengthOctetsBound(n);
    ShortestBytesNumber(n);
    if n >= 128 {
      assert LengthOctets(n)[1..] == ShortestBytes(n);
    }
  }

  lemma NumberAppend(s: seq<nat>, b: nat)
    ensures Number(s + [b]) == 256 * Number(s) + b
  {
    assert (s + [b])[..|s|] == s;
  }

  lemma NumberOfOne(n: nat)
    ensures Number([n]) == n
  {
    assert [n][..0] == [] && Number([]) == 0;
  }

  lemma {:induction false} NumberFront(n: nat, s: seq<nat>)
    requires s != []
    ensures Number([n] + s) == Number([n * 256 + s[0]] + s[1..])
    decreases |s|
  {
    hide Number;
    var front, b := s[..|s| - 1], s[|s| - 1];
    assert [n] + s == ([n] + front) + [b];
    NumberAppend([n] + front, b);
    if |s| == 1 {
      assert [n] + front == [n] && [n * 256 + s[0]] + s[1..] == [n * 256 + s[0]];
      NumberOfOne(n);
      NumberOfOne(n * 256 + s[0]);
    } else {
      NumberFront(n, front);
      assert [n * 256 + s[0]] + s[1..] == ([n * 256 + front[0]] + front[1..]) + [b];
      NumberAppend([n * 256 + front[0]] + front[1..], b);
    }
  }

  lemma {:induction false} NumberAtLeast(n: nat, s: seq<nat>)
    ensures Number([n] + s) >= n && (s != [] ==> Number([n] + s) >= 256 * n)
  {
    hide Number;
    if s == [] {
      assert [n] + s == [n];
      NumberOfOne(n);
    } else {
      var front, b := s[..|s| - 1], s[|s| - 1];
      NumberAtLeast(n, front);
      assert [n] + s == ([n] + front) + [b];
      NumberAppend([n] + front, b);
    }
  }

  lemma {:induction false} LongLengthNumber(length: nat, s: seq<byte>, t: seq<byte>, used: nat)
    requires length < LWORD
    ensures LongLength(length, s + t, |s|, used)
            == if Number([length] + s) < LWORD then Definite(Number([length] + s), used + |s|) else Overflow
    decreases |s|
  {
    hide Number;
    NumberAtLeast(length, s);
    if s == [] {
      assert [length] + s == [length];
      NumberOfOne(length);
    } else if length < 0x100_0000_0000_0000 {
      assert (s + t)[1..] == s[1..] + t;
      NumberFront(length, s);
      LongLengthNumber(length * 256 + s[0], s[1..], t, used + 1);
    }
  }

  lemma LongForm(k: nat, s: seq<byte>)
    requires 1 <= k < 128
    ensures ReadLength([128 + k] + s) == LongLength(0, s, k, 1)
  {
    hide LongLength;
    assert ([128 + k] + s)[1..] == s;
  }

  /** The octets of a long length may have leading zeros; it is refused exactly if it does not fit in 64 bits. */
  lemma LongLengthRead(s: seq<byte>, t: seq<byte>)
    requires 1 <= |s| < 128
    ensures ReadLength([128 + |s|] + s + t)
            == if Number(s) < LWORD then Definite(Number(s), 1 + |s|) else Overflow
  {
    hide LongLength, Number, ReadLength;
    assert [128 + |s|] + s + t == [128 + |s|] + (s + t);
    LongForm(|s|, s + t);
    LongLengthNumber(0, s, t, 1);
    NumberFront(0, s);
    assert [0 * 256 + s[0]] + s[1..] == s;
  }

  // ---------------------------------------------------------------- elements by their octets

  /** An element with its class and number, and for a node whether its length is indefinite. */
  datatype Element =
    | Leaf(tagClass: nat, number: nat, contents: seq<byte>)
    | Node(tagClass: nat, number: nat, indefinite: bool, children: seq<Element>)

  /** Four classes, numbers that fit in one octet, and nothing that looks like end-of-contents octets. */
  predicate Valid(e: Element)
    decreases e
  {
    && e.tagClass < 4 && e.number < 31
    && (e.Leaf? ==> e.tagClass > 0 || e.number > 0 || e.contents != [])
    && (e.Node? ==> forall i :: 0 <= i < |e.children| ==> Valid(e.children[i]))
  }

  /** Identifier, length and contents. */
  function DefiniteOctets(tag: byte, contents: seq<byte>): seq<byte> {
    [tag] + LengthOctets(|contents| % LWORD) + contents
  }

  /** The octets: bits 8 and 7 of the identifier are the class, bit 6 tells a node, the rest is the number. */
  function Octets(e: Element): seq<byte>
    requires Valid(e)
    decreases e
  {
    match e
    case Leaf(c, n, contents) => DefiniteOctets(64 * c + n, contents)
    case Node(c, n, indefinite, children) =>
      if indefinite then [64 * c + 32 + n, 0x80] + AllOctets(children) + [0, 0]
      else DefiniteOctets(64 * c + 32 + n, AllOctets(children))
  }

  function AllOctets(s: seq<Element>): seq<byte>
    requires forall i :: 0 <= i < |s| ==> Valid(s[i])
    decreases s
  {
    if s == [] then [] else Octets(s[0]) + AllOctets(s[1..])
  }

  /** The octets when the indefinite lengths outside definite contents have become definite. */
  function Rewritten(e: Element): seq<byte>
    requires Valid(e)
    decreases e
  {
    if e.Node? && e.indefinite then DefiniteOctets(64 * e.tagClass + 32 + e.number, AllRewritten(e.children))
    else Octets(e)
  }

  function AllRewritten(s: seq<Element>): seq<byte>
    requires forall i :: 0 <= i < |s| ==> Valid(s[i])
    decreases s
  {
    if s == [] then [] else Rewritten(s[0]) + AllRewritten(s[1..])
  }

  function TreeOf(e: Element): Tree
    requires Valid(e)
    decreases e
  {
    match e
    case Leaf(c, n, contents) => Primitive(64 * c + n, contents)
    case Node(c, n, _, children) => Constructed(64 * c + 32 + n, AllTrees(children))
  }

  function AllTrees(s: seq<Element>): seq<Tree>
    requires forall i :: 0 <= i < |s| ==> Valid(s[i])
    decreases s
  {
    if s == [] then [] else [TreeOf(s[0])] + AllTrees(s[1..])
  }

  // ---------------------------------------------------------------- single steps

  lemma TagBits(c: nat, n: nat)
    requires c < 4 && n < 31
    ensures IsConstructed(64 * c + 32 + n) && !IsConstructed(64 * c + n)
    ensures IsShortTag(64 * c + 32 + n) && IsShortTag(64 * c + n)
    ensures !IsShortTag(64 * c + 31) && !IsShortTag(64 * c + 32 + 31)
  {
  }

  lemma ReencodeDefinite(tag: byte, contents: seq<byte>, t: seq<byte>)
    requires |contents| < LWORD
    ensures var s := DefiniteOctets(tag, contents); Reencode(s + t) == Some((s, |s|))
  {
    hide ReadLength, LengthOctets;
    ReadBack(tag, contents, t);
    EncodeLength(tag, contents);
    assert Encode(tag, contents) == DefiniteOctets(tag, contents);
  }

  lemma IndefiniteLength(tag: byte, s: seq<byte>)
    ensures ReadLength(([tag, 0x80] + s)[1..]) == Indefinite && ([tag, 0x80] + s)[2..] == s
  {
    assert ([tag, 0x80] + s)[1..] == [0x80] + s;
  }

  lemma ReencodeIndefinite(tag: byte, s: seq<byte>)
    ensures Reencode([tag, 0x80] + s)
            == if !IsConstructed(tag) || ReencodeToEnd(s).None? then None
               else Some((Encode(tag, ReencodeToEnd(s).value.0), 2 + ReencodeToEnd(s).value.1))
  {
    hide Encode, ReadLength, ReencodeToEnd, IsConstructed;
    IndefiniteLength(tag, s);
    assert ([tag, 0x80] + s)[0] == tag;
  }

  lemma ParseIndefinite(tag: byte, s: seq<byte>)
    requires IsConstructed(tag) && IsShortTag(tag) && ParseToEnd(s).Some?
    ensures Parse([tag, 0x80] + s) == Some((Constructed(tag, ParseToEnd(s).value.0), 2 + ParseToEnd(s).value.1))
  {
    hide ReadLength, ParseToEnd, IsConstructed, IsShortTag;
    IndefiniteLength(tag, s);
    assert ([tag, 0x80] + s)[0] == tag;
  }

  lemma DefiniteStart(tag: byte, contents: seq<byte>)
    ensures |DefiniteOctets(tag, contents)| >= 2 && DefiniteOctets(tag, contents)[0] == tag
    ensures DefiniteOctets(tag, contents)[1] == 0 && |contents| < LWORD ==> contents == []
    ensures |contents| < |DefiniteOctets(tag, contents)|
  {
    hide LengthOctets;
    LengthForm(|contents| % LWORD);
    assert DefiniteOctets(tag, contents)[1] == LengthOctets(|contents| % LWORD)[0];
  }

  /** No valid element begins with the end-of-contents octets. */
  lemma NotAtEnd(e: Element, t: seq<byte>)
    requires Valid(e) && |Octets(e)| < LWORD
    ensures !AtEnd(Octets(e) + t)
  {
    hide DefiniteOctets, AllOctets;
    var s := Octets(e);
    match e {
      case Leaf(c, n, contents) =>
        DefiniteStart(64 * c + n, contents);
      case Node(c, n, indefinite, children) =>
        if !indefinite {
          DefiniteStart(64 * c + 32 + n, AllOctets(children));
        }
        assert s[0] == 64 * c + 32 + n;
    }
    assert |s| >= 2 && (s + t)[0] == s[0] && (s + t)[1] == s[1];
  }

  lemma Tail(s: seq<byte>, t: seq<byte>)
    ensures (s + t)[|s|..] == t
  {
  }

  // ---------------------------------------------------------------- whole elements

  lemma EncodeIsDefinite(tag: byte, contents: seq<byte>)
    ensures Encode(tag, contents) == DefiniteOctets(tag, contents)
  {
  }

  /** Every element is used up exactly, and comes out as it should. */
  lemma {:induction false} ElementRewritten(e: Element, t: seq<byte>)
    requires Valid(e) && 5 * |Octets(e)| < LWORD
    ensures Reencode(Octets(e) + t) == Some((Rewritten(e), |Octets(e)|))
    decreases e, 0
  {
    hide Reencode, ReencodeToEnd, IsConstructed, LengthOctets, DefiniteOctets;
    match e {
      case Leaf(c, n, contents) =>
        DefiniteStart(64 * c + n, contents);
        ReencodeDefinite(64 * c + n, contents, t);
      case Node(c, n, indefinite, children) =>
        TagBits(c, n);
        var tag, inner := 64 * c + 32 + n, AllOctets(children);
        if indefinite {
          assert Octets(e) + t == [tag, 0x80] + (inner + ([0, 0] + t));
          AllElementsRewritten(children, t);
          ReencodeIndefinite(tag, inner + ([0, 0] + t));
          EncodeIsDefinite(tag, AllRewritten(children));
        } else {
          DefiniteStart(tag, inner);
          ReencodeDefinite(tag, inner, t);
        }
    }
  }

  lemma {:induction false} AllElementsRewritten(s: seq<Element>, t: seq<byte>)
    requires forall i :: 0 <= i < |s| ==> Valid(s[i])
    requires 5 * |AllOctets(s)| < LWORD
    ensures ReencodeToEnd(AllOctets(s) + ([0, 0] + t)) == Some((AllRewritten(s), |AllOctets(s)| + 2))
    decreases s, 0
  {
    hide Reencode, IsConstructed, Octets, Rewritten;
    var end := [0, 0] + t;
    if s == [] {
      assert AllOctets(s) + end == end;
    } else {
      var first, rest := Octets(s[0]), AllOctets(s[1..]);
      assert AllOctets(s) + end == first + (rest + end);
      NotAtEnd(s[0], rest + end);
      ElementRewritten(s[0], rest + end);
      AllElementsRewritten(s[1..], t);
      Tail(first, rest + end);
    }
  }

  /** Every element is read as its tree. */
  lemma {:induction false} ElementParsed(e: Element, t: seq<byte>)
    requires Valid(e) && |Octets(e)| < LWORD
    ensures Parse(Octets(e) + t) == Some((TreeOf(e), |Octets(e)|))
    decreases e, 0
  {
    hide Parse, ParseAll, ParseToEnd, IsConstructed, IsShortTag, LengthOctets, DefiniteOctets;
    TagBits(e.tagClass, e.number);
    match e {
      case Leaf(c, n, contents) =>
        DefiniteStart(64 * c + n, contents);
        EncodeIsDefinite(64 * c + n, contents);
        ParseEncoded(64 * c + n, contents, t);
      case Node(c, n, indefinite, children) =>
        var tag, inner := 64 * c + 32 + n, AllOctets(children);
        if indefinite {
          assert Octets(e) + t == [tag, 0x80] + (inner + ([0, 0] + t));
          AllElementsParsed(children, t);
          ParseIndefinite(tag, inner + ([0, 0] + t));
        } else {
          DefiniteStart(tag, inner);
          AllElementsParsed(children, t);
          EncodeIsDefinite(tag, inner);
          ParseEncoded(tag, inner, t);
        }
    }
  }

  lemma NotEmpty(e: Element)
    requires Valid(e)
    ensures |Octets(e)| > 0
  {
  }

  lemma {:induction false} AllElementsParsed(s: seq<Element>, t: seq<byte>)
    requires forall i :: 0 <= i < |s| ==> Valid(s[i])
    requires |AllOctets(s)| < LWORD
    ensures ParseAll(AllOctets(s)) == Some(AllTrees(s))
    ensures ParseToEnd(AllOctets(s) + ([0, 0] + t)) == Some((AllTrees(s), |AllOctets(s)| + 2))
    decreases s, 0
  {
    hide Parse, IsConstructed, Octets, TreeOf;
    var end := [0, 0] + t;
    if s == [] {
      assert AllOctets(s) + end == end;
    } else {
      var first, rest := Octets(s[0]), AllOctets(s[1..]);
      assert AllOctets(s) + end == first + (rest + end);
      NotAtEnd(s[0], rest + end);
      ElementParsed(s[0], rest + end);
      ElementParsed(s[0], rest);
      AllElementsParsed(s[1..], t);
      Tail(first, rest + end);
      Tail(first, rest);
      NotEmpty(s[0]);
    }
  }

  /** An indefinite length is refused without bit 6 of the identifier. */
  lemma PrimitiveRefused(c: nat, n: nat, rest: seq<byte>)
    requires c < 4 && n < 31
    ensures Reencode([64 * c + n, 0x80] + rest) == None
  {
    hide Reencode, IsConstructed;
    TagBits(c, n);
    ReencodeIndefinite(64 * c + n, rest);
  }

  lemma OneChild(e: Element)
    requires Valid(e)
    ensures AllOctets([e]) == Octets(e) && AllRewritten([e]) == Rewritten(e)
  {
    assert [e][1..] == [] && AllOctets([]) == [] && AllRewritten([]) == [];
  }

  /** An explicit tag of indefinite length, as in cryptographic messages. */
  lemma ExplicitTag()
    ensures Reencode([0xa0, 0x80, 4, 1, 0x61, 0, 0]) == Some(([0xa0, 3, 4, 1, 0x61], 7))
  {
    hide Reencode;
    var leaf, e := Leaf(0, 4, [0x61]), Node(2, 0, true, [Leaf(0, 4, [0x61])]);
    assert Octets(leaf) == [4, 1, 0x61];
    OneChild(leaf);
    assert Octets(e) == [0xa0, 0x80, 4, 1, 0x61, 0, 0];
    assert Rewritten(e) == DefiniteOctets(0xa0, [4, 1, 0x61]) == [0xa0, 3, 4, 1, 0x61];
    ElementRewritten(e, []);
    assert Octets(e) + [] == Octets(e);
  }
}
