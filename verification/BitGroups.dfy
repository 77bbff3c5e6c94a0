/**
 A stream of bits in groups of a fixed size, the first bit of a group on top.  Bytes are groups of 8;
 a character in base 2^w stands for a group of w.
 */
module BitGroups {
  import opened Integers

  function Value(s: seq<bool>): nat {
    if s == [] then 0 else 2 * Value(s[..|s| - 1]) + (if s[|s| - 1] then 1 else 0)
  }

  /** The `w` low bits of `v`. */
  function Bits(v: nat, w: nat): (s: seq<bool>)
    ensures |s| == w
  {
    if w == 0 then [] else Bits(v / 2, w - 1) + [v % 2 == 1]
  }

  function NoBits(n: nat): (s: seq<bool>)
    ensures |s| == n
  {
    seq(n, _ => false)
  }

  function BitOr(a: nat, b: nat): nat
    decreases a + b
  {
    if a == 0 && b == 0 then 0
    else 2 * BitOr(a / 2, b / 2) + (if a % 2 == 1 || b % 2 == 1 then 1 else 0)
  }

  lemma ValueOne(s: seq<bool>, b: bool)
    ensures Value(s + [b]) == 2 * Value(s) + (if b then 1 else 0)
  {
    assert (s + [b])[..|s|] == s;
  }

  lemma {:induction false} ValueBound(s: seq<bool>)
    ensures Value(s) < Pow2(|s|)
  {
    if s != [] {
      ValueBound(s[..|s| - 1]);
    }
  }

  lemma ValueNone()
    ensures Value([]) == 0
  {
  }

  lemma {:induction false} ValueConcat(s: seq<bool>, t: seq<bool>)
    ensures Value(s + t) == Shl(Value(s), |t|) + Value(t)
  {
    hide Value;
    if t == [] {
      assert s + t == s;
      ValueNone();
    } else {
      var n := |t| - 1;
      ValueConcat(s, t[..n]);
      assert s + t == (s + t[..n]) + [t[n]] && t == t[..n] + [t[n]];
      ValueOne(s + t[..n], t[n]);
      ValueOne(t[..n], t[n]);
    }
  }

  /** Shifting and masking a value take the front and the back of its bits. */
  lemma ValueSplit(s: seq<bool>, t: seq<bool>)
    ensures Shr(Value(s + t), |t|) == Value(s) && Low(Value(s + t), |t|) == Value(t)
  {
    ValueConcat(s, t);
    ValueBound(t);
    ShrUnique(Value(s + t), |t|, Value(s), Value(t));
  }

  lemma {:induction false} ValueNoBits(n: nat)
    ensures Value(NoBits(n)) == 0
  {
    if n > 0 {
      ValueNoBits(n - 1);
      assert NoBits(n)[..n - 1] == NoBits(n - 1);
    }
  }

  lemma ValuePadded(s: seq<bool>, n: nat)
    ensures Value(s + NoBits(n)) == Shl(Value(s), n) && Value(NoBits(n) + s) == Value(s)
  {
    ValueConcat(s, NoBits(n));
    ValueConcat(NoBits(n), s);
    ValueNoBits(n);
    ShlZero(|s|);
  }

  lemma {:induction false} BitsOfValue(s: seq<bool>)
    ensures Bits(Value(s), |s|) == s
  {
    if s != [] {
      BitsOfValue(s[..|s| - 1]);
    }
  }

  lemma {:induction false} ValueOfBits(v: nat, w: nat)
    requires v < Pow2(w)
    ensures Value(Bits(v, w)) == v
  {
    if w > 0 {
      ValueOfBits(v / 2, w - 1);
      ValueOne(Bits(v / 2, w - 1), v % 2 == 1);
    }
  }

  ghost predicate IsOr(u: seq<bool>, s: seq<bool>, t: seq<bool>) {
    |u| == |s| == |t| && forall i :: 0 <= i < |u| ==> u[i] == (s[i] || t[i])
  }

  lemma OrStep(a: nat, x: bool, b: nat, y: bool)
    ensures BitOr(2 * a + (if x then 1 else 0), 2 * b + (if y then 1 else 0))
         == 2 * BitOr(a, b) + (if x || y then 1 else 0)
  {
    assert BitOr(0, 0) == 0;
  }

  lemma {:induction false} OrOfValues(u: seq<bool>, s: seq<bool>, t: seq<bool>)
    requires IsOr(u, s, t)
    ensures Value(u) == BitOr(Value(s), Value(t))
  {
    if u != [] {
      var n := |u| - 1;
      OrOfValues(u[..n], s[..n], t[..n]);
      OrStep(Value(s[..n]), s[n], Value(t[..n]), t[n]);
    } else {
      assert BitOr(0, 0) == 0;
    }
  }

  // ---------------------------------------------------------------- windows

  /** The `n` bits from bit `i` on, with zeros behind the end. */
  function Window(bits: seq<bool>, i: nat, n: nat): (s: seq<bool>)
    ensures |s| == n
  {
    seq(n, k requires 0 <= k < n => i + k < |bits| && bits[i + k])
  }

  /** Group `j` of `w` bits. */
  function Slot(bits: seq<bool>, w: nat, j: nat): nat {
    Value(Window(bits, j * w, w))
  }

  lemma SlotEmpty(w: nat, j: nat)
    ensures Slot([], w, j) == 0
  {
    assert Window([], j * w, w) == NoBits(w);
    ValueNoBits(w);
  }

  lemma WindowOther(bits: seq<bool>, more: seq<bool>, i: nat, n: nat)
    requires i + n <= |bits| || |bits| + |more| <= i
    ensures Window(bits + more, i, n) == Window(bits, i, n)
  {
  }

  lemma WindowIsOr(bits: seq<bool>, more: seq<bool>, i: nat, n: nat)
    requires i <= |bits| && |bits| + |more| <= i + n
    ensures var q := |bits| - i;
            IsOr(Window(bits + more, i, n), Window(bits, i, n), NoBits(q) + (more + NoBits(n - q - |more|)))
  {
  }

  /** Bits that are added in the middle of a group are or-ed to it. */
  lemma WindowOr(bits: seq<bool>, more: seq<bool>, i: nat, n: nat)
    requires i <= |bits| && |bits| + |more| <= i + n
    ensures var q := |bits| - i;
            Value(Window(bits + more, i, n)) == BitOr(Value(Window(bits, i, n)), Value(more + NoBits(n - q - |more|)))
  {
    hide Value, BitOr, Window, IsOr;
    var q := |bits| - i;
    var m := more + NoBits(n - q - |more|);
    WindowIsOr(bits, more, i, n);
    OrOfValues(Window(bits + more, i, n), Window(bits, i, n), NoBits(q) + m);
    ValuePadded(m, q);
  }

  lemma GroupsApart(j: nat, p: nat, w: nat)
    requires j != p
    ensures j < p ==> j * w + w <= p * w
    ensures p < j ==> p * w + w <= j * w
  {
    if j < p {
      MulLe(j + 1, p, w);
    } else {
      MulLe(p + 1, j, w);
    }
  }

  /** When `more` bits come after `bits` and go into group `p`, no other group changes. */
  lemma PutBits(bits: seq<bool>, more: seq<bool>, w: nat, p: nat, q: nat)
    requires |bits| == p * w + q && q + |more| <= w
    ensures Slot(bits + more, w, p) == BitOr(Slot(bits, w, p), Value(more + NoBits(w - q - |more|)))
    ensures forall j: nat :: j != p ==> Slot(bits + more, w, j) == Slot(bits, w, j)
  {
    hide Value, Window, BitOr;
    WindowOr(bits, more, p * w, w);
    forall j: nat | j != p
      ensures Slot(bits + more, w, j) == Slot(bits, w, j)
    {
      GroupsApart(j, p, w);
      WindowOther(bits, more, j * w, w);
    }
  }

  // ---------------------------------------------------------------- groups and bytes

  /** The groups of `w` bits; zeros complete the last one. */
  function Groups(bits: seq<bool>, w: nat): seq<nat>
    requires w > 0
    decreases |bits|
  {
    if bits == [] then []
    else if |bits| < w then [Value(bits + NoBits(w - |bits|))]
    else [Value(bits[..w])] + Groups(bits[w..], w)
  }

  /** The complete groups of `w` bits. */
  function WholeGroups(bits: seq<bool>, w: nat): seq<nat>
    requires w > 0
    decreases |bits|
  {
    if |bits| < w then [] else [Value(bits[..w])] + WholeGroups(bits[w..], w)
  }

  function GroupBits(values: seq<nat>, w: nat): seq<bool> {
    if values == [] then [] else Bits(values[0], w) + GroupBits(values[1..], w)
  }

  lemma GroupBitsStep(s: seq<nat>, w: nat)
    requires s != []
    ensures GroupBits(s, w) == Bits(s[0], w) + GroupBits(s[1..], w)
  {
  }

  lemma GroupBitsNone(w: nat)
    ensures GroupBits([], w) == []
  {
  }

  lemma {:induction false} GroupBitsConcat(s: seq<nat>, t: seq<nat>, w: nat)
    ensures GroupBits(s + t, w) == GroupBits(s, w) + GroupBits(t, w)
  {
    hide Bits, GroupBits;
    if s == [] {
      assert s + t == t;
      GroupBitsNone(w);
    } else {
      GroupBitsConcat(s[1..], t, w);
      assert (s + t)[1..] == s[1..] + t;
      GroupBitsStep(s, w);
      GroupBitsStep(s + t, w);
    }
  }

  lemma GroupBitsOne(v: nat, w: nat)
    ensures GroupBits([v], w) == Bits(v, w)
  {
    assert [v][1..] == [] && GroupBits([], w) == [];
  }

  lemma {:induction false} GroupBitsLength(s: seq<nat>, w: nat)
    ensures |GroupBits(s, w)| == |s| * w
  {
    if s != [] {
      GroupBitsLength(s[1..], w);
      assert |s| * w == w + (|s| - 1) * w;
    }
  }

  lemma GroupsStep(bits: seq<bool>, w: nat)
    requires w > 0
    ensures bits == [] ==> Groups(bits, w) == []
    ensures 0 < |bits| < w ==> Groups(bits, w) == [Value(bits + NoBits(w - |bits|))]
    ensures |bits| >= w ==> Groups(bits, w) == [Value(bits[..w])] + Groups(bits[w..], w)
    ensures |bits| >= w ==> WholeGroups(bits, w) == [Value(bits[..w])] + WholeGroups(bits[w..], w)
    ensures |bits| < w ==> WholeGroups(bits, w) == []
  {
  }

  /** Groups only add zeros, and fewer of them than a group has bits. */
  lemma {:induction false} GroupsKeepBits(bits: seq<bool>, w: nat)
    requires w > 0
    ensures exists n: nat :: n < w && GroupBits(Groups(bits, w), w) == bits + NoBits(n)
    decreases |bits|
  {
    hide Value, Groups, GroupBits, Bits;
    GroupsStep(bits, w);
    if bits == [] {
      GroupBitsNone(w);
      assert GroupBits(Groups(bits, w), w) == bits + NoBits(0);
    } else if |bits| < w {
      var n := w - |bits|;
      BitsOfValue(bits + NoBits(n));
      GroupBitsOne(Value(bits + NoBits(n)), w);
      assert GroupBits(Groups(bits, w), w) == bits + NoBits(n);
    } else {
      GroupsKeepBits(bits[w..], w);
      var n: nat :| n < w && GroupBits(Groups(bits[w..], w), w) == bits[w..] + NoBits(n);
      BitsOfValue(bits[..w]);
      GroupBitsOne(Value(bits[..w]), w);
      GroupBitsConcat([Value(bits[..w])], Groups(bits[w..], w), w);
      assert bits[..w] + (bits[w..] + NoBits(n)) == bits + NoBits(n);
    }
  }

  /** Whole groups are read back, and an incomplete one is dropped. */
  lemma {:induction false} WholeGroupsOf(values: seq<nat>, w: nat, rest: seq<bool>)
    requires w > 0 && |rest| < w && forall i :: 0 <= i < |values| ==> values[i] < Pow2(w)
    ensures WholeGroups(GroupBits(values, w) + rest, w) == values
  {
    hide Value, Bits, WholeGroups, GroupBits;
    var bits := GroupBits(values, w) + rest;
    GroupsStep(bits, w);
    if values == [] {
      GroupBitsNone(w);
      assert bits == rest;
    } else {
      GroupBitsStep(values, w);
      WholeGroupsOf(values[1..], w, rest);
      ValueOfBits(values[0], w);
      assert bits[..w] == Bits(values[0], w) && bits[w..] == GroupBits(values[1..], w) + rest;
    }
  }

  lemma Pow8()
    ensures Pow2(8) == 256
  {
    assert Pow2(4) == 16;
  }

  /** Regrouping bytes to groups of `w` bits and back gives the bytes again. */
  lemma RegroupedBack(bytes: seq<nat>, w: nat)
    requires 1 <= w <= 7 && forall i :: 0 <= i < |bytes| ==> bytes[i] < 256
    ensures WholeGroups(GroupBits(Groups(GroupBits(bytes, 8), w), w), 8) == bytes
  {
    hide Groups, GroupBits, WholeGroups;
    GroupsKeepBits(GroupBits(bytes, 8), w);
    var n: nat :| n < w && GroupBits(Groups(GroupBits(bytes, 8), w), w) == GroupBits(bytes, 8) + NoBits(n);
    Pow8();
    WholeGroupsOf(bytes, 8, NoBits(n));
  }

  lemma {:induction false} GroupsConcat(p: seq<bool>, q: seq<bool>, w: nat, n: nat)
    requires w > 0 && |p| == n * w
    ensures Groups(p + q, w) == Groups(p, w) + Groups(q, w)
    ensures WholeGroups(p + q, w) == WholeGroups(p, w) + WholeGroups(q, w)
    decreases n
  {
    hide Value, Groups, WholeGroups;
    GroupsStep(p, w);
    if n == 0 {
      assert p + q == q;
    } else {
      assert |p| == (n - 1) * w + w;
      MulLe(0, n - 1, w);
      GroupsStep(p + q, w);
      GroupsConcat(p[w..], q, w, n - 1);
      assert (p + q)[..w] == p[..w] && (p + q)[w..] == p[w..] + q;
    }
  }

  lemma WindowShift(bits: seq<bool>, w: nat, j: nat)
    requires j > 0 && w <= |bits|
    ensures Slot(bits, w, j) == Slot(bits[w..], w, j - 1)
  {
    assert j * w == (j - 1) * w + w;
    assert Window(bits, j * w, w) == Window(bits[w..], (j - 1) * w, w);
  }

  lemma SlotZero(bits: seq<bool>, w: nat)
    ensures Slot(bits, w, 0) == Value(Window(bits, 0, w))
  {
  }

  /** Group by group, the slots are the groups. */
  lemma {:induction false} GroupsAreSlots(bits: seq<bool>, w: nat, p: nat, q: nat)
    requires w > 0 && |bits| == p * w + q && q < w
    ensures |Groups(bits, w)| == p + (if q > 0 then 1 else 0) && |WholeGroups(bits, w)| == p
    ensures forall j :: 0 <= j < |Groups(bits, w)| ==> Groups(bits, w)[j] == Slot(bits, w, j)
    ensures forall j :: 0 <= j < p ==> WholeGroups(bits, w)[j] == Slot(bits, w, j)
    decreases p
  {
    hide Slot, Value;
    if p == 0 {
      if q > 0 {
        SlotZero(bits, w);
        assert Window(bits, 0, w) == bits + NoBits(w - q);
      }
    } else {
      assert |bits| == (p - 1) * w + w + q;
      MulLe(0, p - 1, w);
      GroupsAreSlots(bits[w..], w, p - 1, q);
      SlotZero(bits, w);
      assert Window(bits, 0, w) == bits[..w];
      forall j | 0 < j < p + 1
        ensures Slot(bits, w, j) == Slot(bits[w..], w, j - 1)
      {
        WindowShift(bits, w, j);
      }
    }
  }
}
