/**
 AbstractGroup::CascadeScalarMultiply of algebra.cpp: e1 * x + e2 * y with one pass of doublings,
 reading both exponents through windows of the same width.
 */
module CascadeScalarMultiplication {
  import opened Integers
  import opened AbstractGroups

  /** p1 * x + p2 * y. */
  function Comb<T>(G: Group<T>, x: T, y: T, p1: int, p2: int): T {
    G.add(Times(G, p1, x), Times(G, p2, y))
  }

  lemma CombAdd<T(!new)>(G: Group<T>, x: T, y: T, p1: int, p2: int, q1: int, q2: int)
    requires Abelian(G) && G.contains(x) && G.contains(y)
    ensures G.add(Comb(G, x, y, p1, p2), Comb(G, x, y, q1, q2)) == Comb(G, x, y, p1 + q1, p2 + q2)
  {
    hide Times, Abelian;
    TimesIn(G, p1, x);
    TimesIn(G, q1, x);
    TimesIn(G, p2, y);
    TimesIn(G, q2, y);
    TimesAdd(G, p1, q1, x);
    TimesAdd(G, p2, q2, y);
    Interchange(G, Times(G, p1, x), Times(G, p2, y), Times(G, q1, x), Times(G, q2, y));
  }

  lemma CombUnits<T(!new)>(G: Group<T>, x: T, y: T)
    requires Abelian(G) && G.contains(x) && G.contains(y)
    ensures Comb(G, x, y, 1, 0) == x
    ensures Comb(G, x, y, 0, 1) == y
    ensures Comb(G, x, y, 0, 0) == G.identity
  {
    TimesOne(G, x);
    TimesOne(G, y);
    Inverse(G, x);
    Inverse(G, y);
    Inverse(G, G.identity);
  }

  // ---------------------------------------------------------------- the table of powers

  function TableSize(w: nat): (n: nat)
    ensures n > 0 && n % 2 == 0
  {
    if w <= 1 then 2 else if w == 2 then 4 else 8
  }

  /** The index `(p2 << w) + p1`. */
  function At(w: nat, p1: nat, p2: nat): nat {
    if w <= 1 then 2 * p2 + p1 else if w == 2 then 4 * p2 + p1 else 8 * p2 + p1
  }

  ghost predicate Entry<T>(G: Group<T>, x: T, y: T, w: nat, t: seq<T>, p1: nat, p2: nat) {
    At(w, p1, p2) < |t| && t[At(w, p1, p2)] == Comb(G, x, y, p1, p2)
  }

  /** Every entry with an odd coordinate is in place. */
  ghost predicate OddFilled<T>(G: Group<T>, x: T, y: T, w: nat, t: seq<T>) {
    forall p1: nat, p2: nat :: p1 < TableSize(w) && p2 < TableSize(w) && (p1 % 2 == 1 || p2 % 2 == 1)
      ==> Entry(G, x, y, w, t, p1, p2)
  }

  /** Adding two entries in place of a third leaves every other entry alone. */
  lemma Fill<T(!new)>(G: Group<T>, x: T, y: T, w: nat, t: seq<T>, p1: nat, p2: nat, q1: nat, q2: nat, v: T)
    requires Abelian(G) && G.contains(x) && G.contains(y) && |t| == At(w, 0, TableSize(w))
    requires Entry(G, x, y, w, t, p1, p2) && v == Comb(G, x, y, q1, q2)
    requires p1 + q1 < TableSize(w) && p2 + q2 < TableSize(w)
    ensures var t' := t[At(w, p1 + q1, p2 + q2) := G.add(t[At(w, p1, p2)], v)];
      && Entry(G, x, y, w, t', p1 + q1, p2 + q2)
      && forall r1: nat, r2: nat :: r1 < TableSize(w) && Entry(G, x, y, w, t, r1, r2) ==> Entry(G, x, y, w, t', r1, r2)
  {
    hide Times, Abelian;
    CombAdd(G, x, y, p1, p2, q1, q2);
  }

  ghost predicate Seeds<T>(G: Group<T>, x: T, y: T, w: nat, t: seq<T>) {
    && |t| == At(w, 0, TableSize(w))
    && Entry(G, x, y, w, t, 1, 0) && Entry(G, x, y, w, t, 2, 0)
    && Entry(G, x, y, w, t, 0, 1) && Entry(G, x, y, w, t, 0, 2)
  }

  ghost predicate OddRow<T>(G: Group<T>, x: T, y: T, w: nat, t: seq<T>, n: nat) {
    forall p: nat :: p < n && p < TableSize(w) && p % 2 == 1 ==> Entry(G, x, y, w, t, p, 0)
  }

  method OddMultiplesOfX<T(!new)>(G: Group<T>, x: T, y: T, w: nat, t0: seq<T>) returns (t: seq<T>)
    requires Abelian(G) && G.contains(x) && G.contains(y) && 2 <= w <= 3
    requires Seeds(G, x, y, w, t0)
    ensures Seeds(G, x, y, w, t) && OddRow(G, x, y, w, t, TableSize(w))
  {
    hide Comb, Abelian;
    t := t0;
    var i := 3;
    while i < TableSize(w)
      invariant i % 2 == 1 && 3 <= i <= TableSize(w) + 1
      invariant Seeds(G, x, y, w, t) && OddRow(G, x, y, w, t, i)
    {
      Fill(G, x, y, w, t, i - 2, 0, 2, 0, t[2]);
      t := t[i := G.add(t[i - 2], t[2])];
      i := i + 2;
    }
  }

  ghost predicate OddColumns<T>(G: Group<T>, x: T, y: T, w: nat, t: seq<T>, n: nat) {
    forall p: nat, q: nat :: p < n && p < TableSize(w) && q < TableSize(w) && p % 2 == 1 ==> Entry(G, x, y, w, t, p, q)
  }

  ghost predicate Keeps<T>(G: Group<T>, x: T, y: T, w: nat, t: seq<T>, t': seq<T>) {
    && |t'| == |t|
    && forall p: nat, q: nat :: p < TableSize(w) && Entry(G, x, y, w, t, p, q) ==> Entry(G, x, y, w, t', p, q)
  }

  /** The column over `i * x`; every entry that was in place stays. */
  method Column<T(!new)>(G: Group<T>, ghost x: T, y: T, w: nat, t0: seq<T>, i: nat) returns (t: seq<T>)
    requires Abelian(G) && G.contains(x) && G.contains(y) && 2 <= w <= 3
    requires |t0| == At(w, 0, TableSize(w)) && i < TableSize(w) && Entry(G, x, y, w, t0, i, 0)
    ensures Keeps(G, x, y, w, t0, t)
    ensures forall r: nat :: r < TableSize(w) ==> Entry(G, x, y, w, t, i, r)
  {
    hide Comb, Abelian;
    CombUnits(G, x, y);
    var ts := TableSize(w);
    t := t0;
    var j := i + ts;
    ghost var q := 1;
    while j < At(w, 0, ts)
      invariant 1 <= q <= ts && j == At(w, i, q)
      invariant Keeps(G, x, y, w, t0, t)
      invariant forall r: nat :: r < q ==> Entry(G, x, y, w, t, i, r)
    {
      Fill(G, x, y, w, t, i, q - 1, 0, 1, y);
      t := t[j := G.add(t[j - ts], y)];
      j := j + ts;
      q := q + 1;
    }
  }

  method ColumnsOverOddX<T(!new)>(G: Group<T>, x: T, y: T, w: nat, t0: seq<T>) returns (t: seq<T>)
    requires Abelian(G) && G.contains(x) && G.contains(y) && 2 <= w <= 3
    requires Seeds(G, x, y, w, t0) && OddRow(G, x, y, w, t0, TableSize(w))
    ensures Seeds(G, x, y, w, t) && OddColumns(G, x, y, w, t, TableSize(w))
  {
    hide Comb, Abelian, Entry;
    var ts := TableSize(w);
    t := t0;
    var i := 1;
    while i < ts
      invariant i % 2 == 1 && 1 <= i <= ts + 1
      invariant Seeds(G, x, y, w, t) && OddRow(G, x, y, w, t, ts) && OddColumns(G, x, y, w, t, i)
    {
      t := Column(G, x, y, w, t, i);
      i := i + 2;
    }
  }

  method OddMultiplesOfY<T(!new)>(G: Group<T>, x: T, y: T, w: nat, t0: seq<T>) returns (t: seq<T>)
    requires Abelian(G) && G.contains(x) && G.contains(y) && 2 <= w <= 3
    requires Seeds(G, x, y, w, t0) && OddColumns(G, x, y, w, t0, TableSize(w))
    ensures |t| == |t0| && OddColumns(G, x, y, w, t, TableSize(w))
    ensures forall r: nat :: r < TableSize(w) && r % 2 == 1 ==> Entry(G, x, y, w, t, 0, r)
  {
    hide Comb, Abelian;
    var ts := TableSize(w);
    t := t0;
    var i := 3 * ts;
    ghost var q := 3;
    while i < At(w, 0, ts)
      invariant q % 2 == 1 && 3 <= q <= ts + 1 && i == At(w, 0, q)
      invariant Seeds(G, x, y, w, t) && OddColumns(G, x, y, w, t, ts)
      invariant forall r: nat :: r < q && r % 2 == 1 ==> Entry(G, x, y, w, t, 0, r)
    {
      Fill(G, x, y, w, t, 0, q - 2, 0, 2, t[2 * ts]);
      t := t[i := G.add(t[i - 2 * ts], t[2 * ts])];
      i := i + 2 * ts;
      q := q + 2;
    }
  }

  ghost predicate OddRows<T>(G: Group<T>, x: T, y: T, w: nat, t: seq<T>, n: nat) {
    forall p: nat, q: nat :: p < TableSize(w) && q < n && q < TableSize(w) && q % 2 == 1 ==> Entry(G, x, y, w, t, p, q)
  }

  /** The even entries of the row over `q * y`; every entry that was in place stays. */
  method Row<T(!new)>(G: Group<T>, x: T, ghost y: T, w: nat, t0: seq<T>, i: nat, ghost q: nat) returns (t: seq<T>)
    requires Abelian(G) && G.contains(x) && G.contains(y) && 2 <= w <= 3
    requires |t0| == At(w, 0, TableSize(w)) && q < TableSize(w) && i == At(w, 0, q)
    requires Entry(G, x, y, w, t0, 0, q)
    requires forall p: nat :: p < TableSize(w) && p % 2 == 1 ==> Entry(G, x, y, w, t0, p, q)
    ensures Keeps(G, x, y, w, t0, t)
    ensures forall p: nat :: p < TableSize(w) ==> Entry(G, x, y, w, t, p, q)
  {
    hide Comb, Abelian;
    CombUnits(G, x, y);
    var ts := TableSize(w);
    t := t0;
    var j := i + 2;
    ghost var p := 2;
    while j < i + ts
      invariant p % 2 == 0 && 2 <= p <= ts && j == At(w, p, q)
      invariant Keeps(G, x, y, w, t0, t)
      invariant forall r: nat :: r < p && r % 2 == 0 ==> Entry(G, x, y, w, t, r, q)
    {
      Fill(G, x, y, w, t, p - 1, q, 1, 0, x);
      t := t[j := G.add(t[j - 1], x)];
      j := j + 2;
      p := p + 2;
    }
  }

  method RowsOverOddY<T(!new)>(G: Group<T>, x: T, y: T, w: nat, t0: seq<T>) returns (t: seq<T>)
    requires Abelian(G) && G.contains(x) && G.contains(y) && 2 <= w <= 3
    requires |t0| == At(w, 0, TableSize(w)) && OddColumns(G, x, y, w, t0, TableSize(w))
    requires forall r: nat :: r < TableSize(w) && r % 2 == 1 ==> Entry(G, x, y, w, t0, 0, r)
    ensures |t| == |t0| && OddFilled(G, x, y, w, t)
  {
    hide Comb, Abelian, Entry;
    var ts := TableSize(w);
    t := t0;
    var i := ts;
    ghost var q := 1;
    while i < At(w, 0, ts)
      invariant q % 2 == 1 && 1 <= q <= ts + 1 && i == At(w, 0, q)
      invariant Keeps(G, x, y, w, t0, t) && OddRows(G, x, y, w, t, q)
    {
      t := Row(G, x, y, w, t, i, q);
      i := i + 2 * ts;
      q := q + 2;
    }
  }

  method PowerTable<T(!new)>(G: Group<T>, x: T, y: T, w: nat) returns (t: seq<T>)
    requires Abelian(G) && G.contains(x) && G.contains(y) && 1 <= w <= 3
    ensures |t| == At(w, 0, TableSize(w))
    ensures OddFilled(G, x, y, w, t)
  {
    hide Comb, Abelian;
    CombUnits(G, x, y);
    CombAdd(G, x, y, 1, 0, 0, 1);
    CombAdd(G, x, y, 1, 0, 1, 0);
    CombAdd(G, x, y, 0, 1, 0, 1);
    var ts := TableSize(w);
    t := seq(At(w, 0, ts), _ => G.identity);
    t := t[1 := x];
    t := t[ts := y];
    if w == 1 {
      t := t[3 := G.add(x, y)];
    } else {
      t := t[2 := G.add(x, x)];
      t := t[2 * ts := G.add(y, y)];
      t := OddMultiplesOfX(G, x, y, w, t);
      t := ColumnsOverOddX(G, x, y, w, t);
      t := OddMultiplesOfY(G, x, y, w, t);
      t := RowsOverOddY(G, x, y, w, t);
    }
  }

  // ---------------------------------------------------------------- the pass over the exponents

  /** `n` doublings. */
  method DoubleTimes<T(!new)>(G: Group<T>, ghost x: T, ghost y: T, a: T, ghost c1: int, ghost c2: int, n: nat)
    returns (r: T)
    requires Abelian(G) && G.contains(x) && G.contains(y) && a == Comb(G, x, y, c1, c2)
    ensures r == Comb(G, x, y, Shl(c1, n), Shl(c2, n))
  {
    hide Comb, Abelian;
    r := a;
    for i := 0 to n
      invariant r == Comb(G, x, y, Shl(c1, i), Shl(c2, i))
    {
      CombAdd(G, x, y, Shl(c1, i), Shl(c2, i), Shl(c1, i), Shl(c2, i));
      r := G.add(r, r);
    }
  }

  /** The `b` bits of `e` read since `prefix`, down to bit `i`, form `power`. */
  ghost predicate Reads(e: nat, prefix: nat, power: nat, b: nat, i: nat) {
    Shr(e, i) == Shl(prefix, b) + power && power < Pow2(b)
  }

  function NextPower(power: nat, e: nat, i: nat): nat {
    2 * power + (if GetBit(e, i) then 1 else 0)
  }

  lemma ReadBit(e: nat, prefix: nat, power: nat, b: nat, i: nat)
    requires i > 0 && Reads(e, prefix, power, b, i)
    ensures Reads(e, prefix, NextPower(power, e, i - 1), b + 1, i - 1)
    ensures 2 * power <= NextPower(power, e, i - 1) <= 2 * power + 1
    ensures GetBit(e, i - 1) ==> NextPower(power, e, i - 1) > 0
  {
  }

  lemma RoomToStrip(p: nat, n: nat, b: nat)
    requires p >= 2 && Shl(p, n) < Pow2(b)
    ensures n + 1 < b
  {
    ShlOrder(2, p, n);
    ShlZero(n);
    ShlDouble(1, n);
    Pow2Order(n + 1, b);
  }

  /** Strips the common factors of two off a window; there is always a doubling to give back. */
  method StripZeros(power1: nat, power2: nat, squares: nat, ghost b: nat)
    returns (p1: nat, p2: nat, squaresBefore: nat, squaresAfter: nat)
    requires power1 < Pow2(b) && power2 < Pow2(b) && b <= squares + 1
    ensures power1 == Shl(p1, squaresAfter) && power2 == Shl(p2, squaresAfter)
    ensures squaresBefore + squaresAfter == squares
    ensures p1 <= power1 && p2 <= power2
    ensures (p1 == 0 && p2 == 0) || p1 % 2 == 1 || p2 % 2 == 1
  {
    p1, p2, squaresBefore, squaresAfter := power1, power2, squares, 0;
    while (p1 != 0 || p2 != 0) && p1 % 2 == 0 && p2 % 2 == 0
      invariant power1 == Shl(p1, squaresAfter) && power2 == Shl(p2, squaresAfter)
      invariant squaresBefore + squaresAfter == squares
      invariant p1 <= power1 && p2 <= power2
      decreases p1 + p2
    {
      ShlDouble(p1 / 2, squaresAfter);
      ShlDouble(p2 / 2, squaresAfter);
      RoomToStrip(if p1 != 0 then p1 else p2, squaresAfter, b);
      p1 := p1 / 2;
      p2 := p2 / 2;
      squaresBefore := squaresBefore - 1;
      squaresAfter := squaresAfter + 1;
    }
  }

  lemma AppendWindow(a: nat, before: nat, p: nat, after: nat)
    ensures Shl(Shl(a, before) + p, after) == Shl(a, before + after) + Shl(p, after)
  {
    ShlAdd(Shl(a, before), p, after);
    ShlShl(a, before, after);
  }

  /**
   Appends a window to the prefixes already multiplied: the doublings before it, the table entry,
   and the doublings after it.
   */
  method Flush<T(!new)>(G: Group<T>, ghost x: T, ghost y: T, w: nat, t: seq<T>, result: T, firstTime: bool,
                        power1: nat, power2: nat, squares: nat,
                        ghost a1: nat, ghost a2: nat, ghost b: nat)
    returns (r: T)
    requires Abelian(G) && G.contains(x) && G.contains(y)
    requires OddFilled(G, x, y, w, t)
    requires power1 < TableSize(w) && power2 < TableSize(w)
    requires power1 < Pow2(b) && power2 < Pow2(b) && b <= squares + 1
    requires if firstTime then a1 == 0 && a2 == 0 && (power1 != 0 || power2 != 0)
             else result == Comb(G, x, y, a1, a2)
    ensures r == Comb(G, x, y, Shl(a1, squares) + power1, Shl(a2, squares) + power2)
  {
    hide Comb, Abelian;
    var p1, p2, squaresBefore, squaresAfter := StripZeros(power1, power2, squares, b);
    ghost var c1, c2 := Shl(a1, squaresBefore) + p1, Shl(a2, squaresBefore) + p2;
    if firstTime {
      ShlZero(squaresBefore);
      ShlZero(squaresAfter);
      assert p1 != 0 || p2 != 0;
      assert Entry(G, x, y, w, t, p1, p2);
      r := t[At(w, p1, p2)];
    } else {
      r := DoubleTimes(G, x, y, result, a1, a2, squaresBefore);
      if p1 != 0 || p2 != 0 {
        assert Entry(G, x, y, w, t, p1, p2);
        CombAdd(G, x, y, Shl(a1, squaresBefore), Shl(a2, squaresBefore), p1, p2);
        r := G.add(r, t[At(w, p1, p2)]);
      }
    }
    r := DoubleTimes(G, x, y, r, c1, c2, squaresAfter);
    AppendWindow(a1, squaresBefore, p1, squaresAfter);
    AppendWindow(a2, squaresBefore, p2, squaresAfter);
  }

  /** The window width for exponents of `expLen` bits. */
  function CascadeWindow(expLen: nat): (w: nat)
    ensures 1 <= w <= 3
  {
    if expLen <= 46 then 1 else if expLen <= 260 then 2 else 3
  }

  lemma AboveBitCount(e: nat, n: nat)
    requires n >= BitCount(e)
    ensures Shr(e, n) == 0
    ensures n == BitCount(e) && n > 0 ==> Shr(e, n - 1) == 1
  {
    BitCountBounds(e);
    Pow2Le(BitCount(e), n);
    ShrSmall(e, n);
    if n == BitCount(e) && n > 0 {
      ShrSmall(e, n - 1);
    }
  }

  lemma NothingRead(e: nat, n: nat)
    requires n >= BitCount(e)
    ensures Reads(e, 0, 0, 0, n)
    ensures n == 0 ==> e == 0
    ensures n > 0 && n == BitCount(e) ==> GetBit(e, n - 1)
  {
    AboveBitCount(e, n);
  }

  lemma FlushedPrefix(e: nat, a: nat, power: nat, b: nat, i: nat, firstTime: bool, squares: nat)
    requires Reads(e, a, power, b, i) && b == squares + (if firstTime then 1 else 0)
    requires firstTime ==> a == 0
    ensures Shl(a, squares) + power == Shr(e, i)
    ensures Reads(e, Shr(e, i), 0, 0, i) && power < Pow2(b)
    ensures i == 0 ==> Shr(e, i) == e
  {
    ShlZero(b);
    ShlZero(squares);
  }

  method CascadeScalarMultiply<T(!new)>(G: Group<T>, x: T, e1: nat, y: T, e2: nat) returns (result: T)
    requires Abelian(G) && G.contains(x) && G.contains(y)
    ensures result == Comb(G, x, y, e1, e2)
  {
    hide Comb, Abelian, OddFilled, At, TableSize, Reads, Shl, Shr, Pow2, BitCount, NextPower;
    var expLen := Max(BitCount(e1), BitCount(e2));
    NothingRead(e1, expLen);
    NothingRead(e2, expLen);
    CombUnits(G, x, y);
    if expLen == 0 {
      return G.identity;
    }
    var w := CascadeWindow(expLen);
    var tableSize := TableSize(w);
    var powerTable := PowerTable(G, x, y, w);

    result := G.identity;
    var power1: nat, power2: nat, prevPosition: nat, firstTime := 0, 0, expLen - 1, true;
    ghost var a1: nat, a2: nat, b: nat := 0, 0, 0;    // the exponents at prevPosition, and bits read since
    var i := expLen;
    while i > 0
      invariant 0 <= i <= expLen && prevPosition < expLen
      invariant b == prevPosition - i + (if firstTime then 1 else 0)
      invariant Reads(e1, a1, power1, b, i) && Reads(e2, a2, power2, b, i)
      invariant i > 0 ==> 2 * power1 < tableSize && 2 * power2 < tableSize
      invariant firstTime ==> i > 0 && prevPosition == expLen - 1 && a1 == 0 && a2 == 0
      invariant firstTime && i < expLen ==> power1 != 0 || power2 != 0
      invariant !firstTime ==> result == Comb(G, x, y, a1, a2)
      invariant i == 0 ==> !firstTime && a1 == e1 && a2 == e2
    {
      i := i - 1;
      ReadBit(e1, a1, power1, b, i + 1);
      ReadBit(e2, a2, power2, b, i + 1);
      power1 := NextPower(power1, e1, i);
      power2 := NextPower(power2, e2, i);
      b := b + 1;
      if i == 0 || 2 * power1 >= tableSize || 2 * power2 >= tableSize {
        var squares := prevPosition - i;
        prevPosition := i;
        FlushedPrefix(e1, a1, power1, b, i, firstTime, squares);
        FlushedPrefix(e2, a2, power2, b, i, firstTime, squares);
        result := Flush(G, x, y, w, powerTable, result, firstTime, power1, power2, squares, a1, a2, b);
        firstTime := false;
        a1, a2, b := Shr(e1, i), Shr(e2, i), 0;
        power1, power2 := 0, 0;
      }
    }
  }
}
