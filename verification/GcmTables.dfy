/**
 gcm.cpp: the tables of multiples of the hash key, and hashing with them.  With 64 KB of tables a
 block takes 16 look-ups by bytes; with 2 KB it takes 32 by nibbles, and the reduction is delayed.
 */
module GcmTables {
  import opened Bytes
  import opened Gcm

  // ---------------------------------------------------------------- linear tables

  ghost predicate XorLinearAt(F: bv8 -> Block, a: bv8, b: bv8) {
    F(XorByte(a, b)) == Xor(F(a), F(b))
  }

  ghost predicate XorLinear(F: bv8 -> Block) {
    F(0) == ZERO && forall a, b :: XorLinearAt(F, a, b)
  }

  /** The entry for byte `b` of the row at `off` is the value of `F`. */
  ghost predicate EntryIs<T(!new)>(t: seq<T>, off: nat, b: bv8, F: bv8 -> T) {
    off + (b as int) < |t| && t[off + (b as int)] == F(b)
  }

  /** The first `n` entries of the row are in place. */
  ghost predicate RowIs<T(!new)>(t: seq<T>, off: nat, n: nat, F: bv8 -> T) {
    forall b: bv8 :: b as int < n ==> EntryIs(t, off, b, F)
  }

  /** `x` is the value of `F` at the byte `n`. */
  ghost predicate ValueIs<T(!new)>(F: bv8 -> T, n: nat, x: T) {
    forall b: bv8 :: b as int == n ==> F(b) == x
  }

  /** The entries at the powers of two are in place. */
  ghost predicate PowersAre(t: seq<Block>, off: nat, m: nat, F: bv8 -> Block) {
    && 1 <= m <= 8 && off + 2 * PowerOfTwo(m - 1) <= |t|
    && forall e: nat :: e < m ==> EntryIs(t, off, PowerByte(e), F)
  }

  ghost predicate SameOutside(t: seq<Block>, u: seq<Block>, off: nat, n: nat) {
    |t| == |u| && forall i :: 0 <= i < |t| && !(off <= i < off + n) ==> t[i] == u[i]
  }

  /** What the filling of a row has reached: the first `n` entries, and the powers of two. */
  ghost predicate Filling(t0: seq<Block>, t: seq<Block>, off: nat, m: nat, n: nat, F: bv8 -> Block) {
    RowIs(t, off, n, F) && PowersAre(t, off, m, F) && SameOutside(t0, t, off, 2 * PowerOfTwo(m - 1))
  }

  lemma RowFilled(t0: seq<Block>, t: seq<Block>, off: nat, m: nat, F: bv8 -> Block)
    requires 1 <= m <= 8 && Filling(t0, t, off, m, 2 * PowerOfTwo(m - 1), F)
    ensures RowIs(t, off, 2 * PowerOfTwo(m - 1), F) && SameOutside(t0, t, off, 2 * PowerOfTwo(m - 1))
  {
  }

  lemma SameByte(a: bv8, b: bv8)
    requires a as int == b as int
    ensures a == b
  {
  }

  lemma RowGrows(t0: seq<Block>, t: seq<Block>, off: nat, j: nat, m: nat, e: nat, F: bv8 -> Block)
    requires Filling(t0, t, off, m, j, F) && e < m && j == PowerOfTwo(e) <= PowerOfTwo(m - 1)
    ensures Filling(t0, t, off, m, j + 1, F) && off + 2 * j <= |t|
  {
    hide EntryIs, SameOutside, PowerOfTwo, PowerByte;
    forall b: bv8 | b as int < j + 1
      ensures EntryIs(t, off, b, F)
    {
      if b as int == j {
        SameByte(b, PowerByte(e));
      }
    }
  }

  lemma LinearAt(F: bv8 -> Block, a: bv8, b: bv8)
    requires XorLinear(F)
    ensures F(XorByte(a, b)) == Xor(F(a), F(b))
  {
    assert XorLinearAt(F, a, b);
  }

  /** The entry at j + k, for k below the power of two j, is the sum of the entries at j and k. */
  lemma CombinedValue(t0: seq<Block>, t: seq<Block>, off: nat, e: nat, k: nat, m: nat, F: bv8 -> Block)
    requires e < 8
    requires var j := PowerOfTwo(e); XorLinear(F) && Filling(t0, t, off, m, j + k, F) && 0 < k < j && off + 2 * j <= |t|
    ensures var j := PowerOfTwo(e); ValueIs(F, j + k, Xor(t[off + j], t[off + k]))
  {
    hide Xor, XorByte, XorLinear, PowersAre, SameOutside, PowerOfTwo, PowerByte;
    var j := PowerOfTwo(e);
    forall b: bv8 | b as int == j + k
      ensures F(b) == Xor(t[off + j], t[off + k])
    {
      ClearBit(b, e);
      var c := XorByte(PowerByte(e), b);
      assert EntryIs(t, off, PowerByte(e), F) && EntryIs(t, off, c, F);
      LinearAt(F, PowerByte(e), c);
    }
  }

  lemma EntryKept<T(!new)>(t: seq<T>, off: nat, n: nat, x: T, b: bv8, F: bv8 -> T)
    requires off + n < |t| && ValueIs(F, n, x) && (EntryIs(t, off, b, F) || b as int == n)
    ensures EntryIs(t[off + n := x], off, b, F)
  {
  }

  lemma FillingGrows(t0: seq<Block>, t: seq<Block>, off: nat, m: nat, n: nat, x: Block, F: bv8 -> Block)
    requires Filling(t0, t, off, m, n, F) && ValueIs(F, n, x) && n < 2 * PowerOfTwo(m - 1)
    ensures Filling(t0, t[off + n := x], off, m, n + 1, F)
  {
    hide PowerOfTwo, PowerByte, ValueIs, EntryIs;
    var u := t[off + n := x];
    forall b: bv8 | EntryIs(t, off, b, F) || b as int == n
      ensures EntryIs(u, off, b, F)
    {
      EntryKept(t, off, n, x, b, F);
    }
    assert SameOutside(t0, u, off, 2 * PowerOfTwo(m - 1));
  }

  lemma PowersGrow(e: nat, m: nat)
    requires e <= m < 8
    ensures PowerOfTwo(e) <= PowerOfTwo(m) && (e < m ==> 2 * PowerOfTwo(e) <= PowerOfTwo(m))
  {
  }

  /** The entries above the power of two `j`, from those below it. */
  method ExtendRow(table: array<Block>, off: nat, j: nat, ghost t0: seq<Block>, ghost m: nat, ghost e: nat,
      ghost F: bv8 -> Block)
    requires 1 <= e < m <= 8 && j == PowerOfTwo(e) <= PowerOfTwo(m - 1)
    requires XorLinear(F) && Filling(t0, table[..], off, m, j, F)
    modifies table
    ensures Filling(t0, table[..], off, m, 2 * j, F)
  {
    hide XorLinear, Filling, PowerOfTwo, Xor, ValueIs;
    var k := 1;
    RowGrows(t0, table[..], off, j, m, e, F);
    PowersGrow(e, m - 1);
    while k < j
      invariant 1 <= k <= j
      invariant Filling(t0, table[..], off, m, j + k, F) && off + 2 * j <= |table[..]|
    {
      ghost var t := table[..];
      CombinedValue(t0, t, off, e, k, m, F);
      FillingGrows(t0, t, off, m, j + k, Xor(table[off + j], table[off + k]), F);
      table[off + j + k] := Xor(table[off + j], table[off + k]);
      assert table[..] == t[off + j + k := Xor(t[off + j], t[off + k])];
      k := k + 1;
    }
  }

  lemma SmallBytes(b: bv8)
    requires b as int < 2
    ensures b == 0 || b == PowerByte(0)
  {
  }

  lemma FirstEntries(t: seq<Block>, off: nat, m: nat, F: bv8 -> Block)
    requires XorLinear(F) && PowersAre(t, off, m, F)
    ensures PowerOfTwo(m - 1) <= 128 && off < |t| && (m > 1 ==> PowerOfTwo(1) == 2 <= PowerOfTwo(m - 1))
    ensures (m == 1 ==> PowerOfTwo(m - 1) == 1)
    ensures Filling(t, t[off := ZERO], off, m, 2, F)
  {
    hide XorLinearAt, Xor;
    var u := t[off := ZERO];
    assert EntryIs(t, off, PowerByte(0), F);
    forall e: nat | e < m
      ensures EntryIs(u, off, PowerByte(e), F)
    {
      assert EntryIs(t, off, PowerByte(e), F);
    }
    forall b: bv8 | b as int < 2
      ensures EntryIs(u, off, b, F)
    {
      SmallBytes(b);
    }
  }

  lemma PowersDouble(e: nat)
    requires e < 8
    ensures e < 7 ==> PowerOfTwo(e + 1) == 2 * PowerOfTwo(e) <= 128
    ensures e == 7 ==> PowerOfTwo(e) == 128
    ensures PowerOfTwo(0) == 1 && PowerOfTwo(e) <= 128
  {
  }

  /** Fills in the entries of a row between the powers of two. */
  method FillRow(table: array<Block>, off: nat, m: nat, ghost F: bv8 -> Block)
    requires 1 <= m <= 8 && XorLinear(F) && PowersAre(table[..], off, m, F)
    modifies table
    ensures RowIs(table[..], off, 2 * PowerOfTwo(m - 1), F)
    ensures SameOutside(old(table[..]), table[..], off, 2 * PowerOfTwo(m - 1))
  {
    hide XorLinear, PowersAre, Filling, PowerOfTwo, RowIs, SameOutside;
    ghost var t0 := table[..];
    FirstEntries(t0, off, m, F);
    table[off] := ZERO;
    assert table[..] == t0[off := ZERO];
    var j := 2;
    ghost var e := 1;
    while j <= PowerOfTwo(m - 1)
      invariant 1 <= e <= m && (e < m ==> j == PowerOfTwo(e)) && (e == m ==> j == 2 * PowerOfTwo(m - 1))
      invariant Filling(t0, table[..], off, m, j, F)
    {
      if e == m {
        assert false;
      }
      ExtendRow(table, off, j, t0, m, e, F);
      PowersDouble(e);
      j := j * 2;
      e := e + 1;
    }
    if e < m {
      PowersGrow(e, m - 1);
    }
    RowFilled(t0, table[..], off, m, F);
  }

  lemma NoCoefficients(v: Block)
    ensures ByteMult(v, 0) == ZERO && NibbleMult(v, 0) == ZERO
  {
    hide Mult;
    MultZero(v, ByteBits(0));
    MultZero(v, ByteBits(0)[4..]);
  }

  lemma ByteMultLinear(v: Block)
    ensures XorLinear(b => ByteMult(v, b)) && XorLinear(b => NibbleMult(v, b))
  {
    hide ByteMult, NibbleMult, Xor, XorByte;
    NoCoefficients(v);
    var F, N := b => ByteMult(v, b), b => NibbleMult(v, b);
    forall a, b
      ensures XorLinearAt(F, a, b)
    {
      ByteMultXor(v, a, b);
    }
    forall a, b
      ensures XorLinearAt(N, a, b)
    {
      ByteMultXor(v, a, b);
    }
  }

  // ---------------------------------------------------------------- 64 KB of tables

  /** Where H * x^i goes. */
  function Slot64(i: nat): nat
    requires i < 128
  {
    (i / 8) * 256 + PowerOfTwo(7 - i % 8)
  }

  lemma PowersDiffer(i: nat, j: nat)
    requires i < j < 8
    ensures PowerOfTwo(i) != PowerOfTwo(j)
  {
  }

  lemma Slots64Differ(i: nat, j: nat)
    requires i < j < 128
    ensures Slot64(i) != Slot64(j) && Slot64(j) < 4096
  {
    if i / 8 == j / 8 {
      PowersDiffer(7 - j % 8, 7 - i % 8);
    }
  }

  /** Entry v of row i is H * x^(8i) times the polynomial in the byte v. */
  ghost predicate IsTable64(H: Block, t: seq<Block>) {
    |t| == 4096 && forall i: nat :: i < 16 ==> RowIs(t, i * 256, 256, b => ByteMult(MulXn(H, 8 * i), b))
  }

  /** The first `n` powers are in their slots. */
  ghost predicate Put64(H: Block, t: seq<Block>, n: nat) {
    |t| == 4096 && n <= 128 && forall i: nat :: i < n ==> Slot64(i) < 4096 && t[Slot64(i)] == MulXn(H, i)
  }

  lemma SlotInRange(i: nat)
    requires i < 128
    ensures Slot64(i) < 4096
  {
  }

  lemma PutNext64(H: Block, t: seq<Block>, n: nat)
    requires Put64(H, t, n) && n < 128
    ensures Slot64(n) < 4096 && Put64(H, t[Slot64(n) := MulXn(H, n)], n + 1)
  {
    hide MulXn, Slot64;
    SlotInRange(n);
    forall i: nat | i < n
      ensures Slot64(i) != Slot64(n)
    {
      Slots64Differ(i, n);
    }
  }

  method PutPowers64(H: Block) returns (table: array<Block>)
    ensures fresh(table) && Put64(H, table[..], 128)
  {
    hide MulX, Slot64;
    table := new Block[4096](_ => ZERO);
    var V := H;
    for i := 0 to 128
      invariant V == MulXn(H, i)
      invariant Put64(H, table[..], i)
    {
      PutNext64(H, table[..], i);
      ghost var t := table[..];
      table[Slot64(i)] := V;
      assert table[..] == t[Slot64(i) := MulXn(H, i)];
      V := MulX(V);
    }
  }

  lemma Slot64At(row: nat, k: nat)
    requires row < 16 && k < 8
    ensures Slot64(8 * row + k) == row * 256 + PowerOfTwo(7 - k)
  {
  }

  lemma PowerInRow64(H: Block, t: seq<Block>, row: nat, e: nat)
    requires Put64(H, t, 128) && row < 16 && e < 8
    ensures row * 256 + PowerOfTwo(e) < 4096
    ensures t[row * 256 + PowerOfTwo(e)] == ByteMult(MulXn(H, 8 * row), PowerByte(e))
  {
    hide MulX, ByteMult, MulXn, PowerOfTwo;
    var k := 7 - e;
    Slot64At(row, k);
    ByteMultPower(MulXn(H, 8 * row), k);
    MulXnAdd(H, 8 * row, k);
  }

  lemma PowersInRow64(H: Block, t0: seq<Block>, t: seq<Block>, row: nat)
    requires Put64(H, t0, 128) && |t| == 4096 && row < 16
    requires forall n :: row * 256 <= n < 4096 ==> t[n] == t0[n]
    ensures PowersAre(t, row * 256, 8, b => ByteMult(MulXn(H, 8 * row), b))
  {
    hide MulX, ByteMult, MulXn;
    var F := b => ByteMult(MulXn(H, 8 * row), b);
    forall e: nat | e < 8
      ensures EntryIs(t, row * 256, PowerByte(e), F)
    {
      PowerInRow64(H, t0, row, e);
    }
  }

  lemma Length64(H: Block, t: seq<Block>)
    requires Put64(H, t, 128)
    ensures |t| == 4096
  {
  }

  lemma RowUntouched(t: seq<Block>, u: seq<Block>, off: nat, n: nat, changed: nat, m: nat, F: bv8 -> Block)
    requires RowIs(t, off, n, F) && SameOutside(t, u, changed, m) && (off + n <= changed || changed + m <= off)
    ensures RowIs(u, off, n, F)
  {
    forall b: bv8 | b as int < n
      ensures EntryIs(u, off, b, F)
    {
      assert EntryIs(t, off, b, F);
    }
  }

  method BuildTable64(H: Block) returns (table: array<Block>)
    ensures fresh(table) && IsTable64(H, table[..])
  {
    hide MulXn, ByteMult, RowIs, PowersAre, Put64, XorLinear;
    table := PutPowers64(H);
    ghost var t0 := table[..];
    Length64(H, t0);
    for i := 0 to 16
      invariant forall r: nat :: r < i ==> RowIs(table[..], r * 256, 256, b => ByteMult(MulXn(H, 8 * r), b))
      invariant forall n :: i * 256 <= n < 4096 ==> table[n] == t0[n]
    {
      ghost var t := table[..];
      PowersInRow64(H, t0, t, i);
      ByteMultLinear(MulXn(H, 8 * i));
      FillRow(table, i * 256, 8, b => ByteMult(MulXn(H, 8 * i), b));
      forall r: nat | r < i
        ensures RowIs(table[..], r * 256, 256, b => ByteMult(MulXn(H, 8 * r), b))
      {
        RowUntouched(t, table[..], r * 256, 256, i * 256, 256, b => ByteMult(MulXn(H, 8 * r), b));
      }
    }
  }

  lemma MulXnNone(v: Block)
    ensures MulXn(v, 0) == v
  {
  }

  lemma LookUp64(H: Block, t: seq<Block>, i: nat, b: bv8)
    requires IsTable64(H, t) && i < 16
    ensures i * 256 + (b as int) < |t| && t[i * 256 + (b as int)] == ByteMult(MulXn(H, 8 * i), b)
  {
    hide ByteMult, MulXn;
    var F := b => ByteMult(MulXn(H, 8 * i), b);
    assert RowIs(t, i * 256, 256, F);
    assert EntryIs(t, i * 256, b, F);
  }

  lemma NoBitsLeft(H: Block, x: Block)
    ensures Mult(MulXn(H, 128), BitsFrom(x, 16)) == ZERO
  {
    hide MulXn;
  }

  /** One block: a look-up for each of its bytes. */
  method Multiply64(ghost H: Block, table: array<Block>, x: Block) returns (a: Block)
    requires IsTable64(H, table[..])
    ensures a == GfMult(H, x)
  {
    hide Mult, MulXn, Xor;
    a := ZERO;
    XorUnit(GfMult(H, x));
    MulXnNone(H);
    for i := 0 to 16
      invariant Xor(a, Mult(MulXn(H, 8 * i), BitsFrom(x, i))) == GfMult(H, x)
    {
      var b := x[i];
      LookUp64(H, table[..], i, b);
      TakeByte(MulXn(H, 8 * i), x, i);
      MulXnAdd(H, 8 * i, 8);
      XorAssociates(a, ByteMult(MulXn(H, 8 * i), b), Mult(MulXn(H, 8 * i + 8), BitsFrom(x, i + 1)));
      a := Xor(a, table[i * 256 + (b as int)]);
    }
    NoBitsLeft(H, x);
    XorUnit(a);
  }

  // ---------------------------------------------------------------- 2 KB of tables

  /** Whether H * x^i is kept, and where: high nibbles in the second half, low nibbles in the first. */
  predicate Kept(i: nat) {
    i < 104 && i % 32 < 8
  }

  function Slot2(i: nat): nat
    requires Kept(i)
  {
    if i % 32 < 4 then 64 + (i / 32) * 16 + PowerOfTwo(3 - i % 32) else (i / 32) * 16 + PowerOfTwo(7 - i % 32)
  }

  /** Rows 0 to 3 serve the low nibble of the first byte of each 32-bit word, rows 4 to 7 the high one. */
  function RowPower(r: nat): nat {
    if r < 4 then 32 * r + 4 else 32 * (r - 4)
  }

  ghost predicate IsTable2(H: Block, t: seq<Block>) {
    |t| == 128 && forall r: nat :: r < 8 ==> RowIs(t, r * 16, 16, b => NibbleMult(MulXn(H, RowPower(r)), b))
  }

  /** The kept ones of the first `n` powers are in their slots. */
  ghost predicate Put2(H: Block, t: seq<Block>, n: nat) {
    |t| == 128 && forall i: nat :: i < n && Kept(i) ==> Slot2(i) < 128 && t[Slot2(i)] == MulXn(H, i)
  }

  lemma Slots2Differ(i: nat, j: nat)
    requires i < j && Kept(i) && Kept(j)
    ensures Slot2(i) != Slot2(j)
  {
    assert PowerOfTwo(0) == 1 && PowerOfTwo(1) == 2 && PowerOfTwo(2) == 4 && PowerOfTwo(3) == 8;
  }

  lemma PutNext2(H: Block, t: seq<Block>, n: nat)
    requires Put2(H, t, n)
    ensures Kept(n) ==> Slot2(n) < 128 && Put2(H, t[Slot2(n) := MulXn(H, n)], n + 1)
    ensures !Kept(n) ==> Put2(H, t, n + 1)
  {
    hide MulXn;
    if Kept(n) {
      forall i: nat | i < n && Kept(i)
        ensures Slot2(i) != Slot2(n)
      {
        Slots2Differ(i, n);
      }
    }
  }

  lemma NothingPut(H: Block, t: seq<Block>)
    requires |t| == 128
    ensures Put2(H, t, 0)
  {
  }

  method PutPowers2(H: Block) returns (table: array<Block>)
    ensures fresh(table) && Put2(H, table[..], 104)
  {
    hide MulX, Slot2, Put2;
    table := new Block[128](_ => ZERO);
    var V := H;
    NothingPut(H, table[..]);
    for i := 0 to 104
      invariant V == MulXn(H, i)
      invariant Put2(H, table[..], i)
    {
      PutNext2(H, table[..], i);
      if i % 32 < 8 {
        ghost var t := table[..];
        table[Slot2(i)] := V;
        assert table[..] == t[Slot2(i) := MulXn(H, i)];
      }
      V := MulX(V);
    }
  }

  lemma PowerInRow2(H: Block, t: seq<Block>, r: nat, e: nat)
    requires Put2(H, t, 104) && r < 8 && e < 4
    ensures r * 16 + PowerOfTwo(e) < 128
    ensures t[r * 16 + PowerOfTwo(e)] == NibbleMult(MulXn(H, RowPower(r)), PowerByte(e))
  {
    hide NibbleMult, MulXn, MulX;
    var i := RowPower(r) + (3 - e);
    assert Kept(i);
    assert Slot2(i) == r * 16 + PowerOfTwo(e);
    NibbleMultPower(MulXn(H, RowPower(r)), 3 - e);
    MulXnAdd(H, RowPower(r), 3 - e);
  }

  lemma PowersInRow2(H: Block, t0: seq<Block>, t: seq<Block>, r: nat)
    requires Put2(H, t0, 104) && |t| == 128 && r < 8
    requires forall n :: r * 16 <= n < 128 ==> t[n] == t0[n]
    ensures PowersAre(t, r * 16, 4, b => NibbleMult(MulXn(H, RowPower(r)), b))
  {
    hide NibbleMult, MulXn, MulX;
    var F := b => NibbleMult(MulXn(H, RowPower(r)), b);
    forall e: nat | e < 4
      ensures EntryIs(t, r * 16, PowerByte(e), F)
    {
      PowerInRow2(H, t0, r, e);
    }
  }

  lemma Length2(H: Block, t: seq<Block>)
    requires Put2(H, t, 104)
    ensures |t| == 128
  {
  }

  method BuildTable2(H: Block) returns (table: array<Block>)
    ensures fresh(table) && IsTable2(H, table[..])
  {
    hide MulXn, NibbleMult, RowIs, PowersAre, Put2, XorLinear;
    table := PutPowers2(H);
    ghost var t0 := table[..];
    Length2(H, t0);
    for r := 0 to 8
      invariant forall k: nat :: k < r ==> RowIs(table[..], k * 16, 16, b => NibbleMult(MulXn(H, RowPower(k)), b))
      invariant forall n :: r * 16 <= n < 128 ==> table[n] == t0[n]
    {
      ghost var t := table[..];
      PowersInRow2(H, t0, t, r);
      ByteMultLinear(MulXn(H, RowPower(r)));
      FillRow(table, r * 16, 4, b => NibbleMult(MulXn(H, RowPower(r)), b));
      forall k: nat | k < r
        ensures RowIs(table[..], k * 16, 16, b => NibbleMult(MulXn(H, RowPower(k)), b))
      {
        RowUntouched(t, table[..], k * 16, 16, r * 16, 16, b => NibbleMult(MulXn(H, RowPower(k)), b));
      }
    }
  }

  // ---------------------------------------------------------------- delayed reduction

  function Xor16(a: bv16, b: bv16): bv16 {
    a ^ b
  }

  function Widen(b: bv8): bv16 {
    b as bv16
  }

  function Times256(t: bv16): bv16 {
    t << 8
  }

  function Times128(t: bv16): bv16 {
    t << 7
  }

  function Times64(t: bv16): bv16 {
    t << 6
  }

  function Times2(t: bv16): bv16 {
    t << 1
  }

  /** The byte shifted out of x^127, times x^128 modulo the field polynomial: it fits in 16 coefficients. */
  function Reduction(b: bv8): bv16 {
    var t := Widen(b);
    Xor16(Xor16(Times256(t), Times128(t)), Xor16(Times64(t), Times2(t)))
  }

  lemma XorWordsAssociate(a: bv16, b: bv16, c: bv16)
    ensures Xor16(Xor16(a, b), c) == Xor16(a, Xor16(b, c))
  {
  }

  lemma XorWordsCommute(a: bv16, b: bv16)
    ensures Xor16(a, b) == Xor16(b, a)
  {
  }

  lemma InterchangeWords(p: bv16, p': bv16, q: bv16, q': bv16)
    ensures Xor16(Xor16(p, p'), Xor16(q, q')) == Xor16(Xor16(p, q), Xor16(p', q'))
  {
    hide Xor16;
    XorWordsAssociate(p, p', Xor16(q, q'));
    XorWordsAssociate(p', q, q');
    XorWordsCommute(p', q);
    XorWordsAssociate(q, p', q');
    XorWordsAssociate(p, q, Xor16(p', q'));
  }

  lemma WidenXor(a: bv8, b: bv8)
    ensures Widen(XorByte(a, b)) == Xor16(Widen(a), Widen(b))
  {
  }

  lemma Xor256(s: bv16, t: bv16)
    ensures Times256(Xor16(s, t)) == Xor16(Times256(s), Times256(t))
  {
  }

  lemma Xor128(s: bv16, t: bv16)
    ensures Times128(Xor16(s, t)) == Xor16(Times128(s), Times128(t))
  {
  }

  lemma Xor64(s: bv16, t: bv16)
    ensures Times64(Xor16(s, t)) == Xor16(Times64(s), Times64(t))
  {
  }

  lemma Xor2(s: bv16, t: bv16)
    ensures Times2(Xor16(s, t)) == Xor16(Times2(s), Times2(t))
  {
  }

  lemma ReductionXor(a: bv8, b: bv8)
    ensures Reduction(XorByte(a, b)) == Xor16(Reduction(a), Reduction(b))
  {
    hide Xor16, XorByte, Widen, Times256, Times128, Times64, Times2;
    var s, t := Widen(a), Widen(b);
    WidenXor(a, b);
    Xor256(s, t);
    Xor128(s, t);
    Xor64(s, t);
    Xor2(s, t);
    var p, p', q, q' := Times256(s), Times256(t), Times128(s), Times128(t);
    var r, r', u, u' := Times64(s), Times64(t), Times2(s), Times2(t);
    InterchangeWords(p, p', q, q');
    InterchangeWords(r, r', u, u');
    InterchangeWords(Xor16(p, q), Xor16(p', q'), Xor16(r, u), Xor16(r', u'));
  }

  lemma SmallReductions()
    ensures Reduction(0) == 0 && Reduction(PowerByte(0)) == 0x01c2
  {
  }

  lemma ReductionPowers(e: nat)
    requires e < 7
    ensures Reduction(PowerByte(e)) << 1 == Reduction(PowerByte(e + 1))
  {
  }

  lemma RowExtended<T(!new)>(t: seq<T>, n: nat, x: T, F: bv8 -> T)
    requires RowIs(t, 0, n, F) && n < |t| && ValueIs(F, n, x)
    ensures RowIs(t[n := x], 0, n + 1, F)
  {
    hide EntryIs, ValueIs;
    var u := t[n := x];
    forall b: bv8 | b as int < n + 1
      ensures EntryIs(u, 0, b, F)
    {
      EntryKept(t, 0, n, x, b, F);
    }
  }

  lemma FirstReductions(t: seq<bv16>)
    requires |t| == 256 && t[0] == 0 && t[1] == 0x01c2
    ensures RowIs(t, 0, 2, Reduction) && Reduction(PowerByte(0)) == 0x01c2
  {
    hide Reduction;
    SmallReductions();
    forall b: bv8 | b as int < 2
      ensures EntryIs(t, 0, b, Reduction)
    {
      SmallBytes(b);
    }
  }

  lemma ReductionAtPower(e: nat)
    requires e < 8
    ensures ValueIs(Reduction, PowerOfTwo(e), Reduction(PowerByte(e)))
  {
    hide Reduction, PowerOfTwo, PowerByte;
    forall b: bv8 | b as int == PowerOfTwo(e)
      ensures Reduction(b) == Reduction(PowerByte(e))
    {
      SameByte(b, PowerByte(e));
    }
  }

  lemma CombineReductions(t: seq<bv16>, e: nat, k: nat)
    requires e < 8 && 0 < k < PowerOfTwo(e) && |t| == 256 && RowIs(t, 0, PowerOfTwo(e) + k, Reduction)
    ensures PowerOfTwo(e) + k < 256 && ValueIs(Reduction, PowerOfTwo(e) + k, Xor16(t[PowerOfTwo(e)], t[k]))
  {
    hide Reduction, XorByte, Xor16, PowerOfTwo, PowerByte;
    PowersDouble(e);
    var j := PowerOfTwo(e);
    forall b: bv8 | b as int == j + k
      ensures Reduction(b) == Xor16(t[j], t[k])
    {
      ClearBit(b, e);
      var c := XorByte(PowerByte(e), b);
      assert EntryIs(t, 0, PowerByte(e), Reduction) && EntryIs(t, 0, c, Reduction);
      ReductionXor(PowerByte(e), c);
    }
  }

  ghost predicate IsReductionTable(t: seq<bv16>) {
    |t| == 256 && RowIs(t, 0, 256, Reduction)
  }

  /** The entries above the power of two `i`, from those below it. */
  method ExtendReductions(table: array<bv16>, i: nat, ghost e: nat)
    requires e < 8 && i == PowerOfTwo(e) && 2 <= i <= 128 && RowIs(table[..], 0, i + 1, Reduction)
    requires table.Length == 256
    modifies table
    ensures RowIs(table[..], 0, 2 * i, Reduction)
  {
    hide Reduction, PowerOfTwo, Xor16, RowIs, ValueIs;
    var j := 1;
    while j < i
      invariant 1 <= j <= i
      invariant RowIs(table[..], 0, i + j, Reduction)
    {
      ghost var t := table[..];
      CombineReductions(t, e, j);
      RowExtended(t, i + j, Xor16(table[i], table[j]), Reduction);
      table[i + j] := Xor16(table[i], table[j]);
      assert table[..] == t[i + j := Xor16(t[i], t[j])];
      j := j + 1;
    }
  }

  /** One round: the entry at the power of two `i`, and those above it. */
  method DoubleReductions(table: array<bv16>, i: nat, x: bv16, ghost e: nat) returns (x': bv16)
    requires e < 7 && i == PowerOfTwo(e + 1) && 2 <= i <= 128 && RowIs(table[..], 0, i, Reduction)
    requires table.Length == 256 && x == Reduction(PowerByte(e))
    modifies table
    ensures RowIs(table[..], 0, 2 * i, Reduction) && x' == Reduction(PowerByte(e + 1))
  {
    hide Reduction, PowerOfTwo, PowerByte, RowIs, ValueIs;
    x' := x << 1;
    ReductionPowers(e);
    ghost var t := table[..];
    ReductionAtPower(e + 1);
    RowExtended(t, i, x', Reduction);
    table[i] := x';
    assert table[..] == t[i := x'];
    ExtendReductions(table, i, e + 1);
  }

  method BuildReductionTable() returns (table: array<bv16>)
    ensures fresh(table) && IsReductionTable(table[..])
  {
    hide Reduction, PowerOfTwo, PowerByte, RowIs;
    table := new bv16[256](_ => 0);
    var x: bv16 := 0x01c2;
    table[1] := x;
    FirstReductions(table[..]);
    var i := 2;
    ghost var e := 0;
    PowersDouble(0);
    while i <= 0x80
      invariant 0 <= e <= 7 && (e < 7 ==> i == PowerOfTwo(e + 1) <= 128) && (e == 7 ==> i == 256)
      invariant RowIs(table[..], 0, i, Reduction)
      invariant x == Reduction(PowerByte(e))
    {
      x := DoubleReductions(table, i, x, e);
      PowersDouble(e + 1);
      i := i * 2;
      e := e + 1;
    }
  }

  function High(r: bv16): bv8 {
    (r >> 8) as bv8
  }

  function Low(r: bv16): bv8 {
    (r & 0xff) as bv8
  }

  function TopByte(r: bv16, i: nat): bv8 {
    if i == 0 then High(r) else if i == 1 then Low(r) else 0
  }

  /** A reduction at the start of a block. */
  function Top(r: bv16): Block {
    seq(16, i requires 0 <= i < 16 => TopByte(r, i))
  }

  /** A block moved up by one byte; the last byte is lost. */
  function Down8(v: Block): Block {
    [0] + v[..15]
  }

  // Multiplication by x^2, x^4 and x^8 without looking at single coefficients.

  function ShiftIn2(before: bv8, b: bv8): bv8 {
    (b >> 2) | (before << 6)
  }

  function ShiftIn4(before: bv8, b: bv8): bv8 {
    (b >> 4) | (before << 4)
  }

  function Shift2Byte(v: Block, i: nat): bv8
    requires i < 16
  {
    XorByte(ShiftIn2(if i == 0 then 0 else v[i - 1], v[i]), TopByte(Reduction(v[15] << 6), i))
  }

  function Shift2(v: Block): Block {
    seq(16, i requires 0 <= i < 16 => Shift2Byte(v, i))
  }

  function Shift4Byte(v: Block, i: nat): bv8
    requires i < 16
  {
    XorByte(ShiftIn4(if i == 0 then 0 else v[i - 1], v[i]), TopByte(Reduction(v[15] << 4), i))
  }

  function Shift4(v: Block): Block {
    seq(16, i requires 0 <= i < 16 => Shift4Byte(v, i))
  }

  lemma Compose2First(v0: bv8, v14: bv8, v15: bv8)
    ensures XorByte(ShiftIn(0, XorByte(ShiftIn(0, v0), Feedback(v15))), Feedback(ShiftIn(v14, v15)))
         == XorByte(ShiftIn2(0, v0), High(Reduction(v15 << 6)))
  {
  }

  lemma Compose2Second(v0: bv8, v1: bv8, v15: bv8)
    ensures ShiftIn(XorByte(ShiftIn(0, v0), Feedback(v15)), ShiftIn(v0, v1))
         == XorByte(ShiftIn2(v0, v1), Low(Reduction(v15 << 6)))
  {
  }

  lemma Compose2Later(a: bv8, b: bv8, c: bv8)
    ensures ShiftIn(ShiftIn(a, b), ShiftIn(b, c)) == XorByte(ShiftIn2(b, c), 0)
  {
  }

  lemma Shift2Is(v: Block)
    ensures MulX(MulX(v)) == Shift2(v)
  {
    hide ShiftIn, ShiftIn2, XorByte, Reduction, Feedback, High, Low;
    var w := MulX(v);
    forall i | 0 <= i < 16
      ensures MulXByte(w, i) == Shift2Byte(v, i)
    {
      if i == 0 {
        Compose2First(v[0], v[14], v[15]);
      } else if i == 1 {
        Compose2Second(v[0], v[1], v[15]);
      } else {
        Compose2Later(v[i - 2], v[i - 1], v[i]);
      }
    }
  }

  lemma Compose4First(v0: bv8, v14: bv8, v15: bv8)
    ensures XorByte(ShiftIn2(0, XorByte(ShiftIn2(0, v0), High(Reduction(v15 << 6)))),
                    High(Reduction(XorByte(ShiftIn2(v14, v15), 0) << 6)))
         == XorByte(ShiftIn4(0, v0), High(Reduction(v15 << 4)))
  {
  }

  lemma Compose4Second(v0: bv8, v1: bv8, v14: bv8, v15: bv8)
    ensures XorByte(ShiftIn2(XorByte(ShiftIn2(0, v0), High(Reduction(v15 << 6))),
                             XorByte(ShiftIn2(v0, v1), Low(Reduction(v15 << 6)))),
                    Low(Reduction(XorByte(ShiftIn2(v14, v15), 0) << 6)))
         == XorByte(ShiftIn4(v0, v1), Low(Reduction(v15 << 4)))
  {
  }

  lemma Compose4Third(v0: bv8, v1: bv8, v2: bv8, v15: bv8)
    ensures XorByte(ShiftIn2(XorByte(ShiftIn2(v0, v1), Low(Reduction(v15 << 6))), XorByte(ShiftIn2(v1, v2), 0)), 0)
         == XorByte(ShiftIn4(v1, v2), 0)
  {
  }

  lemma Compose4Later(a: bv8, b: bv8, c: bv8)
    ensures XorByte(ShiftIn2(XorByte(ShiftIn2(a, b), 0), XorByte(ShiftIn2(b, c), 0)), 0) == XorByte(ShiftIn4(b, c), 0)
  {
  }

  lemma Shift4Is(v: Block)
    ensures Shift2(Shift2(v)) == Shift4(v)
  {
    hide ShiftIn2, ShiftIn4, XorByte, Reduction, High, Low;
    var w := Shift2(v);
    forall i | 0 <= i < 16
      ensures Shift2Byte(w, i) == Shift4Byte(v, i)
    {
      if i == 0 {
        Compose4First(v[0], v[14], v[15]);
      } else if i == 1 {
        Compose4Second(v[0], v[1], v[14], v[15]);
      } else if i == 2 {
        Compose4Third(v[0], v[1], v[2], v[15]);
      } else {
        Compose4Later(v[i - 2], v[i - 1], v[i]);
      }
    }
  }

  lemma Compose8First(v0: bv8, v14: bv8, v15: bv8)
    ensures XorByte(ShiftIn4(0, XorByte(ShiftIn4(0, v0), High(Reduction(v15 << 4)))),
                    High(Reduction(XorByte(ShiftIn4(v14, v15), 0) << 4)))
         == XorByte(0, High(Reduction(v15)))
  {
  }

  lemma Compose8Second(v0: bv8, v1: bv8, v14: bv8, v15: bv8)
    ensures XorByte(ShiftIn4(XorByte(ShiftIn4(0, v0), High(Reduction(v15 << 4))),
                             XorByte(ShiftIn4(v0, v1), Low(Reduction(v15 << 4)))),
                    Low(Reduction(XorByte(ShiftIn4(v14, v15), 0) << 4)))
         == XorByte(v0, Low(Reduction(v15)))
  {
  }

  lemma Compose8Third(v0: bv8, v1: bv8, v2: bv8, v15: bv8)
    ensures XorByte(ShiftIn4(XorByte(ShiftIn4(v0, v1), Low(Reduction(v15 << 4))), XorByte(ShiftIn4(v1, v2), 0)), 0)
         == XorByte(v1, 0)
  {
  }

  lemma Compose8Later(a: bv8, b: bv8, c: bv8)
    ensures XorByte(ShiftIn4(XorByte(ShiftIn4(a, b), 0), XorByte(ShiftIn4(b, c), 0)), 0) == XorByte(b, 0)
  {
  }

  lemma Shift8Is(v: Block)
    ensures Shift4(Shift4(v)) == Xor(Down8(v), Top(Reduction(v[15])))
  {
    hide ShiftIn4, XorByte, Reduction, High, Low;
    var w := Shift4(v);
    forall i | 0 <= i < 16
      ensures Shift4Byte(w, i) == XorByte(Down8(v)[i], TopByte(Reduction(v[15]), i))
    {
      if i == 0 {
        Compose8First(v[0], v[14], v[15]);
      } else if i == 1 {
        Compose8Second(v[0], v[1], v[14], v[15]);
      } else if i == 2 {
        Compose8Third(v[0], v[1], v[2], v[15]);
      } else {
        Compose8Later(v[i - 2], v[i - 1], v[i]);
      }
    }
  }

  lemma MulXn2(v: Block)
    ensures MulXn(v, 2) == MulX(MulX(v))
  {
    hide MulX;
    assert MulXn(v, 0) == v && MulXn(v, 1) == MulX(v);
  }

  /** Multiplication by x^8: the bytes move up by one, and the one that falls out is reduced. */
  lemma MulX8(v: Block)
    ensures MulXn(v, 8) == Xor(Down8(v), Top(Reduction(v[15])))
  {
    hide MulX, Shift2, Shift4, Xor, Down8, Top, Reduction;
    MulXn2(v);
    MulXn2(MulXn(v, 2));
    MulXnAdd(v, 2, 2);
    MulXn2(MulXn(v, 4));
    MulXn2(MulXn(v, 6));
    MulXnAdd(v, 4, 2);
    MulXnAdd(v, 6, 2);
    Shift2Is(v);
    Shift2Is(MulXn(v, 2));
    Shift2Is(MulXn(v, 4));
    Shift2Is(MulXn(v, 6));
    Shift4Is(v);
    Shift4Is(MulXn(v, 4));
    Shift8Is(v);
  }

  /** A nibble of `b`, as the byte that indexes a row of 16 entries. */
  function HighNibble(b: bv8): bv8 {
    b >> 4
  }

  function LowNibble(b: bv8): bv8 {
    b & 15
  }

  lemma NibbleBit(b: bv8, i: nat)
    requires 4 <= i < 8
    ensures Bit(HighNibble(b), Mask(i)) == Bit(b, Mask(i - 4))
    ensures Bit(LowNibble(b), Mask(i)) == Bit(b, Mask(i))
  {
  }

  lemma NibbleIndex(b: bv8)
    ensures HighNibble(b) as int < 16 && LowNibble(b) as int < 16
  {
    assert b >> 4 < 16 && b & 15 < 16;
  }

  lemma NibbleBits(b: bv8)
    ensures ByteBits(HighNibble(b))[4..] == ByteBits(b)[..4]
    ensures ByteBits(LowNibble(b))[4..] == ByteBits(b)[4..]
  {
    hide Bit, Mask, HighNibble, LowNibble;
    forall i | 4 <= i < 8
      ensures Bit(HighNibble(b), Mask(i)) == Bit(b, Mask(i - 4))
      ensures Bit(LowNibble(b), Mask(i)) == Bit(b, Mask(i))
    {
      NibbleBit(b, i);
    }
  }

  lemma LookUp2(H: Block, t: seq<Block>, r: nat, b: bv8)
    requires IsTable2(H, t) && r < 8 && b as int < 16
    ensures r * 16 + (b as int) < |t| && t[r * 16 + (b as int)] == NibbleMult(MulXn(H, RowPower(r)), b)
  {
    hide NibbleMult, MulXn, RowPower;
    var F := b => NibbleMult(MulXn(H, RowPower(r)), b);
    assert RowIs(t, r * 16, 16, F);
    assert EntryIs(t, r * 16, b, F);
  }

  lemma TwoNibbles(v: Block, b: bv8)
    ensures Xor(NibbleMult(v, HighNibble(b)), NibbleMult(MulXn(v, 4), LowNibble(b))) == ByteMult(v, b)
  {
    hide Mult, MulXn, Xor, HighNibble, LowNibble;
    NibbleBits(b);
    var bits := ByteBits(b);
    assert bits == bits[..4] + bits[4..];
    MultConcat(v, bits[..4], bits[4..]);
  }

  /** Both nibbles of byte `b` in 32-bit word `row`: the product without the power for its place in the word. */
  method LookUpByte(ghost H: Block, table: array<Block>, row: nat, b: bv8) returns (a: Block)
    requires IsTable2(H, table[..]) && row < 4
    ensures a == ByteMult(MulXn(H, 32 * row), b)
  {
    hide NibbleMult, MulXn, IsTable2, Xor, HighNibble, LowNibble;
    NibbleIndex(b);
    LookUp2(H, table[..], 4 + row, HighNibble(b));
    LookUp2(H, table[..], row, LowNibble(b));
    TwoNibbles(MulXn(H, 32 * row), b);
    MulXnAdd(H, 32 * row, 4);
    a := Xor(table[(4 + row) * 16 + (HighNibble(b) as int)], table[row * 16 + (LowNibble(b) as int)]);
  }

  /** a + b * x^8 + c * x^16 + d * x^24 */
  function Spread(a: Block, b: Block, c: Block, d: Block): Block {
    Xor(a, MulXn(Xor(b, MulXn(Xor(c, MulXn(d, 8)), 8)), 8))
  }

  lemma SpreadSum(a: Block, b: Block, c: Block, d: Block, a': Block, b': Block, c': Block, d': Block)
    ensures Spread(Xor(a, a'), Xor(b, b'), Xor(c, c'), Xor(d, d')) == Xor(Spread(a, b, c, d), Spread(a', b', c', d'))
  {
    hide Xor, MulXn;
    MulXnLinear(d, d', 8);
    XorInterchange(c, c', MulXn(d, 8), MulXn(d', 8));
    var e, e' := Xor(c, MulXn(d, 8)), Xor(c', MulXn(d', 8));
    MulXnLinear(e, e', 8);
    XorInterchange(b, b', MulXn(e, 8), MulXn(e', 8));
    var f, f' := Xor(b, MulXn(e, 8)), Xor(b', MulXn(e', 8));
    MulXnLinear(f, f', 8);
    XorInterchange(a, a', MulXn(f, 8), MulXn(f', 8));
  }

  lemma TakeShifted(v: Block, x: Block, i: nat)
    requires i < 16
    ensures Mult(v, BitsFrom(x, i)) == Xor(ByteMult(v, x[i]), MulXn(Mult(v, BitsFrom(x, i + 1)), 8))
  {
    hide Mult, MulXn, Xor, BitsFrom, ByteMult;
    TakeByte(v, x, i);
    MultMulXn(v, BitsFrom(x, i + 1), 8);
  }

  lemma PushRest(s: Block, rest: Block, n: nat)
    ensures MulXn(Xor(s, MulXn(rest, n)), 8) == Xor(MulXn(s, 8), MulXn(rest, n + 8))
  {
    hide Xor, MulXn;
    MulXnLinear(s, MulXn(rest, n), 8);
    MulXnAdd(rest, n, 8);
  }

  /** The four bytes of one 32-bit word of `x`. */
  lemma TakeWord(v: Block, x: Block, i: nat)
    requires i + 4 <= 16
    ensures Mult(v, BitsFrom(x, i)) == Xor(
      Spread(ByteMult(v, x[i]), ByteMult(v, x[i + 1]), ByteMult(v, x[i + 2]), ByteMult(v, x[i + 3])),
      Mult(MulXn(v, 32), BitsFrom(x, i + 4)))
  {
    hide Mult, MulXn, Xor, ByteBits;
    var p, q, r, s := ByteMult(v, x[i]), ByteMult(v, x[i + 1]), ByteMult(v, x[i + 2]), ByteMult(v, x[i + 3]);
    var rest := Mult(v, BitsFrom(x, i + 4));
    TakeShifted(v, x, i);
    TakeShifted(v, x, i + 1);
    TakeShifted(v, x, i + 2);
    TakeShifted(v, x, i + 3);
    // p + x^8 (q + x^8 (r + x^8 (s + x^8 rest)))
    PushRest(s, rest, 8);
    XorAssociates(r, MulXn(s, 8), MulXn(rest, 16));
    PushRest(Xor(r, MulXn(s, 8)), rest, 16);
    XorAssociates(q, MulXn(Xor(r, MulXn(s, 8)), 8), MulXn(rest, 24));
    PushRest(Xor(q, MulXn(Xor(r, MulXn(s, 8)), 8)), rest, 24);
    XorAssociates(p, MulXn(Xor(q, MulXn(Xor(r, MulXn(s, 8)), 8)), 8), MulXn(rest, 32));
    MultMulXn(v, BitsFrom(x, i + 4), 32);
  }

  /** Three outstanding reductions in one 32-bit value: that of `d` belongs at bytes 2 and 3. */
  function Reductions(rd: bv16, rc: bv16, rb: bv16): bv32 {
    (rd as bv32) ^ ((rc as bv32) << 8) ^ ((rb as bv32) << 16)
  }

  function PlaceByte(r: bv32, i: nat): bv8 {
    if i == 0 then (r >> 24) as bv8 else if i == 1 then ((r >> 16) & 0xff) as bv8
    else if i == 2 then ((r >> 8) & 0xff) as bv8 else if i == 3 then (r & 0xff) as bv8 else 0
  }

  /** A 32-bit value in the first four bytes of a block. */
  function Place(r: bv32): Block {
    seq(16, i requires 0 <= i < 16 => PlaceByte(r, i))
  }

  lemma ReductionBytes(rd: bv16, rc: bv16, rb: bv16)
    ensures var r := Reductions(rd, rc, rb);
            && (r >> 24) as bv8 == High(rb)
            && ((r >> 16) & 0xff) as bv8 == XorByte(High(rc), Low(rb))
            && ((r >> 8) & 0xff) as bv8 == XorByte(High(rd), Low(rc))
            && (r & 0xff) as bv8 == Low(rd)
  {
  }

  /** The outstanding reductions of the three bytes shifted out, one after the other. */
  lemma Outstanding(rd: bv16, rc: bv16, rb: bv16)
    ensures var rho := Xor(Down8(Top(rd)), Top(rc));
            && Top(rd)[15] == 0 && rho[15] == 0
            && Xor(Down8(rho), Top(rb)) == Place(Reductions(rd, rc, rb))
  {
    hide Reductions, High, Low, XorByte;
    ReductionBytes(rd, rc, rb);
    XorByteLaws(0, 0, 0);
    XorByteLaws(High(rb), 0, 0);
    XorByteLaws(High(rc), 0, 0);
    XorByteLaws(Low(rd), 0, 0);
    XorByteLaws(XorByte(High(rd), Low(rc)), 0, 0);
    XorByteLaws(High(rd), Low(rc), 0);
    var rho := Xor(Down8(Top(rd)), Top(rc));
    var sum, r := Xor(Down8(rho), Top(rb)), Reductions(rd, rc, rb);
    forall i | 0 <= i < 16
      ensures sum[i] == PlaceByte(r, i)
    {
    }
  }

  lemma Down8Linear(a: Block, b: Block)
    ensures Down8(Xor(a, b)) == Xor(Down8(a), Down8(b))
    ensures b[15] == 0 ==> Xor(a, b)[15] == a[15]
  {
    hide XorByte;
    XorByteLaws(0, 0, 0);
    XorByteLaws(a[15], 0, 0);
  }

  lemma PushFirst(u: Block, v: Block)
    ensures Xor(u, MulXn(v, 8)) == Xor(Xor(u, Down8(v)), Top(Reduction(v[15])))
  {
    hide Reduction, MulXn, Xor, Down8, Top;
    MulX8(v);
    XorAssociates(u, Down8(v), Top(Reduction(v[15])));
  }

  /** Multiplication by x^8 when the reductions `rho` of earlier bytes are still outstanding. */
  lemma PushNext(u: Block, v: Block, rho: Block)
    requires rho[15] == 0
    ensures Xor(u, MulXn(Xor(v, rho), 8)) == Xor(Xor(u, Down8(v)), Xor(Down8(rho), Top(Reduction(v[15]))))
  {
    hide Reduction, MulXn, Xor, Down8, Top;
    var t := Top(Reduction(v[15]));
    MulX8(Xor(v, rho));
    Down8Linear(v, rho);
    XorAssociates(Down8(v), Down8(rho), t);
    XorAssociates(u, Down8(v), Xor(Down8(rho), t));
  }

  lemma DelayedReduction(a: Block, b: Block, c: Block, d: Block)
    ensures var c1 := Xor(c, Down8(d));
            var b1 := Xor(b, Down8(c1));
            Spread(a, b, c, d) == Xor(Xor(a, Down8(b1)),
              Place(Reductions(Reduction(d[15]), Reduction(c1[15]), Reduction(b1[15]))))
  {
    hide Reduction, MulXn, Xor, Down8, Top, Reductions, Place;
    var c1 := Xor(c, Down8(d));
    var b1 := Xor(b, Down8(c1));
    var rd, rc, rb := Reduction(d[15]), Reduction(c1[15]), Reduction(b1[15]);
    var rho := Xor(Down8(Top(rd)), Top(rc));
    Outstanding(rd, rc, rb);
    PushFirst(c, d);
    PushNext(b, c1, Top(rd));
    PushNext(a, b1, rho);
  }

  lemma ReductionLookUp(t: seq<bv16>, b: bv8)
    requires IsReductionTable(t)
    ensures |t| == 256 && t[b as int] == Reduction(b)
  {
    hide Reduction;
    assert EntryIs(t, 0, b, Reduction);
  }

  /**
   Puts the four partial sums together.  The source keeps the reductions in host order; here they
   are in the order of the bytes of a block.
   */
  method ReduceDelayed(red: array<bv16>, a: Block, b: Block, c: Block, d: Block) returns (x: Block)
    requires IsReductionTable(red[..])
    ensures x == Spread(a, b, c, d)
  {
    hide Reduction, Spread, Xor, Down8, Reductions, Place, IsReductionTable;
    ReductionLookUp(red[..], d[15]);
    var rd := red[d[15] as int];
    var c1 := Xor(c, Down8(d));
    ReductionLookUp(red[..], c1[15]);
    var rc := red[c1[15] as int];
    var b1 := Xor(b, Down8(c1));
    ReductionLookUp(red[..], b1[15]);
    var rb := red[b1[15] as int];
    x := Xor(a, Down8(b1));
    x := Xor(x, Place(Reductions(rd, rc, rb)));
    DelayedReduction(a, b, c, d);
  }

  lemma WordStep(H: Block, x: Block, row: nat, a: Block, b: Block, c: Block, d: Block, a': Block, b': Block, c': Block,
      d': Block)
    requires row < 4
    requires var v, i := MulXn(H, 32 * row), 4 * row;
      && a' == ByteMult(v, x[i]) && b' == ByteMult(v, x[i + 1])
      && c' == ByteMult(v, x[i + 2]) && d' == ByteMult(v, x[i + 3])
    ensures Xor(Spread(Xor(a, a'), Xor(b, b'), Xor(c, c'), Xor(d, d')),
                Mult(MulXn(H, 32 * row + 32), BitsFrom(x, 4 * row + 4)))
         == Xor(Spread(a, b, c, d), Mult(MulXn(H, 32 * row), BitsFrom(x, 4 * row)))
  {
    hide Mult, MulXn, Xor, Spread, ByteMult, BitsFrom;
    TakeWord(MulXn(H, 32 * row), x, 4 * row);
    MulXnAdd(H, 32 * row, 32);
    SpreadSum(a, b, c, d, a', b', c', d');
    XorAssociates(Spread(a, b, c, d), Spread(a', b', c', d'), Mult(MulXn(H, 32 * row + 32), BitsFrom(x, 4 * row + 4)));
  }

  /** One 32-bit word of the block, added to the four sums. */
  method AddWord(ghost H: Block, table: array<Block>, x: Block, row: nat, a: Block, b: Block, c: Block, d: Block)
    returns (a': Block, b': Block, c': Block, d': Block)
    requires IsTable2(H, table[..]) && row < 4
    ensures Xor(Spread(a', b', c', d'), Mult(MulXn(H, 32 * row + 32), BitsFrom(x, 4 * row + 4)))
         == Xor(Spread(a, b, c, d), Mult(MulXn(H, 32 * row), BitsFrom(x, 4 * row)))
  {
    hide Mult, MulXn, Xor, IsTable2, Spread, ByteMult, BitsFrom;
    a' := LookUpByte(H, table, row, x[4 * row]);
    b' := LookUpByte(H, table, row, x[4 * row + 1]);
    c' := LookUpByte(H, table, row, x[4 * row + 2]);
    d' := LookUpByte(H, table, row, x[4 * row + 3]);
    WordStep(H, x, row, a, b, c, d, a', b', c', d');
    a', b', c', d' := Xor(a, a'), Xor(b, b'), Xor(c, c'), Xor(d, d');
  }

  lemma SpreadNothing(v: Block)
    ensures Xor(Spread(ZERO, ZERO, ZERO, ZERO), v) == v
  {
    hide Xor, MulXn;
    MulXnLinear(ZERO, ZERO, 8);
    XorUnit(ZERO);
    XorUnit(v);
  }

  /** One block: two look-ups for each of its bytes, kept apart by their place in a 32-bit word. */
  method Multiply2(ghost H: Block, table: array<Block>, red: array<bv16>, x: Block) returns (y: Block)
    requires IsTable2(H, table[..]) && IsReductionTable(red[..])
    ensures y == GfMult(H, x)
  {
    hide Mult, MulXn, Xor, IsTable2, IsReductionTable, Spread, BitsFrom;
    var a, b, c, d := ZERO, ZERO, ZERO, ZERO;
    SpreadNothing(GfMult(H, x));
    MulXnNone(H);
    for row := 0 to 4
      invariant Xor(Spread(a, b, c, d), Mult(MulXn(H, 32 * row), BitsFrom(x, 4 * row))) == GfMult(H, x)
    {
      a, b, c, d := AddWord(H, table, x, row, a, b, c, d);
    }
    NoBitsLeft(H, x);
    XorUnit(Spread(a, b, c, d));
    y := ReduceDelayed(red, a, b, c, d);
  }

  // ---------------------------------------------------------------- the hash

  class GCM_Base {
    var hashKey: Block
    var hashBuffer: Block
    var mulTable: array<Block>
    var reductionTable: array<bv16>

    /** The tables are those of the hash key, of one kind or the other. */
    ghost predicate Valid()
      reads this, mulTable, reductionTable
    {
      || IsTable64(hashKey, mulTable[..])
      || (mulTable.Length == 128 && IsTable2(hashKey, mulTable[..]) && IsReductionTable(reductionTable[..]))
    }

    /** The hash key is the encrypted zero block. */
    constructor (H: Block, tableSize: int)
      ensures Valid() && hashKey == H && hashBuffer == ZERO
      ensures mulTable.Length == if tableSize >= 64 * 1024 then 4096 else 128
    {
      hide IsTable64, IsTable2, IsReductionTable;
      hashKey := H;
      hashBuffer := ZERO;
      var table, red;
      if tableSize >= 64 * 1024 {
        table := BuildTable64(H);
        red := new bv16[256](_ => 0);
        SizeOf64(H, table[..]);
      } else {
        red := BuildReductionTable();
        table := BuildTable2(H);
        SizeOf2(H, table[..]);
      }
      mulTable := table;
      reductionTable := red;
    }

    /** Hashes the whole blocks of `data`, of which there is at least one, and returns the bytes left over. */
    method AuthenticateBlocks(data: seq<bv8>) returns (leftOver: nat)
      requires Valid() && |data| >= 16
      modifies this`hashBuffer
      ensures Valid() && hashBuffer == Ghash(hashKey, old(hashBuffer), data)
      ensures leftOver == |data| % 16
    {
      hide GfMult, Xor, IsTable64, IsTable2, IsReductionTable;
      var x, len := hashBuffer, |data|;
      var rest := data;
      while true
        invariant |rest| == len >= 16 && len % 16 == |data| % 16
        invariant Ghash(hashKey, x, rest) == Ghash(hashKey, hashBuffer, data)
        decreases len
        modifies {}
      {
        x := Xor(x, rest[..16]);
        rest := rest[16..];
        len := len - 16;
        if mulTable.Length >= 4096 {
          SizeOf2Only(hashKey, mulTable[..]);
          x := Multiply64(hashKey, mulTable, x);
        } else {
          SizeOf64Only(hashKey, mulTable[..]);
          x := Multiply2(hashKey, mulTable, reductionTable, x);
        }
        if len < 16 {
          break;
        }
      }
      hashBuffer := x;
      leftOver := len;
    }

    static lemma SizeOf64(H: Block, t: seq<Block>)
      requires IsTable64(H, t)
      ensures |t| == 4096
    {
    }

    static lemma SizeOf2(H: Block, t: seq<Block>)
      requires IsTable2(H, t)
      ensures |t| == 128
    {
    }

    static lemma SizeOf64Only(H: Block, t: seq<Block>)
      ensures IsTable64(H, t) ==> |t| == 4096
    {
    }

    static lemma SizeOf2Only(H: Block, t: seq<Block>)
      ensures IsTable2(H, t) ==> |t| == 128
    {
    }
  }

  /** An object for the enciphered zero block; null where the source refuses the block size of the cipher. */
  method NewGCM_Base(hashKey: seq<bv8>, tableSize: int) returns (gcm: GCM_Base?)
    ensures gcm == null <==> |hashKey| != 16
    ensures gcm != null ==> && fresh(gcm) && gcm.Valid() && gcm.hashKey == hashKey && gcm.hashBuffer == ZERO
                            && gcm.mulTable.Length == if tableSize >= 64 * 1024 then 4096 else 128
  {
    if |hashKey| != 16 {
      return null;
    }
    gcm := new GCM_Base(hashKey, tableSize);
  }
}
