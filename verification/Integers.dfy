/**
 Facts about the non-negative multi-precision integers used throughout the library: shifts,
 bits and bit counts.  Shifts go one place at a time, which keeps the proofs about them linear;
 `ShlIsTimes` and `ShrIsDiv` relate them to multiplication and division.
 */
module Integers {

  function Pow2(n: nat): (r: nat)
    ensures r > 0
  {
    if n == 0 then 1 else 2 * Pow2(n - 1)
  }

  /** `x << k`. */
  function Shl(x: int, k: nat): int {
    if k == 0 then x else 2 * Shl(x, k - 1)
  }

  /** `x >> k`. */
  function Shr(x: nat, k: nat): nat {
    if k == 0 then x else Shr(x, k - 1) / 2
  }

  lemma {:induction false} ShlAdd(x: int, y: int, k: nat)
    ensures Shl(x + y, k) == Shl(x, k) + Shl(y, k)
  {
    if k > 0 {
      ShlAdd(x, y, k - 1);
    }
  }

  lemma {:induction false} ShlDouble(x: int, k: nat)
    ensures Shl(2 * x, k) == 2 * Shl(x, k)
  {
    if k > 0 {
      ShlDouble(x, k - 1);
    }
  }

  lemma {:induction false} ShlIsTimes(x: int, k: nat)
    ensures Shl(x, k) == x * Pow2(k)
  {
    if k > 0 {
      ShlIsTimes(x, k - 1);
    }
  }

  /** The `k` low bits of `x`. */
  function Low(x: nat, k: nat): (r: nat)
    ensures r < Pow2(k)
    ensures x == Shl(Shr(x, k), k) + r
  {
    if k == 0 then 0 else
    var bit := Shr(x, k - 1) % 2;
    ShlAdd(2 * Shr(x, k), bit, k - 1);
    ShlDouble(Shr(x, k), k - 1);
    ShlIsTimes(bit, k - 1);
    Low(x, k - 1) + (if bit == 1 then Pow2(k - 1) else 0)
  }

  /** Bit `k` of `x`, least significant bit first. */
  predicate GetBit(x: nat, k: nat) {
    Shr(x, k) % 2 == 1
  }

  /** The length of `x` in bits; 0 has no bits. */
  function BitCount(x: nat): nat {
    if x == 0 then 0 else 1 + BitCount(x / 2)
  }

  function Max(a: int, b: int): int {
    if a < b then b else a
  }

  function Min(a: int, b: int): int {
    if a < b then a else b
  }

  // ---------------------------------------------------------------- powers

  function Pow(x: int, e: nat): int {
    if e == 0 then 1 else x * Pow(x, e - 1)
  }

  function Power256(k: nat): (n: nat)
    ensures n > 0
  {
    if k == 0 then 1 else 256 * Power256(k - 1)
  }

  /** The number with these digits in base 256, the highest first. */
  function Number(s: seq<nat>): nat {
    if s == [] then 0 else 256 * Number(s[..|s| - 1]) + s[|s| - 1]
  }

  lemma Powers256()
    ensures Power256(2) == 0x1_0000 && Power256(4) == 0x1_0000_0000 && Power256(8) == 0x1_0000_0000_0000_0000
  {
    assert Power256(1) == 256 * Power256(0);
    assert Power256(3) == 256 * Power256(2);
    assert Power256(5) == 256 * Power256(4);
    assert Power256(6) == 256 * Power256(5);
    assert Power256(7) == 256 * Power256(6);
    assert Power256(8) == 256 * Power256(7);
  }

  function ModExp(x: int, e: nat, n: nat): (r: nat)
    requires n > 0
    ensures r < n
  {
    Pow(x, e) % n
  }

  // ---------------------------------------------------------------- multiplication and division

  lemma MulLe(a: int, b: int, c: int)
    requires 0 <= c && a <= b
    ensures a * c <= b * c
  {
  }

  lemma SmallMultiple(k: int, d: int)
    requires d > 0 && -d < k * d < d
    ensures k == 0
  {
    if k >= 1 {
      MulLe(1, k, d);
    } else if k <= -1 {
      MulLe(k, -1, d);
    }
  }

  lemma DivisionIdentity(x: int, n: int)
    requires n > 0
    ensures x == (x / n) * n + x % n
  {
  }

  lemma DivModUnique(x: int, d: int, q: int, r: int)
    requires d > 0 && x == q * d + r && 0 <= r < d
    ensures x / d == q && x % d == r
  {
    var q', r' := x / d, x % d;
    assert (q - q') * d == r' - r;
    SmallMultiple(q - q', d);
  }

  lemma AddBlock(n: nat, blockSize: nat)
    requires blockSize > 0
    ensures (n + blockSize) % blockSize == n % blockSize
  {
    DivModUnique(n + blockSize, blockSize, n / blockSize + 1, n % blockSize);
  }

  lemma AddMultiples(m: nat, n: nat, blockSize: nat)
    requires blockSize > 0 && m % blockSize == 0 && n % blockSize == 0
    ensures (m + n) % blockSize == 0
  {
    DivModUnique(m + n, blockSize, m / blockSize + n / blockSize, 0);
  }

  // ---------------------------------------------------------------- left shifts

  lemma {:induction false} ShlShl(x: int, a: nat, b: nat)
    ensures Shl(Shl(x, a), b) == Shl(x, a + b)
  {
    if b > 0 {
      ShlShl(x, a, b - 1);
    }
  }

  lemma {:induction false} ShlOrder(x: int, y: int, k: nat)
    ensures x <= y <==> Shl(x, k) <= Shl(y, k)
  {
    if k > 0 {
      ShlOrder(x, y, k - 1);
    }
  }

  lemma {:induction false} ShlZero(k: nat)
    ensures Shl(0, k) == 0 && Shl(1, k) == Pow2(k)
  {
    if k > 0 {
      ShlZero(k - 1);
    }
  }

  lemma Pow2Add(a: nat, b: nat)
    ensures Pow2(a + b) == Shl(Pow2(a), b)
  {
    ShlZero(a);
    ShlZero(a + b);
    ShlShl(1, a, b);
  }

  lemma {:induction false} Pow2Le(a: nat, b: nat)
    requires a <= b
    ensures Pow2(a) <= Pow2(b)
  {
    if a < b {
      Pow2Le(a, b - 1);
    }
  }

  lemma Pow2Order(a: nat, b: nat)
    requires Pow2(a) < Pow2(b)
    ensures a < b
  {
    if b <= a {
      Pow2Le(b, a);
    }
  }

  lemma {:induction false} Pow2Above(n: nat)
    ensures n < Pow2(n)
  {
    if n > 0 {
      Pow2Above(n - 1);
    }
  }

  // ---------------------------------------------------------------- right shifts

  lemma {:induction false} ShrShr(x: nat, a: nat, b: nat)
    ensures Shr(Shr(x, a), b) == Shr(x, a + b)
  {
    if b > 0 {
      ShrShr(x, a, b - 1);
    }
  }

  lemma ShrIsDiv(x: nat, k: nat)
    ensures Shr(x, k) == x / Pow2(k) && Low(x, k) == x % Pow2(k)
  {
    ShlIsTimes(Shr(x, k), k);
    DivModUnique(x, Pow2(k), Shr(x, k), Low(x, k));
  }

  /** A quotient by a power of two is recognised by its remainder. */
  lemma ShrUnique(x: nat, k: nat, q: int, r: int)
    requires x == Shl(q, k) + r && 0 <= r < Pow2(k)
    ensures Shr(x, k) == q && Low(x, k) == r
  {
    ShlIsTimes(q, k);
    DivModUnique(x, Pow2(k), q, r);
    ShrIsDiv(x, k);
  }

  lemma ShrSmall(x: nat, k: nat)
    ensures x < Pow2(k) <==> Shr(x, k) == 0
  {
    ShlZero(k);
    var r := Low(x, k);
    if Shr(x, k) > 0 {
      ShlOrder(1, Shr(x, k), k);
    }
  }

  lemma {:induction false} BitCountBounds(x: nat)
    ensures x < Pow2(BitCount(x))
    ensures x > 0 ==> BitCount(x) > 0 && Pow2(BitCount(x) - 1) <= x
  {
    if x > 0 {
      BitCountBounds(x / 2);
    }
  }
}
