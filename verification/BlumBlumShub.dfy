/**
 blumshub.cpp: the generator of Blum, Blum and Shub.  Squaring is put off until a bit is needed, so
 that one place in the stream can have two states; Seek jumps to a place by way of the exponent.
 */
module BlumBlumShubGenerator {
  import opened Integers
  import opened Bytes
  import BitGroups

  function ModSquare(x: nat, n: nat): nat
    requires n > 0
  {
    (x * x) % n
  }

  /** The number x0 after `k` squarings. */
  function Word(n: nat, x0: nat, k: nat): nat
    requires n > 0
  {
    if k == 0 then x0 % n else ModSquare(Word(n, x0, k - 1), n)
  }

  /** Bit `i` of the stream: from each word after x0 the low `maxBits` bits are taken, the highest first. */
  function StreamBit(n: nat, x0: nat, maxBits: nat, i: nat): bool
    requires n > 0 && maxBits > 0
  {
    GetBit(Word(n, x0, i / maxBits + 1), maxBits - 1 - i % maxBits)
  }

  /** The first `k` of the eight bits from bit `i` on, the first one on top. */
  function StreamBits(n: nat, x0: nat, maxBits: nat, i: nat, k: nat): bv8
    requires n > 0 && maxBits > 0
  {
    if k == 0 then 0
    else (StreamBits(n, x0, maxBits, i, k - 1) << 1) | (if StreamBit(n, x0, maxBits, i + k - 1) then 1 else 0)
  }

  /** The `size` bytes of the stream from bit `i` on. */
  function StreamBytes(n: nat, x0: nat, maxBits: nat, i: nat, size: nat): (s: seq<bv8>)
    requires n > 0 && maxBits > 0
    ensures |s| == size
  {
    seq(size, k requires 0 <= k < size => StreamBits(n, x0, maxBits, i + 8 * k, 8))
  }

  lemma BitCountAtLeastTwo(n: nat)
    requires n > 1
    ensures BitCount(n) > 1
  {
    assert BitCount(n / 2) > 0;
  }

  /** BitPrecision(BitCount(n)) - 1 */
  function MaxBits(n: nat): (m: nat)
    requires n > 1
    ensures m > 0
  {
    BitCountAtLeastTwo(n);
    BitCountAtLeastTwo(BitCount(n));
    BitCount(BitCount(n)) - 1
  }

  type pos = n: int | 0 < n witness 1

  function Totient(p: nat, q: nat): (m: nat)
    requires p > 1 && q > 1
    ensures m > 0
  {
    MulLe(1, p - 1, q - 1);
    (p - 1) * (q - 1)
  }

  // ---------------------------------------------------------------- powers

  lemma Expand(q: int, n: int, r: int, b: int)
    ensures (q * n + r) * b == (q * b) * n + r * b
    ensures (q + r) * n == q * n + r * n
  {
  }

  lemma Recombine(q: int, r: int, n: nat, b: int, q': int, r': int)
    requires r * b == q' * n + r'
    ensures (q * n + r) * b == (q * b + q') * n + r'
  {
    Expand(q, n, r, b);
    Expand(q * b, 1, q', n);
  }

  lemma ModTimes(a: int, b: int, n: nat)
    requires n > 0
    ensures ((a % n) * b) % n == (a * b) % n
  {
    var q, r := a / n, a % n;
    var q', r' := (r * b) / n, (r * b) % n;
    DivisionIdentity(a, n);
    DivisionIdentity(r * b, n);
    Recombine(q, r, n, b, q', r');
    DivModUnique(a * b, n, q * b + q', r');
  }

  lemma Commutes(a: int, b: int)
    ensures a * b == b * a
  {
  }

  lemma ModTimesBoth(a: int, b: int, n: nat)
    requires n > 0
    ensures ((a % n) * (b % n)) % n == (a * b) % n
  {
    ModTimes(a, b % n, n);
    Commutes(a, b % n);
    ModTimes(b, a, n);
    Commutes(a, b);
  }

  lemma Associates(x: int, a: int, b: int)
    ensures x * (a * b) == a * (x * b)
  {
  }

  lemma {:induction false} PowerAdd(x: nat, a: nat, b: nat)
    ensures Pow(x, a + b) == Pow(x, a) * Pow(x, b)
  {
    if b == 0 {
      assert Pow(x, 0) == 1;
    } else {
      PowerAdd(x, a, b - 1);
      Associates(x, Pow(x, a), Pow(x, b - 1));
    }
  }

  lemma Reduced(x: nat, n: nat)
    requires n > 0
    ensures (x % n) % n == x % n
  {
    DivModUnique(x % n, n, 0, x % n);
  }

  lemma PowerOne(x: nat)
    ensures Pow(x, 1) == x
  {
    assert Pow(x, 0) == 1;
  }

  /** Squaring `k` times is raising to 2^k. */
  lemma {:induction false} WordIsPower(n: nat, x0: nat, k: nat)
    requires n > 0
    ensures Word(n, x0, k) == ModExp(x0, Pow2(k), n)
  {
    hide Pow;
    if k == 0 {
      PowerOne(x0);
    } else {
      WordIsPower(n, x0, k - 1);
      var e := Pow2(k - 1);
      PowerAdd(x0, e, e);
      ModTimesBoth(Pow(x0, e), Pow(x0, e), n);
    }
  }

  lemma MulNotNegative(a: int, b: int)
    requires a >= 0 && b >= 0
    ensures a * b >= 0
  {
    MulLe(0, a, b);
  }

  /** When x^(m + 1) is x, positive exponents count modulo m. */
  lemma {:induction false} ExponentMod(x: nat, q: nat, m: nat, r: nat, n: nat)
    requires n > 0 && r > 0 && ModExp(x, m + 1, n) == x % n
    ensures ModExp(x, q * m + r, n) == ModExp(x, r, n)
  {
    hide Pow;
    if q > 0 {
      ExponentMod(x, q - 1, m, r, n);
      var e := (q - 1) * m + r - 1;
      Expand(q - 1, 1, 1, m);
      MulNotNegative(q - 1, m);
      assert q * m + r == (m + 1) + e && (q - 1) * m + r == 1 + e;
      PowerAdd(x, m + 1, e);
      PowerAdd(x, 1, e);
      PowerOne(x);
      ModTimes(Pow(x, m + 1), Pow(x, e), n);
      ModTimes(x, Pow(x, e), n);
    }
  }

  /** Whether the reduced exponent can stand for 2^k: only 0 is not always as good as a multiple of `m`. */
  predicate CanReduce(n: nat, x0: nat, k: nat, m: nat)
    requires n > 0 && m > 0
  {
    Pow2(k) % m > 0 || ModExp(x0, m, n) == 1 % n
  }

  lemma QuotientPositive(q: int, m: nat)
    requires q * m > 0 && q >= 0
    ensures q >= 1
  {
  }

  lemma PowerNone(x: nat)
    ensures Pow(x, 0) == 1
  {
  }

  /** With the exponent reduced, the power is the word if and only if it can be. */
  lemma SeekExponent(n: nat, x0: nat, k: nat, m: nat)
    requires n > 0 && m > 0 && ModExp(x0, m + 1, n) == x0 % n
    ensures ModExp(x0, Pow2(k) % m, n) == Word(n, x0, k) <==> CanReduce(n, x0, k, m)
  {
    hide Pow, Word;
    WordIsPower(n, x0, k);
    var q, e := Pow2(k) / m, Pow2(k) % m;
    DivisionIdentity(Pow2(k), m);
    if e > 0 {
      ExponentMod(x0, q, m, e, n);
    } else {
      QuotientPositive(q, m);
      Expand(q - 1, 1, 1, m);
      ExponentMod(x0, q - 1, m, m, n);
      PowerNone(x0);
    }
  }

  lemma EvenFactor(a: nat, i: nat, b: nat)
    requires a % 2 == 1 && b < 2
    ensures a * (2 * i + b) == 2 * (a * i) + a * b
    ensures (a * (2 * i + b)) % 2 == b
  {
    if b == 1 {
      assert a * 1 == a;
    } else {
      assert a * 0 == 0;
    }
  }

  /** An odd number above 1 divides no power of two. */
  lemma {:induction false} OddDivisor(k: nat, a: nat, j: nat)
    requires a % 2 == 1 && Pow2(k) == a * j
    ensures a == 1
  {
    if k == 0 {
      if a > 1 {
        MulLe(1, j, a);
      }
    } else {
      var i, b := j / 2, j % 2;
      EvenFactor(a, i, b);
      OddDivisor(k - 1, a, i);
    }
  }

  lemma TotientIs(p: nat, q: nat, a: nat, b: nat)
    requires p == 2 * a + 1 && q == 2 * b + 1 && a > 0 && b > 0
    ensures Totient(p, q) == (2 * a) * (2 * b)
  {
  }

  lemma Rearrange(a: nat, b: nat, j: nat)
    ensures j * ((2 * a) * (2 * b)) == a * (2 * (2 * b) * j) == b * (2 * (2 * a) * j)
  {
  }

  lemma OddFactors(k: nat, a: nat, b: nat, j: nat)
    requires a % 2 == 1 && b % 2 == 1 && Pow2(k) == j * ((2 * a) * (2 * b))
    ensures a == 1 && b == 1
  {
    hide Pow2;
    Rearrange(a, b, j);
    OddDivisor(k, a, 2 * (2 * b) * j);
    OddDivisor(k, b, 2 * (2 * a) * j);
  }

  /** For the primes that are asked for, the reduced exponent is never 0. */
  lemma ReducedPositive(k: nat, p: nat, q: nat)
    requires p % 4 == 3 && q % 4 == 3 && p != q
    ensures Pow2(k) % Totient(p, q) > 0
  {
    hide Totient, Pow2;
    var a, b := p / 2, q / 2;
    TotientIs(p, q, a, b);
    if Pow2(k) % Totient(p, q) == 0 {
      DivisionIdentity(Pow2(k), Totient(p, q));
      OddFactors(k, a, b, Pow2(k) / Totient(p, q));
      assert false;
    }
  }

  /**
   Outside these primes it can be: for p = 3, q = 5 and seed 3, going to byte 1 gives the word 1, where
   the sequence has 6.
   */
  lemma SeekCanFail()
    ensures MaxBits(15) == 2 && Totient(3, 5) == 8 && ModSquare(3, 15) == 9 && ModExp(9, 9, 15) == 9
    ensures !CanReduce(15, 9, 8 / 2 + 1, 8) && ModExp(9, Pow2(5) % 8, 15) == 1 && Word(15, 9, 5) == 6
  {
    assert BitCount(15) == 4 && BitCount(4) == 3;
    assert Pow2(5) == 32;
    assert Pow(9, 8) == 43046721 by {
      assert Pow(9, 4) == 6561;
    }
    assert Pow(9, 9) == 9 * Pow(9, 8);
    assert Pow(9, 0) == 1;
    assert Word(15, 9, 2) == 6 && Word(15, 9, 4) == 6;
  }

  // ---------------------------------------------------------------- the bits as numbers

  lemma AppendBit(u: nat, p: nat)
    requires p > 0
    ensures u % (2 * p) == 2 * ((u / 2) % p) + u % 2
  {
    var q := u / 2;
    DivisionIdentity(q, p);
    assert 2 * ((q / p) * p) == (q / p) * (2 * p);
    DivModUnique(u, 2 * p, q / p, 2 * (q % p) + u % 2);
  }

  lemma ShiftStep(w: nat, k: nat)
    ensures Shr(w, k + 1) == Shr(w, k) / 2 && GetBit(w, k) == (Shr(w, k) % 2 == 1)
  {
  }

  /** Bits `m` - 1 to `m` - `j` of `w`. */
  function BitsBelow(w: nat, m: nat, j: nat): (s: seq<bool>)
    requires j <= m
    ensures |s| == j
  {
    seq(j, i requires 0 <= i < j => GetBit(w, m - 1 - i))
  }

  lemma {:induction false} TopBits(w: nat, m: nat, j: nat)
    requires j <= m
    ensures BitGroups.Value(BitsBelow(w, m, j)) == Shr(w, m - j) % Pow2(j)
  {
    hide BitGroups.Value, Shr, GetBit;
    if j == 0 {
      BitGroups.ValueNone();
      assert BitsBelow(w, m, j) == [];
      DivModUnique(Shr(w, m), 1, Shr(w, m), 0);
    } else {
      TopBits(w, m, j - 1);
      assert BitsBelow(w, m, j) == BitsBelow(w, m, j - 1) + [GetBit(w, m - j)];
      BitGroups.ValueOne(BitsBelow(w, m, j - 1), GetBit(w, m - j));
      ShiftStep(w, m - j);
      AppendBit(Shr(w, m - j), Pow2(j - 1));
    }
  }

  lemma BitOfWord(k: nat, maxBits: nat, j: nat)
    requires j < maxBits
    ensures k * maxBits + j >= 0 && (k * maxBits + j) / maxBits == k && (k * maxBits + j) % maxBits == j
  {
    MulLe(0, k, maxBits);
    DivModUnique(k * maxBits + j, maxBits, k, j);
  }

  lemma ShrNone(w: nat)
    ensures Shr(w, 0) == w
  {
  }

  /** `k` bits of the stream, from bit `i` on. */
  function Stretch(n: nat, x0: nat, maxBits: nat, i: nat, k: nat): (s: seq<bool>)
    requires n > 0 && maxBits > 0
    ensures |s| == k
  {
    seq(k, j requires 0 <= j < k => StreamBit(n, x0, maxBits, i + j))
  }

  /** The bits that one word gives, read as a number, are the word modulo 2^maxBits. */
  lemma WordBits(n: nat, x0: nat, maxBits: nat, k: nat)
    requires n > 0 && maxBits > 0
    ensures k * maxBits >= 0
    ensures BitGroups.Value(Stretch(n, x0, maxBits, k * maxBits, maxBits)) == Word(n, x0, k + 1) % Pow2(maxBits)
  {
    hide BitGroups.Value, Word, GetBit, Shr;
    MulLe(0, k, maxBits);
    var w := Word(n, x0, k + 1);
    TopBits(w, maxBits, maxBits);
    var s := Stretch(n, x0, maxBits, k * maxBits, maxBits);
    forall j | 0 <= j < maxBits
      ensures s[j] == GetBit(w, maxBits - 1 - j)
    {
      BitOfWord(k, maxBits, j);
    }
    assert s == BitsBelow(w, maxBits, maxBits);
    ShrNone(w);
  }

  lemma ShiftBitIn(b: bv8, bit: bool)
    requires b as int < 128
    ensures ((b << 1) | (if bit then 1 else 0)) as int == 2 * (b as int) + (if bit then 1 else 0)
  {
    assert b < 128;
    assert (b << 1) | 1 == 2 * b + 1 && (b << 1) | 0 == 2 * b;
  }

  lemma SevenBits()
    ensures Pow2(7) == 128
  {
    assert Pow2(3) == 8;
  }

  lemma {:induction false} StreamBitsNumber(n: nat, x0: nat, maxBits: nat, i: nat, k: nat)
    requires n > 0 && maxBits > 0 && k <= 8
    ensures StreamBits(n, x0, maxBits, i, k) as int == BitGroups.Value(Stretch(n, x0, maxBits, i, k)) < Pow2(k)
  {
    hide BitGroups.Value, StreamBit;
    if k == 0 {
      BitGroups.ValueNone();
      assert Stretch(n, x0, maxBits, i, k) == [];
    } else {
      StreamBitsNumber(n, x0, maxBits, i, k - 1);
      Pow2Le(k - 1, 7);
      SevenBits();
      var s, bit := Stretch(n, x0, maxBits, i, k - 1), StreamBit(n, x0, maxBits, i + k - 1);
      assert Stretch(n, x0, maxBits, i, k) == s + [bit];
      BitGroups.ValueOne(s, bit);
      ShiftBitIn(StreamBits(n, x0, maxBits, i, k - 1), bit);
    }
  }

  /** Byte `k` of the stream from bit `i` on is the number that its eight bits stand for. */
  lemma StreamByteNumber(n: nat, x0: nat, maxBits: nat, i: nat, size: nat, k: nat)
    requires n > 0 && maxBits > 0 && k < size
    ensures StreamBytes(n, x0, maxBits, i, size)[k] as int
         == BitGroups.Value(Stretch(n, x0, maxBits, i + 8 * k, 8))
  {
    hide StreamBit, BitGroups.Value;
    StreamBitsNumber(n, x0, maxBits, i + 8 * k, 8);
  }

  /** From each word as many bits are taken as there are binary digits in the length of the modulus, less one. */
  lemma MaxBitsBounds(n: nat)
    requires n > 1
    ensures Pow2(MaxBits(n)) <= BitCount(n) < Pow2(MaxBits(n) + 1)
  {
    BitCountAtLeastTwo(n);
    BitCountBounds(BitCount(n));
  }

  // ---------------------------------------------------------------- places in the stream

  /** How many bits have been taken when `bitsLeft` are left of word `word`. */
  ghost function Position(word: nat, maxBits: nat, bitsLeft: nat): int {
    word * maxBits - bitsLeft
  }

  /** One place has two states where a word ends; they differ, but the stream goes on alike. */
  lemma SamePlace(word: nat, bitsLeft: nat, word': nat, bitsLeft': nat, maxBits: nat)
    requires bitsLeft <= maxBits && bitsLeft' <= maxBits && maxBits > 0 && word <= word'
    ensures Position(word, maxBits, bitsLeft) == Position(word', maxBits, bitsLeft')
            <==> || (word == word' && bitsLeft == bitsLeft')
                 || (word' == word + 1 && bitsLeft == 0 && bitsLeft' == maxBits)
  {
    if word' >= word + 2 {
      MulLe(word + 2, word', maxBits);
    }
  }

  lemma NextWord(word: nat, maxBits: nat)
    ensures Position(word + 1, maxBits, maxBits) == Position(word, maxBits, 0)
  {
  }

  lemma PlaceOf(word: nat, maxBits: nat, bitsLeft: nat)
    requires word > 0 && 0 < bitsLeft <= maxBits
    ensures Position(word, maxBits, bitsLeft) >= 0
    ensures Position(word, maxBits, bitsLeft) / maxBits == word - 1
    ensures Position(word, maxBits, bitsLeft) % maxBits == maxBits - bitsLeft
  {
    DivModUnique(Position(word, maxBits, bitsLeft), maxBits, word - 1, maxBits - bitsLeft);
    MulLe(1, word, maxBits);
  }

  lemma PlaceIs(i: nat, maxBits: nat)
    requires maxBits > 0
    ensures Position(i / maxBits + 1, maxBits, maxBits - i % maxBits) == i
  {
    DivisionIdentity(i, maxBits);
    Expand(i / maxBits, 1, 1, maxBits);
  }

  // ---------------------------------------------------------------- random access

  /** What was enciphered from place `i` on can be deciphered from any byte on. */
  lemma DecipherFrom(n: nat, x0: nat, maxBits: nat, i: nat, message: seq<bv8>, k: nat)
    requires n > 0 && maxBits > 0 && k <= |message|
    ensures var c := XorBytes(message, StreamBytes(n, x0, maxBits, i, |message|));
            XorBytes(c[k..], StreamBytes(n, x0, maxBits, i + 8 * k, |message| - k)) == message[k..]
  {
    var stream := StreamBytes(n, x0, maxBits, i, |message|);
    forall j | 0 <= j < |message| - k
      ensures stream[k..][j] == StreamBytes(n, x0, maxBits, i + 8 * k, |message| - k)[j]
    {
      assert i + 8 * (k + j) == i + 8 * k + 8 * j;
    }
    assert stream[k..] == StreamBytes(n, x0, maxBits, i + 8 * k, |message| - k);
    XorTwice(message, stream);
    var c := XorBytes(message, stream);
    assert XorBytes(c[k..], stream[k..]) == XorBytes(c, stream)[k..];
  }

  lemma {:induction false} PowerOfTwo(e: nat)
    ensures Pow(2, e) == Pow2(e)
  {
    if e > 0 {
      PowerOfTwo(e - 1);
    }
  }

  lemma SeekWord(n: nat, x0: nat, k: nat, m: nat)
    requires n > 1 && m > 0 && ModExp(x0, m + 1, n) == x0 % n
    ensures ModExp(x0, ModExp(2, k, m), n) == Word(n, x0, k) <==> CanReduce(n, x0, k, m)
    ensures !CanReduce(n, x0, k, m) ==> ModExp(x0, ModExp(2, k, m), n) == 1
  {
    hide Pow, Pow2, Word;
    PowerOfTwo(k);
    PowerNone(x0);
    DivModUnique(1, n, 0, 1);
    SeekExponent(n, x0, k, m);
  }

  lemma DocumentedPrimes(n: nat, x0: nat, k: nat, p: nat, q: nat)
    requires n > 0 && p % 4 == 3 && q % 4 == 3 && p != q
    ensures CanReduce(n, x0, k, Totient(p, q))
  {
    ReducedPositive(k, p, q);
  }

  lemma WordNext(n: nat, x0: nat, word: nat)
    requires n > 0
    ensures Word(n, x0, word + 1) == ModSquare(Word(n, x0, word), n)
  {
  }

  class BlumBlumShub {
    const n: pos
    const maxBits: pos
    const p: nat
    const q: nat
    const x0: nat
    var bitsLeft: nat
    var current: nat
    ghost var word: nat       // which word `current` is

    ghost predicate Valid()
      reads this
    {
      && p > 1 && q > 1 && n == p * q && n > 1 && maxBits == MaxBits(n)
      && word > 0 && bitsLeft <= maxBits && current == Word(n, x0, word) && Position(word, maxBits, bitsLeft) >= 0
    }

    /** How many bits of the stream lie behind. */
    ghost function Place(): (i: int)
      reads this
      ensures Valid() ==> i >= 0
    {
      Position(word, maxBits, bitsLeft)
    }

    constructor (p: nat, q: nat, seed: nat)
      requires p > 1 && q > 1
      ensures Valid() && this.p == p && this.q == q && n == p * q && x0 == ModSquare(seed, p * q) && Place() == 0
    {
      MulLe(2, p, q);
      this.p, this.q, n := p, q, p * q;
      maxBits := MaxBits(p * q);
      x0 := ModSquare(seed, p * q);
      current := ModSquare(ModSquare(seed, p * q), p * q);
      bitsLeft := MaxBits(p * q);
      word := 1;
      Reduced(seed * seed, p * q);
    }

    method GenerateBit() returns (b: bool)
      requires Valid()
      modifies this`bitsLeft, this`current, this`word
      ensures Valid() && Place() == old(Place()) + 1 && b == StreamBit(n, x0, maxBits, old(Place()))
    {
      hide Word, GetBit;
      if bitsLeft == 0 {
        NextWord(word, maxBits);
        WordNext(n, x0, word);
        current := ModSquare(current, n);
        bitsLeft := maxBits;
        word := word + 1;
      }
      PlaceOf(word, maxBits, bitsLeft);
      bitsLeft := bitsLeft - 1;
      b := GetBit(current, bitsLeft);
    }

    method GenerateByte() returns (b: bv8)
      requires Valid()
      modifies this`bitsLeft, this`current, this`word
      ensures Valid() && Place() == old(Place()) + 8 && b == StreamBits(n, x0, maxBits, old(Place()), 8)
    {
      hide StreamBit, Valid, Position;
      b := 0;
      for i := 0 to 8
        invariant Valid() && Place() == old(Place()) + i && b == StreamBits(n, x0, maxBits, old(Place()), i)
      {
        var bit := GenerateBit();
        b := (b << 1) | (if bit then 1 else 0);
      }
    }

    method GenerateBlock(size: nat) returns (output: seq<bv8>)
      requires Valid()
      modifies this`bitsLeft, this`current, this`word
      ensures Valid() && Place() == old(Place()) + 8 * size && output == StreamBytes(n, x0, maxBits, old(Place()), size)
    {
      hide StreamBits, Valid, Position;
      output := [];
      for i := 0 to size
        invariant Valid() && Place() == old(Place()) + 8 * i && output == StreamBytes(n, x0, maxBits, old(Place()), i)
      {
        var b := GenerateByte();
        output := output + [b];
      }
    }

    method ProcessData(inString: seq<bv8>) returns (outString: seq<bv8>)
      requires Valid()
      modifies this`bitsLeft, this`current, this`word
      ensures Valid() && Place() == old(Place()) + 8 * |inString|
      ensures outString == XorBytes(inString, StreamBytes(n, x0, maxBits, old(Place()), |inString|))
    {
      hide StreamBits, Valid, Position;
      outString := [];
      for i := 0 to |inString|
        invariant Valid() && Place() == old(Place()) + 8 * i && |outString| == i
        invariant outString == XorBytes(inString[..i], StreamBytes(n, x0, maxBits, old(Place()), i))
      {
        var b := GenerateByte();
        outString := outString + [XorByte(inString[i], b)];
      }
      assert inString[..|inString|] == inString;
    }

    /**
     Goes to a byte of the stream, if and only if the exponent can be reduced.  That x0^((p-1)(q-1)+1) is
     x0 holds for different primes p and q and any seed, by Fermat's theorem.
     */
    method Seek(index: nat)
      requires Valid() && ModExp(x0, Totient(p, q) + 1, n) == x0 % n
      modifies this`bitsLeft, this`current, this`word
      ensures var k := index * 8 / maxBits + 1;
              && (CanReduce(n, x0, k, Totient(p, q)) ==> Valid() && Place() == 8 * index)
              && (!CanReduce(n, x0, k, Totient(p, q)) ==> current == 1 != Word(n, x0, k))
      ensures p % 4 == 3 && q % 4 == 3 && p != q ==> Valid() && Place() == 8 * index
    {
      hide Word, ModExp, Totient, Position, MaxBits, CanReduce;
      var i := index * 8;
      var e := ModExp(2, i / maxBits + 1, Totient(p, q));
      SeekWord(n, x0, i / maxBits + 1, Totient(p, q));
      PlaceIs(i, maxBits);
      current := ModExp(x0, e, n);
      bitsLeft := maxBits - i % maxBits;
      word := i / maxBits + 1;
      if p % 4 == 3 && q % 4 == 3 && p != q {
        DocumentedPrimes(n, x0, i / maxBits + 1, p, q);
      }
    }
  }
}
