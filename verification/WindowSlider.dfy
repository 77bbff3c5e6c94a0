/**
 The exponent recoding of algebra.cpp: an exponent is consumed from its low end as a
 sequence of odd, possibly negative windows.
 */
module WindowSliders {
  import opened Integers

  const WORD_BITS: nat := 64

  /** Number of machine words of a non-negative integer. */
  function WordCount(x: nat): nat
  {
    (BitCount(x) + WORD_BITS - 1) / WORD_BITS
  }

  function DefaultWindowSize(expLen: nat): (w: nat)
    ensures 1 <= w <= 7
  {
    if expLen <= 17 then 1
    else if expLen <= 24 then 2
    else if expLen <= 70 then 3
    else if expLen <= 197 then 4
    else if expLen <= 539 then 5
    else if expLen <= 1434 then 6
    else 7
  }

  lemma NothingAbove(exp: nat, k: nat)
    requires k >= WordCount(exp) * WORD_BITS
    ensures Shr(exp, k) == 0
  {
    BitCountBounds(exp);
    Pow2Le(BitCount(exp), k);
    ShrSmall(exp, k);
  }

  /** The scan of FindNextWindow for the next set bit, which gives up above the highest word. */
  method SkipZeroBits(exp: nat, start: nat) returns (found: bool, skipCount: nat)
    ensures found ==> start <= skipCount && GetBit(exp, skipCount)
    ensures found ==> Shr(exp, start) == Shl(Shr(exp, skipCount), skipCount - start)
    ensures !found ==> Shr(exp, start) == 0
  {
    var expLen := WordCount(exp) * WORD_BITS;
    skipCount := start;
    while !GetBit(exp, skipCount)
      invariant start <= skipCount
      invariant Shr(exp, start) == Shl(Shr(exp, skipCount), skipCount - start)
      decreases expLen - skipCount
    {
      if skipCount >= expLen {
        NothingAbove(exp, skipCount);
        ShlZero(skipCount - start);
        return false, skipCount;
      }
      ShlDouble(Shr(exp, skipCount + 1), skipCount - start);
      skipCount := skipCount + 1;
    }
    return true, skipCount;
  }

  /** `m` and `d` split the quotient `q` at position `p` into a window at `p + s` and a rest. */
  ghost predicate Splits(q: nat, p: nat, s: nat, w: nat, d: int, m: nat, limit: nat) {
    && Shl(q, p) == Shl(d, p + s) + Shl(m, p + s + w)
    && p + s <= limit
    && (m == 0 || (p + s + w <= limit && m <= Pow2(limit - (p + s + w))))
  }

  lemma LowOdd(e: nat, w: nat)
    requires w >= 1 && e % 2 == 1
    ensures Pow2(w) % 2 == 0 && Low(e, w) % 2 == 1
  {
    var r := Low(e, w);
  }

  /** Borrowing one unit from above turns the low window negative. */
  lemma Borrow(e: nat, w: nat)
    ensures Shr(e + Pow2(w), w) == Shr(e, w) + 1
    ensures e == Shl(Shr(e, w) + 1, w) + Low(e, w) - Pow2(w)
  {
    ShlZero(w);
    ShlAdd(Shr(e, w), 1, w);
    ShrUnique(e + Pow2(w), w, Shr(e, w) + 1, Low(e, w));
  }

  /** A borrow stays within the bits the exponent had. */
  lemma WindowBound(e: nat, w: nat, t: nat)
    requires w >= 1 && e % 2 == 1 && e <= Pow2(t)
    ensures Shr(e, w) == 0 || (w <= t && Shr(e, w) < Pow2(t - w))
  {
    ShrSmall(e, w);
    if e >= Pow2(w) {
      assert e < Pow2(t) by {
        assert t > 0;
      }
      Pow2Order(w, t);
      Pow2Add(t - w, w);
      ShlOrder(Pow2(t - w), Shr(e, w), w);
      var r := Low(e, w);
    }
  }

  lemma OddAfterSkip(q: nat, e: nat, s: nat, t: int)
    requires e % 2 == 1 && q == Shl(e, s)
    requires q == 0 || (0 <= t && q <= Pow2(t))
    ensures s <= t && e <= Pow2(t - s)
  {
    ShlZero(s);
    ShlOrder(1, e, s);
    if s <= t {
      Pow2Add(t - s, s);
      ShlOrder(e, Pow2(t - s), s);
    } else {
      Pow2Le(t + 1, s);
    }
  }

  lemma RestSplit(q: nat, s: nat, p: nat, e: nat, m: nat, w: nat, d: int)
    requires q == Shl(e, s) && e == Shl(m, w) + d
    ensures Shl(q, p) == Shl(d, p + s) + Shl(m, p + s + w)
  {
    ShlShl(e, s, p);
    ShlAdd(Shl(m, w), d, s + p);
    ShlShl(m, w, s + p);
  }

  /** Both ways of reading the window at the bottom of the odd number `e`. */
  lemma FoundWindow(q: nat, p: nat, s: nat, e: nat, w: nat, limit: nat)
    requires w >= 1 && e % 2 == 1 && q == Shl(e, s)
    requires q == 0 || (p <= limit && q <= Pow2(limit - p))
    ensures 0 < Low(e, w) < Pow2(w) && Low(e, w) % 2 == 1 && (Pow2(w) - Low(e, w)) % 2 == 1
    ensures Splits(q, p, s, w, Low(e, w), Shr(e, w), limit)
    ensures GetBit(e, w) ==> Splits(q, p, s, w, -(Pow2(w) - Low(e, w)), Shr(e + Pow2(w), w), limit)
  {
    OddAfterSkip(q, e, s, limit - p);
    LowOdd(e, w);
    Borrow(e, w);
    WindowBound(e, w, limit - p - s);
    RestSplit(q, s, p, e, Shr(e, w), w, Low(e, w));
    RestSplit(q, s, p, e, Shr(e, w) + 1, w, Low(e, w) - Pow2(w));
  }

  lemma ShiftedNotZero(e: nat, s: nat, p: nat)
    requires e > 0
    ensures Shl(Shl(e, s), p) > 0
  {
    ShlShl(e, s, p);
    ShlZero(s + p);
    ShlOrder(1, e, s + p);
  }

  class WindowSlider {
    var exp: nat
    var windowModulus: nat
    var windowSize: nat
    var windowBegin: nat
    var expWindow: nat
    const fastNegate: bool
    var negateNext: bool
    var firstTime: bool
    var finished: bool
    ghost const limit: nat    // no window begins above this bit

    /** What lies above the current window, and the bit it starts at. */
    ghost function Quotient(): nat
      reads this
    {
      if firstTime then exp else Shr(exp, windowSize)
    }

    ghost function Position(): nat
      reads this
    {
      if firstTime then 0 else windowBegin + windowSize
    }

    /** The part of the exponent no window has been produced for. */
    ghost function Rest(): int
      reads this
    {
      Shl(Quotient(), Position())
    }

    /** The current signed window. */
    ghost function Digit(): int
      reads this
    {
      if negateNext then -(expWindow as int) else expWindow
    }

    /** The current window and everything above it. */
    ghost function Pending(): int
      reads this
    {
      if finished then 0 else Shl(Digit(), windowBegin) + Rest()
    }

    ghost predicate Valid()
      reads this
    {
      && windowSize >= 1
      && windowModulus == Pow2(windowSize)
      && (finished ==> Quotient() == 0)
      && (firstTime ==> windowBegin == 0)
      && (Quotient() == 0 || (Position() <= limit && Quotient() <= Pow2(limit - Position())))
    }

    /** What holds of a window that has been found. */
    ghost predicate HasWindow()
      reads this
    {
      && !finished && !firstTime
      && expWindow % 2 == 1 && expWindow < Pow2(windowSize)
      && (negateNext ==> fastNegate)
      && windowBegin <= limit
    }

    constructor (expIn: nat, fastNegate: bool, windowSizeIn: nat)
      ensures Valid() && !finished && firstTime
      ensures Rest() == expIn && this.fastNegate == fastNegate && limit == BitCount(expIn)
      ensures windowSize == if windowSizeIn == 0 then DefaultWindowSize(BitCount(expIn)) else windowSizeIn
    {
      BitCountBounds(expIn);
      var w := if windowSizeIn == 0 then DefaultWindowSize(BitCount(expIn)) else windowSizeIn;
      ShlZero(w);
      exp := expIn;
      windowSize := w;
      windowModulus := Shl(1, w);
      windowBegin := 0;
      expWindow := 0;
      this.fastNegate := fastNegate;
      negateNext := false;
      firstTime := true;
      finished := false;
      limit := BitCount(expIn);
    }

    /**
     Moves to the next window: the rest of the exponent is split into an odd signed window
     at `windowBegin` and a new rest, at least `windowSize` bits further up; or nothing is
     left, and just then the slider is finished.
     */
    method FindNextWindow()
      requires Valid() && !finished
      modifies this
      ensures Valid() && !firstTime && windowSize == old(windowSize)
      ensures finished <==> old(Rest()) == 0
      ensures !finished ==> HasWindow() && windowBegin >= old(Position())
      ensures Pending() == old(Rest())
    {
      var skipCount := if firstTime then 0 else windowSize;
      ghost var start, q, p := skipCount, Quotient(), Position();
      firstTime := false;
      var found;
      found, skipCount := SkipZeroBits(exp, skipCount);
      if !found {
        ShrSmall(exp, windowSize);
        ShlZero(p);
        finished := true;
        return;
      }

      ShiftedNotZero(Shr(exp, skipCount), skipCount - start, p);
      TakeWindow(skipCount, q, p, skipCount - start);
    }

    /** The second half of FindNextWindow: the window is taken from the bits above `skipCount`. */
    method TakeWindow(skipCount: nat, ghost q: nat, ghost p: nat, ghost s: nat)
      requires !firstTime && !finished && windowSize >= 1 && windowModulus == Pow2(windowSize)
      requires GetBit(exp, skipCount) && q == Shl(Shr(exp, skipCount), s)
      requires q == 0 || (p <= limit && q <= Pow2(limit - p))
      requires windowBegin + skipCount == p + s
      modifies this
      ensures Found(q, p, s, old(windowSize))
      ensures HasWindow()
    {
      FoundWindow(q, p, s, Shr(exp, skipCount), windowSize, limit);
      exp := Shr(exp, skipCount);
      windowBegin := windowBegin + skipCount;
      expWindow := Low(exp, windowSize);
      if fastNegate && GetBit(exp, windowSize) {
        negateNext := true;
        expWindow := Pow2(windowSize) - expWindow;
        exp := exp + windowModulus;
      } else {
        negateNext := false;
      }
    }

    /** The state after a window, in terms of the quotient `q` it was taken from. */
    ghost predicate Found(q: nat, p: nat, s: nat, w: nat)
      reads this
    {
      && !firstTime && !finished && windowSize == w && windowBegin == p + s
      && Splits(q, p, s, w, Digit(), Shr(exp, w), limit)
      && windowModulus == Pow2(w)
    }
  }

  /** No slider goes beyond this place. */
  ghost function Highest(sliders: seq<WindowSlider>): (m: nat)
    reads sliders
    ensures forall i :: 0 <= i < |sliders| ==> sliders[i].limit <= m
  {
    if sliders == [] then 0
    else Max(Highest(sliders[..|sliders| - 1]), sliders[|sliders| - 1].limit)
  }
}
