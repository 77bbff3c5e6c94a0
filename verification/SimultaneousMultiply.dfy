/**
 AbstractGroup::SimultaneousMultiply of algebra.cpp: several multiples of one base at once, by
 sorting the windows of every exponent into buckets and summing the buckets afterwards.
 */
module SimultaneousMultiplication {
  import opened Integers
  import opened AbstractGroups
  import opened WindowSliders

  // ---------------------------------------------------------------- what the buckets stand for

  /** The sum of (2k + 1) * B[k] over k >= j. */
  ghost function Weighted(B: seq<int>, j: nat): int
    decreases |B| - j
  {
    if j >= |B| then 0 else (2 * j + 1) * B[j] + Weighted(B, j + 1)
  }

  ghost function SuffixSum(B: seq<int>, j: nat): int
    decreases |B| - j
  {
    if j >= |B| then 0 else B[j] + SuffixSum(B, j + 1)
  }

  /** The sum of the suffix sums from j on, which is what the running-sum pass adds up. */
  ghost function SuffixSums(B: seq<int>, j: nat): int
    decreases |B| - j
  {
    if j >= |B| then 0 else SuffixSum(B, j) + SuffixSums(B, j + 1)
  }

  lemma {:induction false} WeightedBySuffixes(B: seq<int>, j: nat)
    ensures Weighted(B, j) == 2 * SuffixSums(B, j + 1) + (2 * j + 1) * SuffixSum(B, j)
    decreases |B| - j
  {
    if j < |B| {
      WeightedBySuffixes(B, j + 1);
      assert (2 * j + 1) * SuffixSum(B, j) == (2 * j + 1) * B[j] + (2 * j + 1) * SuffixSum(B, j + 1);
      assert (2 * (j + 1) + 1) * SuffixSum(B, j + 1) == (2 * j + 1) * SuffixSum(B, j + 1) + 2 * SuffixSum(B, j + 1);
    }
  }

  lemma {:induction false} WeightedUpdate(B: seq<int>, j: nat, k: nat, d: int)
    requires k < |B|
    ensures var B' := B[k := B[k] + d];
            Weighted(B', j) == Weighted(B, j) + (if j <= k then (2 * k + 1) * d else 0)
    decreases |B| - j
  {
    if j < |B| {
      WeightedUpdate(B, j + 1, k, d);
      if j == k {
        assert (2 * k + 1) * (B[k] + d) == (2 * k + 1) * B[k] + (2 * k + 1) * d;
      }
    }
  }

  lemma {:induction false} WeightedZero(B: seq<int>, j: nat)
    requires forall k :: 0 <= k < |B| ==> B[k] == 0
    ensures Weighted(B, j) == 0
    decreases |B| - j
  {
    if j < |B| {
      WeightedZero(B, j + 1);
    }
  }

  /** Every bucket holds the multiple of the base recorded for it. */
  ghost predicate Holds<T>(G: Group<T>, base: T, bucket: seq<T>, B: seq<int>) {
    |bucket| == |B| && forall k :: 0 <= k < |B| ==> bucket[k] == Times(G, B[k], base)
  }

  /** The slider of exponent `e` and its buckets: what is sorted in plus what is pending is `e`. */
  ghost predicate InStep(slider: WindowSlider, B: seq<int>, e: int, pos: nat)
    reads slider
  {
    && slider.Valid()
    && |B| == Pow2(slider.windowSize - 1)
    && (slider.finished || (slider.HasWindow() && slider.windowBegin >= pos))
    && Weighted(B, 0) + slider.Pending() == e
  }

  // ---------------------------------------------------------------- the three passes

  /** One window goes into its bucket and the slider moves on. */
  method AddWindow<T(!new)>(G: Group<T>, ghost base: T, g: T, ghost pos: nat, slider: WindowSlider,
                            bucket: seq<T>, ghost B: seq<int>, ghost e: int)
    returns (bucket': seq<T>, ghost B': seq<int>)
    requires Abelian(G) && G.contains(base) && g == Times(G, Pow2(pos), base)
    requires Holds(G, base, bucket, B)
    requires InStep(slider, B, e, pos) && !slider.finished && slider.windowBegin == pos
    modifies slider
    ensures Holds(G, base, bucket', B')
    ensures InStep(slider, B', e, pos + 1)
  {
    hide Times, Abelian, Shl, Weighted;
    var k := slider.expWindow / 2;
    ghost var d := if slider.negateNext then -(Pow2(pos) as int) else Pow2(pos);
    TimesAdd(G, B[k], d, base);
    TimesNegate(G, Pow2(pos), base);
    WeightedUpdate(B, 0, k, d);
    ShlIsTimes(slider.Digit(), pos);
    bucket' := bucket[k := G.add(bucket[k], if slider.negateNext then G.inverse(g) else g)];
    B' := B[k := B[k] + d];
    slider.FindNextWindow();
  }

  /** The multiples in the buckets are combined with weights 1, 3, 5, and so on. */
  method SumBuckets<T(!new)>(G: Group<T>, ghost base: T, bucket: seq<T>, ghost B: seq<int>) returns (r: T)
    requires Abelian(G) && G.contains(base)
    requires Holds(G, base, bucket, B) && |B| >= 1
    ensures r == Times(G, Weighted(B, 0), base)
  {
    hide Times, Abelian;
    var b := bucket;
    var n := |b|;
    r := b[n - 1];
    WeightedBySuffixes(B, 0);
    if n > 1 {
      var j := n - 2;
      while j >= 1
        invariant 0 <= j <= n - 2 && |b| == n
        invariant b[j + 1] == Times(G, SuffixSum(B, j + 1), base)
        invariant forall k :: 0 <= k <= j ==> b[k] == Times(G, B[k], base)
        invariant r == Times(G, SuffixSums(B, j + 1), base)
      {
        TimesAdd(G, B[j], SuffixSum(B, j + 1), base);
        TimesAdd(G, SuffixSums(B, j + 1), SuffixSum(B, j), base);
        b := b[j := G.add(b[j], b[j + 1])];
        r := G.add(r, b[j]);
        j := j - 1;
      }
      TimesAdd(G, B[0], SuffixSum(B, 1), base);
      TimesAdd(G, SuffixSums(B, 1), SuffixSums(B, 1), base);
      TimesAdd(G, 2 * SuffixSums(B, 1), SuffixSum(B, 0), base);
      b := b[0 := G.add(b[0], b[1])];
      r := G.add(G.add(r, r), b[0]);
    }
  }

  /** Every exponent has its slider at or above `pos`, those before `n` already above it. */
  ghost predicate AllInStep<T(!new)>(G: Group<T>, base: T, exps: seq<nat>, sliders: seq<WindowSlider>,
                              buckets: seq<seq<T>>, Bs: seq<seq<int>>, pos: nat, n: nat)
    reads sliders
  {
    && |sliders| == |buckets| == |Bs| == |exps|
    && (forall i, j :: 0 <= i < j < |sliders| ==> sliders[i] != sliders[j])
    && (forall i :: 0 <= i < |exps| ==> Holds(G, base, buckets[i], Bs[i]))
    && (forall i :: 0 <= i < |exps| ==> InStep(sliders[i], Bs[i], exps[i], if i < n then pos + 1 else pos))
  }

  /** The first pass: a slider standing on its first window, and empty buckets, per exponent. */
  method StartSliders<T(!new)>(G: Group<T>, ghost base: T, exps: seq<nat>)
    returns (sliders: seq<WindowSlider>, buckets: seq<seq<T>>, ghost Bs: seq<seq<int>>)
    requires Abelian(G) && G.contains(base)
    ensures fresh(sliders) && AllInStep(G, base, exps, sliders, buckets, Bs, 0, 0)
  {
    sliders, buckets, Bs := [], [], [];
    while |sliders| < |exps|
      invariant |sliders| == |buckets| == |Bs| <= |exps|
      invariant fresh(sliders)
      invariant forall i, j :: 0 <= i < j < |sliders| ==> sliders[i] != sliders[j]
      invariant forall i :: 0 <= i < |sliders| ==>
                Holds(G, base, buckets[i], Bs[i]) && InStep(sliders[i], Bs[i], exps[i], 0)
    {
      var e := exps[|sliders|];
      var s := new WindowSlider(e, G.inversionIsFast, 0);
      s.FindNextWindow();
      var size := Pow2(s.windowSize - 1);
      ghost var B := seq(size, _ => 0);
      WeightedZero(B, 0);
      sliders := sliders + [s];
      buckets := buckets + [seq(size, _ => G.identity)];
      Bs := Bs + [B];
    }
  }

  /** A slider that has nothing to do at `pos` is already in step with the next position. */
  lemma Idle(slider: WindowSlider, B: seq<int>, e: int, pos: nat)
    requires InStep(slider, B, e, pos)
    requires slider.finished || slider.windowBegin != pos
    ensures InStep(slider, B, e, pos + 1)
  {
  }

  lemma NotBeyondLimit(slider: WindowSlider, B: seq<int>, e: int, pos: nat)
    requires InStep(slider, B, e, pos)
    ensures slider.finished || pos <= slider.limit
    ensures slider.finished ==> Weighted(B, 0) == e
    ensures |B| >= 1
  {
  }

  /** One round of the main loop: every slider standing at `pos` puts its window into a bucket. */
  method Round<T(!new)>(G: Group<T>, ghost base: T, ghost exps: seq<nat>, g: T, pos: nat, sliders: seq<WindowSlider>,
                        buckets: seq<seq<T>>, ghost Bs: seq<seq<int>>)
    returns (notDone: bool, buckets': seq<seq<T>>, ghost Bs': seq<seq<int>>)
    requires Abelian(G) && G.contains(base) && g == Times(G, Pow2(pos), base)
    requires AllInStep(G, base, exps, sliders, buckets, Bs, pos, 0)
    modifies sliders
    ensures AllInStep(G, base, exps, sliders, buckets', Bs', pos, |exps|)
    ensures notDone <==> exists k :: 0 <= k < |sliders| && !sliders[k].finished
  {
    hide Times, Abelian, Shl, Weighted, Pow2, InStep, Holds;
    buckets', Bs' := buckets, Bs;
    notDone := false;
    for i := 0 to |sliders|
      invariant AllInStep(G, base, exps, sliders, buckets', Bs', pos, i)
      invariant notDone <==> exists k :: 0 <= k < i && !sliders[k].finished
    {
      if !sliders[i].finished && pos == sliders[i].windowBegin {
        var bucket;
        ghost var B;
        bucket, B := AddWindow(G, base, g, pos, sliders[i], buckets'[i], Bs'[i], exps[i]);
        buckets' := buckets'[i := bucket];
        Bs' := Bs'[i := B];
      } else {
        Idle(sliders[i], Bs'[i], exps[i], pos);
      }
      notDone := notDone || !sliders[i].finished;
    }
  }

  /** Every exponent has been sorted into its buckets. */
  ghost predicate Sorted<T(!new)>(G: Group<T>, base: T, exps: seq<nat>, buckets: seq<seq<T>>, Bs: seq<seq<int>>) {
    && |buckets| == |Bs| == |exps|
    && forall i :: 0 <= i < |exps| ==>
         Holds(G, base, buckets[i], Bs[i]) && |Bs[i]| >= 1 && Weighted(Bs[i], 0) == exps[i]
  }

  /** The last pass, over every exponent. */
  method SumAll<T(!new)>(G: Group<T>, ghost base: T, exps: seq<nat>, buckets: seq<seq<T>>, ghost Bs: seq<seq<int>>)
    returns (results: seq<T>)
    requires Abelian(G) && G.contains(base) && Sorted(G, base, exps, buckets, Bs)
    ensures |results| == |exps|
    ensures forall i :: 0 <= i < |exps| ==> results[i] == Times(G, exps[i], base)
  {
    hide Times, Abelian, Holds, Weighted;
    results := [];
    for i := 0 to |exps|
      invariant |results| == i
      invariant forall k :: 0 <= k < i ==> results[k] == Times(G, exps[k], base)
    {
      var r := SumBuckets(G, base, buckets[i], Bs[i]);
      results := results + [r];
    }
  }

  lemma StartAtOne<T(!new)>(G: Group<T>, base: T)
    requires Abelian(G) && G.contains(base)
    ensures Times(G, Pow2(0), base) == base
  {
    TimesOne(G, base);
  }

  lemma DoubleStep<T(!new)>(G: Group<T>, base: T, n: nat)
    requires Abelian(G) && G.contains(base)
    ensures Times(G, Pow2(n + 1), base) == G.add(Times(G, Pow2(n), base), Times(G, Pow2(n), base))
  {
    hide Times, Abelian;
    TimesAdd(G, Pow2(n), Pow2(n), base);
  }

  lemma NextRound<T(!new)>(G: Group<T>, base: T, exps: seq<nat>, sliders: seq<WindowSlider>,
                           buckets: seq<seq<T>>, Bs: seq<seq<int>>, pos: nat, k: nat)
    requires AllInStep(G, base, exps, sliders, buckets, Bs, pos, |exps|)
    requires k < |sliders| && !sliders[k].finished
    ensures AllInStep(G, base, exps, sliders, buckets, Bs, pos + 1, 0) && pos + 1 <= sliders[k].limit
  {
    hide InStep, Holds;
    NotBeyondLimit(sliders[k], Bs[k], exps[k], pos + 1);
  }

  lemma AllFinished<T(!new)>(G: Group<T>, base: T, exps: seq<nat>, sliders: seq<WindowSlider>,
                             buckets: seq<seq<T>>, Bs: seq<seq<int>>, pos: nat)
    requires AllInStep(G, base, exps, sliders, buckets, Bs, pos, |exps|)
    requires forall i :: 0 <= i < |sliders| ==> sliders[i].finished
    ensures Sorted(G, base, exps, buckets, Bs)
  {
    hide Holds;
    forall i | 0 <= i < |exps|
      ensures Holds(G, base, buckets[i], Bs[i]) && |Bs[i]| >= 1 && Weighted(Bs[i], 0) == exps[i]
    {
      NotBeyondLimit(sliders[i], Bs[i], exps[i], pos + 1);
    }
  }

  method SimultaneousMultiply<T(!new)>(G: Group<T>, base: T, exps: seq<nat>) returns (results: seq<T>)
    requires Abelian(G) && G.contains(base)
    ensures |results| == |exps|
    ensures forall i :: 0 <= i < |exps| ==> results[i] == Times(G, exps[i], base)
  {
    hide Times, Abelian, Shl, Pow2, AllInStep, Sorted;
    var sliders, buckets;
    ghost var Bs;
    sliders, buckets, Bs := StartSliders(G, base, exps);

    var expBitPosition: nat := 0;
    var g := base;
    var notDone := true;
    StartAtOne(G, base);
    ghost var top := Highest(sliders);
    while notDone
      invariant fresh(sliders) && expBitPosition <= top + 1
      invariant notDone ==> g == Times(G, Pow2(expBitPosition), base)
      invariant notDone ==> AllInStep(G, base, exps, sliders, buckets, Bs, expBitPosition, 0)
      invariant !notDone ==> Sorted(G, base, exps, buckets, Bs)
      decreases top + 1 - expBitPosition, notDone
    {
      notDone, buckets, Bs := Round(G, base, exps, g, expBitPosition, sliders, buckets, Bs);
      if notDone {
        var k :| 0 <= k < |sliders| && !sliders[k].finished;
        NextRound(G, base, exps, sliders, buckets, Bs, expBitPosition, k);
        DoubleStep(G, base, expBitPosition);
        g := G.add(g, g);
        expBitPosition := expBitPosition + 1;
      } else {
        AllFinished(G, base, exps, sliders, buckets, Bs, expBitPosition);
      }
    }
    results := SumAll(G, base, exps, buckets, Bs);
  }

  method ScalarMultiply<T(!new)>(G: Group<T>, base: T, exponent: nat) returns (r: T)
    requires Abelian(G) && G.contains(base)
    ensures r == Times(G, exponent, base)
  {
    var results := SimultaneousMultiply(G, base, [exponent]);
    r := results[0];
  }
}
