/**
 ecp.cpp, scalar multiplication: the windows of every exponent are recorded against a shared list
 of projective doublings, which are made affine with a single tree of inversions.
 */
module EcpMultiplication {
  import opened Integers
  import opened WindowSliders
  import opened Fields
  import opened EllipticCurves
  import opened PointGroups
  import AbstractGroups
  import GeneralCascade
  import SimultaneousMultiplication

  // ---------------------------------------------------------------- simultaneous inversion

  /** The products of neighbours, and the odd one out. */
  method Products<F(!new)>(K: Field<F>, a: array<F>) returns (vec: array<F>)
    requires a.Length > 1
    ensures fresh(vec) && vec.Length == (a.Length + 1) / 2
    ensures forall k :: 0 <= k < a.Length / 2 ==> vec[k] == K.multiply(a[2 * k], a[2 * k + 1])
    ensures a.Length % 2 == 1 ==> vec[a.Length / 2] == a[a.Length - 1]
  {
    var n := a.Length;
    vec := new F[(n + 1) / 2](_ => K.zero);
    for i := 0 to n / 2
      invariant forall k :: 0 <= k < i ==> vec[k] == K.multiply(a[2 * k], a[2 * k + 1])
    {
      vec[i] := K.multiply(a[2 * i], a[2 * i + 1]);
    }
    if n % 2 == 1 {
      vec[n / 2] := a[n - 1];
    }
  }

  /** One pair, from the inverse `v` of its product. */
  method InvertPair<F(==, !new)>(K: Field<F>, a: array<F>, i: nat, v: F)
    requires IsField(K) && 2 * i + 1 < a.Length
    requires v == K.multiplicativeInverse(K.multiply(a[2 * i], a[2 * i + 1]))
    modifies a
    ensures a[..] == old(a[..])[2 * i := K.multiplicativeInverse(old(a[2 * i]))]
                               [2 * i + 1 := K.multiplicativeInverse(old(a[2 * i + 1]))]
  {
    hide IsField;
    InverseZero(K, K.multiply(a[2 * i], a[2 * i + 1]));
    if v == K.zero {
      a[2 * i] := K.multiplicativeInverse(a[2 * i]);
      a[2 * i + 1] := K.multiplicativeInverse(a[2 * i + 1]);
    } else {
      InverseFromProduct(K, a[2 * i], a[2 * i + 1]);
      a[2 * i], a[2 * i + 1] := a[2 * i + 1], a[2 * i];
      a[2 * i] := K.multiply(a[2 * i], v);
      a[2 * i + 1] := K.multiply(a[2 * i + 1], v);
    }
  }

  /** Replaces every element by its inverse, with one inversion for every all-nonzero subtree. */
  method ParallelInvert<F(==, !new)>(K: Field<F>, a: array<F>)
    requires IsField(K)
    modifies a
    ensures forall i :: 0 <= i < a.Length ==> a[i] == K.multiplicativeInverse(old(a[i]))
    decreases a.Length
  {
    hide IsField;
    var n := a.Length;
    if n == 1 {
      a[0] := K.multiplicativeInverse(a[0]);
    } else if n > 1 {
      var vec := Products(K, a);
      ParallelInvert(K, vec);
      ghost var v := vec[..];
      for i := 0 to n / 2
        invariant vec[..] == v
        invariant forall k :: 0 <= k < 2 * i ==> a[k] == K.multiplicativeInverse(old(a[k]))
        invariant forall k :: 2 * i <= k < n ==> a[k] == old(a[k])
      {
        ghost var s := a[..];
        InvertPair(K, a, i, vec[i]);
        assert forall k :: 0 <= k < n && k / 2 != i ==> a[..][k] == s[k];
        assert a[..][2 * i] == a[2 * i] && a[..][2 * i + 1] == a[2 * i + 1];
      }
      if n % 2 == 1 {
        a[n - 1] := vec[n / 2];
      }
    }
  }

  // ---------------------------------------------------------------- recorded windows

  /** A window: which shared base it multiplies, with which sign, and by what. */
  datatype Window = Window(baseIndex: nat, negate: bool, window: nat)
  {
    ghost function Digit(): int {
      if negate then -(window as int) else window
    }
  }

  ghost predicate Indexed(ws: seq<Window>, n: nat) {
    forall w <- ws :: w.baseIndex < n && w.window < 32
  }

  /** What recorded windows add up to, base `k` standing for 2^positions[k]. */
  ghost function WindowSum(ws: seq<Window>, positions: seq<nat>): int
    requires Indexed(ws, |positions|)
  {
    if ws == [] then 0
    else WindowSum(ws[1..], positions) + Shl(ws[0].Digit(), positions[ws[0].baseIndex])
  }

  lemma {:induction false} WindowSumAppend(ws: seq<Window>, w: Window, positions: seq<nat>)
    requires Indexed(ws, |positions|) && Indexed([w], |positions|)
    ensures Indexed(ws + [w], |positions|)
    ensures WindowSum(ws + [w], positions) == WindowSum(ws, positions) + Shl(w.Digit(), positions[w.baseIndex])
  {
    if ws == [] {
      assert ws + [w] == [w];
    } else {
      WindowSumAppend(ws[1..], w, positions);
      assert (ws + [w])[1..] == ws[1..] + [w];
    }
    assert w in [w];
  }

  lemma {:induction false} WindowSumGrow(ws: seq<Window>, positions: seq<nat>, p: nat)
    requires Indexed(ws, |positions|)
    ensures Indexed(ws, |positions| + 1) && WindowSum(ws, positions + [p]) == WindowSum(ws, positions)
  {
    if ws != [] {
      WindowSumGrow(ws[1..], positions, p);
      assert ws[0] in ws;
    }
  }

  /**
   The slider of exponent `e` and its recorded windows: what is recorded plus what is pending is `e`, and
   there is nothing of either for 0.
   */
  ghost predicate InStep(slider: WindowSlider, ws: seq<Window>, positions: seq<nat>, e: int, pos: nat)
    reads slider
  {
    && slider.Valid() && slider.windowSize == 5
    && (slider.finished || (slider.HasWindow() && slider.windowBegin >= pos))
    && Indexed(ws, |positions|)
    && WindowSum(ws, positions) + slider.Pending() == e
    && (e == 0 ==> slider.finished && ws == [])
  }

  ghost predicate AllInStep(exps: seq<nat>, sliders: seq<WindowSlider>, wss: seq<seq<Window>>,
                            positions: seq<nat>, pos: nat, n: nat)
    reads sliders
  {
    && |sliders| == |wss| == |exps|
    && (forall i, j :: 0 <= i < j < |sliders| ==> sliders[i] != sliders[j])
    && (forall i :: 0 <= i < |exps| ==> InStep(sliders[i], wss[i], positions, exps[i], if i < n then pos + 1 else pos))
  }

  /** Shared base `k` is a projective form of 2^positions[k] times `P`. */
  ghost predicate Doublings<F>(C: Curve<F>, P: ECPPoint<F>, bases: seq<ProjectivePoint<F>>, positions: seq<nat>) {
    && |bases| == |positions|
    && forall k :: 0 <= k < |bases| ==>
         Represents(C.field, bases[k], AbstractGroups.Times(PointGroup(C), Pow2(positions[k]), P))
  }

  method StartSliders(exps: seq<nat>) returns (sliders: seq<WindowSlider>, wss: seq<seq<Window>>)
    ensures fresh(sliders) && AllInStep(exps, sliders, wss, [], 0, 0)
  {
    sliders, wss := [], [];
    for n := 0 to |exps|
      invariant |sliders| == |wss| == n && fresh(sliders)
      invariant forall i, j :: 0 <= i < j < |sliders| ==> sliders[i] != sliders[j]
      invariant forall i :: 0 <= i < n ==> wss[i] == [] && InStep(sliders[i], wss[i], [], exps[i], 0)
    {
      var s := new WindowSlider(exps[n], true, 5);
      s.FindNextWindow();
      sliders := sliders + [s];
      wss := wss + [[]];
    }
  }

  /** A slider that has nothing to do at `pos` is already in step with the next position. */
  lemma Idle(slider: WindowSlider, ws: seq<Window>, positions: seq<nat>, e: int, pos: nat)
    requires InStep(slider, ws, positions, e, pos)
    requires slider.finished || slider.windowBegin != pos
    ensures InStep(slider, ws, positions, e, pos + 1)
  {
  }

  lemma NotBeyondLimit(slider: WindowSlider, ws: seq<Window>, positions: seq<nat>, e: int, pos: nat)
    requires InStep(slider, ws, positions, e, pos)
    ensures slider.finished || pos <= slider.limit
    ensures Indexed(ws, |positions|)
    ensures slider.finished ==> WindowSum(ws, positions) == e && (ws == [] <==> e == 0)
  {
  }

  /** One window is recorded against the last base, which stands for `pos` doublings. */
  method Record(slider: WindowSlider, ws: seq<Window>, ghost positions: seq<nat>, n: nat, ghost e: int, ghost pos: nat)
    returns (ws': seq<Window>)
    requires InStep(slider, ws, positions, e, pos) && !slider.finished && slider.windowBegin == pos
    requires n == |positions| > 0 && positions[n - 1] == pos
    modifies slider
    ensures InStep(slider, ws', positions, e, pos + 1)
  {
    hide Shl, WindowSum;
    var w := Window(n - 1, slider.negateNext, slider.expWindow);
    assert Pow2(5) == 32;
    assert w.Digit() == slider.Digit();
    WindowSumAppend(ws, w, positions);
    ws' := ws + [w];
    slider.FindNextWindow();
  }

  lemma GrownStep(slider: WindowSlider, ws: seq<Window>, positions: seq<nat>, e: int, pos: nat, p: nat)
    requires InStep(slider, ws, positions, e, pos)
    ensures InStep(slider, ws, positions + [p], e, pos)
  {
    hide Shl, WindowSum;
    WindowSumGrow(ws, positions, p);
  }

  lemma Grown(exps: seq<nat>, sliders: seq<WindowSlider>, wss: seq<seq<Window>>, positions: seq<nat>, pos: nat, n: nat,
      p: nat)
    requires AllInStep(exps, sliders, wss, positions, pos, n)
    ensures AllInStep(exps, sliders, wss, positions + [p], pos, n)
  {
    forall i | 0 <= i < |exps|
      ensures InStep(sliders[i], wss[i], positions + [p], exps[i], if i < n then pos + 1 else pos)
    {
      GrownStep(sliders[i], wss[i], positions, exps[i], if i < n then pos + 1 else pos, p);
    }
  }

  /** One round of the main loop: every slider standing at `pos` records its window against one shared base. */
  method Round<F(==, !new)>(ghost C: Curve<F>, ghost P: ECPPoint<F>, ghost exps: seq<nat>, current: ProjectivePoint<F>,
      pos: nat,
                            sliders: seq<WindowSlider>, wss: seq<seq<Window>>,
                            bases: seq<ProjectivePoint<F>>, ghost positions: seq<nat>)
    returns (notDone: bool, wss': seq<seq<Window>>, bases': seq<ProjectivePoint<F>>, ghost positions': seq<nat>)
    requires AllInStep(exps, sliders, wss, positions, pos, 0)
    requires Doublings(C, P, bases, positions)
    requires Represents(C.field, current, AbstractGroups.Times(PointGroup(C), Pow2(pos), P))
    modifies sliders
    ensures AllInStep(exps, sliders, wss', positions', pos, |exps|)
    ensures Doublings(C, P, bases', positions')
    ensures notDone <==> exists k :: 0 <= k < |sliders| && !sliders[k].finished
  {
    hide Represents, InStep, Pow2, PointGroup, AbstractGroups.Times;
    wss', bases', positions' := wss, bases, positions;
    notDone := false;
    var baseAdded := false;
    for i := 0 to |sliders|
      invariant AllInStep(exps, sliders, wss', positions', pos, i)
      invariant Doublings(C, P, bases', positions')
      invariant baseAdded ==> |positions'| > 0 && positions'[|positions'| - 1] == pos
      invariant notDone <==> exists k :: 0 <= k < i && !sliders[k].finished
    {
      if !sliders[i].finished && pos == sliders[i].windowBegin {
        if !baseAdded {
          bases' := bases' + [current];
          baseAdded := true;
          Grown(exps, sliders, wss', positions', pos, i, pos);
          positions' := positions' + [pos];
        }
        var ws := Record(sliders[i], wss'[i], positions', |bases'|, exps[i], pos);
        wss' := wss'[i := ws];
      } else {
        Idle(sliders[i], wss'[i], positions', exps[i], pos);
      }
      notDone := notDone || !sliders[i].finished;
    }
  }

  /** There are windows for each of `n` exponents, and every window has one of `m` bases. */
  ghost predicate HaveBases(wss: seq<seq<Window>>, n: nat, m: nat) {
    |wss| == n && forall i :: 0 <= i < n ==> Indexed(wss[i], m)
  }

  /** Every exponent is the sum of its recorded windows, and only 0 has none. */
  ghost predicate Finished(exps: seq<nat>, wss: seq<seq<Window>>, positions: seq<nat>) {
    && |wss| == |exps|
    && forall i :: 0 <= i < |exps| ==>
         && Indexed(wss[i], |positions|) && WindowSum(wss[i], positions) == exps[i]
         && (wss[i] == [] <==> exps[i] == 0)
  }

  lemma WindowsHaveBases<F(!new)>(C: Curve<F>, P: ECPPoint<F>, exps: seq<nat>, wss: seq<seq<Window>>,
                                  bases: seq<ProjectivePoint<F>>, positions: seq<nat>)
    requires Doublings(C, P, bases, positions) && Finished(exps, wss, positions)
    ensures HaveBases(wss, |exps|, |bases|)
  {
  }

  lemma TrackedPoint<F(!new)>(rd: ProjectiveDoubling<F>, Q: ECPPoint<F>)
    requires rd.Tracks(Q)
    ensures Represents(rd.curve.field, rd.P, Q)
  {
  }

  lemma AllFinished(exps: seq<nat>, sliders: seq<WindowSlider>, wss: seq<seq<Window>>, positions: seq<nat>, pos: nat)
    requires AllInStep(exps, sliders, wss, positions, pos, |exps|)
    requires forall i :: 0 <= i < |sliders| ==> sliders[i].finished
    ensures Finished(exps, wss, positions)
  {
    forall i | 0 <= i < |exps|
      ensures Indexed(wss[i], |positions|) && WindowSum(wss[i], positions) == exps[i]
      ensures wss[i] == [] <==> exps[i] == 0
    {
      NotBeyondLimit(sliders[i], wss[i], positions, exps[i], pos + 1);
    }
  }

  lemma NextRound(exps: seq<nat>, sliders: seq<WindowSlider>, wss: seq<seq<Window>>, positions: seq<nat>, pos: nat,
      k: nat)
    requires AllInStep(exps, sliders, wss, positions, pos, |exps|)
    requires k < |sliders| && !sliders[k].finished
    ensures AllInStep(exps, sliders, wss, positions, pos + 1, 0) && pos + 1 <= sliders[k].limit
  {
    hide InStep;
    NotBeyondLimit(sliders[k], wss[k], positions, exps[k], pos + 1);
  }

  lemma StartAtOne<F(!new)>(C: Curve<F>, P: ECPPoint<F>)
    requires AbstractGroups.Abelian(PointGroup(C)) && VerifyPoint(C, P)
    ensures AbstractGroups.Times(PointGroup(C), Pow2(0), P) == P
  {
    AbstractGroups.TimesOne(PointGroup(C), P);
  }

  lemma NoDoublings<F(!new)>(C: Curve<F>, P: ECPPoint<F>)
    requires AbstractGroups.Abelian(PointGroup(C)) && VerifyPoint(C, P)
    ensures AbstractGroups.Times(PointGroup(C), Pow2(0), P) == P
    ensures Doublings(C, P, [], [])
  {
    StartAtOne(C, P);
  }

  lemma DoubleMultiple<F(!new)>(C: Curve<F>, P: ECPPoint<F>, n: nat)
    requires AbstractGroups.Abelian(PointGroup(C)) && VerifyPoint(C, P)
    ensures AbstractGroups.Times(PointGroup(C), Pow2(n + 1), P)
         == DoublePoint(C, AbstractGroups.Times(PointGroup(C), Pow2(n), P))
  {
    hide AbstractGroups.Times, AbstractGroups.Abelian, DoublePoint;
    AbstractGroups.TimesAdd(PointGroup(C), Pow2(n), Pow2(n), P);
    AddSelf(C, AbstractGroups.Times(PointGroup(C), Pow2(n), P));
  }

  /** The first half: windows and shared doublings, until every slider is finished. */
  method RecordWindows<F(==, !new)>(C: Curve<F>, P: ECPPoint<F>, exps: seq<nat>)
    returns (wss: seq<seq<Window>>, bases: seq<ProjectivePoint<F>>, ghost positions: seq<nat>)
    requires IsField(C.field) && AdditionAssociates(C) && VerifyPoint(C, P)
    ensures Doublings(C, P, bases, positions)
    ensures Finished(exps, wss, positions)
    ensures HaveBases(wss, |exps|, |bases|)
  {
    hide IsField, VerifyPoint, Represents, AllInStep, Doublings, PointGroup, DoublePoint, Power, Pow2;
    hide AbstractGroups.Times, AbstractGroups.Abelian, ProjectiveDoubling.Tracks, Finished, HaveBases;
    hide AdditionAssociates;
    PointsAbelian(C);
    var sliders;
    sliders, wss := StartSliders(exps);
    bases, positions := [], [];
    NoDoublings(C, P);
    var rd := new ProjectiveDoubling(C, P);
    var expBitPosition: nat := 0;
    var notDone := true;
    ghost var top := Highest(sliders);
    while notDone
      invariant fresh(sliders) && fresh(rd) && rd.curve == C
      invariant notDone ==> rd.Tracks(AbstractGroups.Times(PointGroup(C), Pow2(expBitPosition), P))
      invariant notDone ==> AllInStep(exps, sliders, wss, positions, expBitPosition, 0)
      invariant !notDone ==> Finished(exps, wss, positions)
      invariant Doublings(C, P, bases, positions)
      invariant expBitPosition <= top + 1
      decreases top + 1 - expBitPosition, notDone
    {
      TrackedPoint(rd, AbstractGroups.Times(PointGroup(C), Pow2(expBitPosition), P));
      notDone, wss, bases, positions :=
        Round(C, P, exps, rd.P, expBitPosition, sliders, wss, bases, positions);
      if notDone {
        var k :| 0 <= k < |sliders| && !sliders[k].finished;
        NextRound(exps, sliders, wss, positions, expBitPosition, k);
        DoubleMultiple(C, P, expBitPosition);
        rd.Double(AbstractGroups.Times(PointGroup(C), Pow2(expBitPosition), P));
        expBitPosition := expBitPosition + 1;
      } else {
        AllFinished(exps, sliders, wss, positions, expBitPosition);
      }
    }
    WindowsHaveBases(C, P, exps, wss, bases, positions);
  }

  // ---------------------------------------------------------------- back to affine coordinates

  /** How the final cascade reads a normalized base. */
  function Reads<F(==)>(K: Field<F>, base: ProjectivePoint<F>): ECPPoint<F> {
    if base.z == K.zero then Identity else Affine(base.x, base.y)
  }

  /** Inverts every z at once; afterwards (x, y) is affine, or z is zero for the identity. */
  method Normalize<F(==, !new)>(K: Field<F>, bases: seq<ProjectivePoint<F>>, ghost Qs: seq<ECPPoint<F>>)
    returns (affine: seq<ProjectivePoint<F>>)
    requires IsField(K) && |bases| == |Qs|
    requires forall k :: 0 <= k < |bases| ==> Represents(K, bases[k], Qs[k])
    ensures |affine| == |bases|
    ensures forall k :: 0 <= k < |affine| ==> Reads(K, affine[k]) == Qs[k]
  {
    hide IsField, Represents;
    var zs := new F[|bases|](i requires 0 <= i < |bases| => bases[i].z);
    ghost var z0 := zs[..];
    ParallelInvert(K, zs);
    affine := [];
    for i := 0 to |bases|
      invariant |affine| == i
      invariant forall k :: 0 <= k < |bases| ==> zs[k] == K.multiplicativeInverse(bases[k].z)
      invariant forall k :: 0 <= k < i ==> Reads(K, affine[k]) == Qs[k]
    {
      var base := bases[i].(z := zs[i]);
      ToAffineRepresents(K, bases[i], Qs[i]);
      NoZeroDivisors(K, base.z, base.z);
      if base.z != K.zero {
        base := base.(y := K.multiply(base.y, base.z));
        base := base.(z := K.Square(base.z));
        base := base.(x := K.multiply(base.x, base.z));
        base := base.(y := K.multiply(base.y, base.z));
      }
      affine := affine + [base];
    }
  }

  // ---------------------------------------------------------------- the final cascade

  /** The pair a recorded window becomes. */
  function CascadePair<F(==)>(K: Field<F>, w: Window, base: ProjectivePoint<F>)
    : GeneralCascade.BaseAndExponent<ECPPoint<F>>
  {
    GeneralCascade.BaseAndExponent(
      if base.z == K.zero then Identity
      else Affine(base.x, if w.negate then K.negate(base.y) else base.y),
      w.window)
  }

  lemma PointIn<F>(C: Curve<F>, P: ECPPoint<F>)
    ensures PointGroup(C).contains(P) == VerifyPoint(C, P)
  {
  }

  /** The base of a pair is the signed multiple of `P` the window was recorded against. */
  lemma PairBase<F(!new)>(C: Curve<F>, P: ECPPoint<F>, w: Window, base: ProjectivePoint<F>, pos: nat)
    requires AbstractGroups.Abelian(PointGroup(C)) && VerifyPoint(C, P)
    requires Reads(C.field, base) == AbstractGroups.Times(PointGroup(C), Pow2(pos), P)
    ensures CascadePair(C.field, w, base).base
         == AbstractGroups.Times(PointGroup(C), if w.negate then -(Pow2(pos) as int) else Pow2(pos), P)
  {
    hide AbstractGroups.Times, AbstractGroups.Abelian, VerifyPoint, Pow2;
    var G := PointGroup(C);
    PointIn(C, P);
    AbstractGroups.TimesNegate(G, Pow2(pos), P);
    assert G.inverse(Reads(C.field, base)) == NegatePoint(C, Reads(C.field, base));
  }

  /** A pair stands for its signed window times 2^pos times `P`. */
  lemma PairTerm<F(!new)>(C: Curve<F>, P: ECPPoint<F>, w: Window, base: ProjectivePoint<F>, pos: nat)
    requires AbstractGroups.Abelian(PointGroup(C)) && VerifyPoint(C, P)
    requires Reads(C.field, base) == AbstractGroups.Times(PointGroup(C), Pow2(pos), P)
    ensures var G := PointGroup(C);
            var p := CascadePair(C.field, w, base);
            && p.exponent == w.window && G.contains(p.base)
            && AbstractGroups.Times(G, p.exponent, p.base) == AbstractGroups.Times(G, Shl(w.Digit(), pos), P)
  {
    hide AbstractGroups.Times, AbstractGroups.Abelian, VerifyPoint, Pow2, PointGroup, Reads, Shl;
    var G := PointGroup(C);
    var s: int := if w.negate then -(Pow2(pos) as int) else Pow2(pos);
    PointIn(C, P);
    PairBase(C, P, w, base, pos);
    AbstractGroups.TimesIn(G, s, P);
    AbstractGroups.TimesTimes(G, w.window, s, P);
    ShlIsTimes(w.Digit(), pos);
  }

  function FinalCascade<F(==)>(K: Field<F>, ws: seq<Window>, affine: seq<ProjectivePoint<F>>)
    : (s: seq<GeneralCascade.BaseAndExponent<ECPPoint<F>>>)
    requires Indexed(ws, |affine|)
    ensures |s| == |ws|
  {
    if ws == [] then [] else [CascadePair(K, ws[0], affine[ws[0].baseIndex])] + FinalCascade(K, ws[1..], affine)
  }

  lemma {:induction false} CascadeTotal<F(!new)>(C: Curve<F>, P: ECPPoint<F>, ws: seq<Window>,
                                          affine: seq<ProjectivePoint<F>>, positions: seq<nat>)
    requires AbstractGroups.Abelian(PointGroup(C)) && VerifyPoint(C, P)
    requires |affine| == |positions| && Indexed(ws, |positions|)
    requires forall k :: 0 <= k < |affine| ==>
      Reads(C.field, affine[k]) == AbstractGroups.Times(PointGroup(C), Pow2(positions[k]), P)
    ensures var s := FinalCascade(C.field, ws, affine);
            && GeneralCascade.BasesIn(PointGroup(C), s)
            && GeneralCascade.Total(PointGroup(C), s)
               == AbstractGroups.Times(PointGroup(C), WindowSum(ws, positions), P)
            && (forall p <- s :: p.exponent < 32)
  {
    hide AbstractGroups.Abelian, VerifyPoint, PointGroup, CascadePair, Shl;
    var G := PointGroup(C);
    if ws != [] {
      var s := FinalCascade(C.field, ws, affine);
      var w := ws[0];
      assert w in ws;
      CascadeTotal(C, P, ws[1..], affine, positions);
      assert s[1..] == FinalCascade(C.field, ws[1..], affine);
      PairTerm(C, P, w, affine[w.baseIndex], positions[w.baseIndex]);
      PointIn(C, P);
      AbstractGroups.TimesAdd(G, WindowSum(ws[1..], positions), Shl(w.Digit(), positions[w.baseIndex]), P);
    }
  }

  /** What `ScalarMultiply` hands to the generic method, so that it does not come back here. */
  predicate IsShort(k: nat) {
    BitCount(k) <= 5
  }

  ghost predicate AllShort(exponents: seq<nat>) {
    forall e <- exponents :: IsShort(e)
  }

  lemma BelowThirtyTwo(e: nat)
    requires e < 32
    ensures IsShort(e)
  {
    assert BitCount(e / 16) <= 1;
    assert BitCount(e / 8) <= 2 && BitCount(e / 4) <= 3 && BitCount(e / 2) <= 4;
  }

  lemma CascadeIsShort<F>(s: seq<GeneralCascade.BaseAndExponent<ECPPoint<F>>>, passed: seq<nat>)
    requires forall p <- s :: p.exponent < 32
    requires GeneralCascade.AllAtMost(passed, GeneralCascade.MaxExponent(s))
    ensures AllShort(passed)
  {
    forall e <- passed
      ensures IsShort(e)
    {
      BelowThirtyTwo(e);
    }
  }

  lemma NoneShort()
    ensures AllShort([])
  {
  }

  lemma AllShortConcat(s: seq<nat>, t: seq<nat>)
    requires AllShort(s) && AllShort(t)
    ensures AllShort(s + t)
  {
  }

  /**
   The results end ahead of the first exponent 0, for which there is nothing to add up: the source has no
   test there and reads from an empty range.  `passed` are the exponents for which the cascades call the
   group's ScalarMultiply.  In the source that is the curve's own one; it stops there because all of them
   are short.
   */
  method SimultaneousMultiply<F(==, !new)>(C: Curve<F>, P: ECPPoint<F>, exps: seq<nat>)
    returns (results: seq<ECPPoint<F>>, ghost passed: seq<nat>)
    requires IsField(C.field) && AdditionAssociates(C) && VerifyPoint(C, P)
    ensures |results| <= |exps| && (|results| < |exps| ==> exps[|results|] == 0)
    ensures forall i :: 0 <= i < |results| ==>
              exps[i] > 0 && results[i] == AbstractGroups.Times(PointGroup(C), exps[i], P)
    ensures AllShort(passed)
  {
    hide AllShort, IsField, AbstractGroups.Abelian, AbstractGroups.Times, VerifyPoint, PointGroup, Represents, Reads;
    hide FinalCascade, WindowSum, AdditionAssociates;
    PointsAbelian(C);
    var wss, bases;
    ghost var positions;
    wss, bases, positions := RecordWindows(C, P, exps);
    ghost var Qs := seq(|bases|, k requires 0 <= k < |bases| =>
                        AbstractGroups.Times(PointGroup(C), Pow2(positions[k]), P));
    var affine := Normalize(C.field, bases, Qs);
    results, passed := [], [];
    NoneShort();
    for i := 0 to |exps|
      invariant |results| == i && AllShort(passed)
      invariant forall k :: 0 <= k < i ==>
                  exps[k] > 0 && results[k] == AbstractGroups.Times(PointGroup(C), exps[k], P)
    {
      if wss[i] == [] {
        return;
      }
      CascadeTotal(C, P, wss[i], affine, positions);
      var s := FinalCascade(C.field, wss[i], affine);
      var a := new GeneralCascade.BaseAndExponent<ECPPoint<F>>[|s|](k requires 0 <= k < |s| => s[k]);
      assert a[..] == s;
      var r;
      ghost var more;
      r, more := GeneralCascade.GeneralCascadeMultiplication(PointGroup(C), a);
      CascadeIsShort(s, more);
      AllShortConcat(passed, more);
      results, passed := results + [r], passed + more;
    }
  }

  method ScalarMultiply<F(==, !new)>(C: Curve<F>, P: ECPPoint<F>, k: nat) returns (r: ECPPoint<F>)
    requires IsField(C.field) && AdditionAssociates(C) && VerifyPoint(C, P)
    ensures r == AbstractGroups.Times(PointGroup(C), k, P)
  {
    hide IsField, AbstractGroups.Abelian, AbstractGroups.Times, AdditionAssociates;
    PointsAbelian(C);
    var results;
    ghost var passed;
    if IsShort(k) {
      results := SimultaneousMultiplication.SimultaneousMultiply(PointGroup(C), P, [k]);
    } else {
      results, passed := SimultaneousMultiply(C, P, [k]);
    }
    r := results[0];
  }
}
