/**
 DL_FixedBasePrecomputationImpl of eprecomp.cpp: multiples of a fixed base from a table of
 base * 2^(w * i), with the exponent cut into digits of w bits.
 */
module FixedBasePrecomputation {
  import opened Integers
  import opened AbstractGroups
  import opened GeneralCascade

  /** The group a precomputation works in, and the conversions into and out of it. */
  datatype GroupPrecomputation<!T> = GroupPrecomputation(
    group: Group<T>,
    needConversions: bool,
    convertIn: T -> T,
    convertOut: T -> T)

  lemma TotalAppend<T(!new)>(G: Group<T>, s: seq<BaseAndExponent<T>>, p: BaseAndExponent<T>)
    requires Abelian(G) && BasesIn(G, s) && G.contains(p.base)
    ensures BasesIn(G, s + [p])
    ensures Total(G, s + [p]) == G.add(Total(G, s), Times(G, p.exponent, p.base))
  {
    hide Times, Abelian;
    var t := s + [p];
    assert BasesIn(G, t);
    TotalWithout(G, t, |s|);
    assert Without(t, |s|) == s;
  }

  /** A digit goes out at base `b`, and the quotient is carried to the next base. */
  lemma DigitStep<T(!new)>(G: Group<T>, w: nat, b: T, next: T, e: nat, q: nat, d: int)
    requires Abelian(G) && G.contains(b) && next == Times(G, Pow2(w), b)
    requires e == Shl(q, w) + d
    ensures Times(G, e, b) == G.add(Times(G, d, b), Times(G, q, next))
  {
    hide Times, Abelian;
    ShlIsTimes(q, w);
    TimesTimes(G, q, Pow2(w), b);
    TimesAdd(G, d, Shl(q, w), b);
  }

  lemma TimesInverse<T(!new)>(G: Group<T>, n: int, a: T)
    requires Abelian(G) && G.contains(a)
    ensures G.contains(G.inverse(a)) && Times(G, n, G.inverse(a)) == Times(G, -n, a)
  {
    hide Times, Abelian;
    Inverse(G, a);
    TimesOne(G, a);
    TimesNegate(G, 1, a);
    TimesTimes(G, n, -1, a);
  }

  class DL_FixedBasePrecomputation<T(!new, ==)> {
    var m_base: T
    var m_windowSize: nat
    var m_exponentBase: nat
    var m_bases: seq<T>

    /** Each table entry is the one before it, times the exponent base. */
    ghost predicate Valid(G: Group<T>)
      reads this
    {
      && |m_bases| >= 1
      && (forall b <- m_bases :: G.contains(b))
      && (|m_bases| > 1 ==> m_windowSize >= 1 && m_exponentBase == Pow2(m_windowSize))
      && (forall i :: 0 <= i < |m_bases| - 1 ==> m_bases[i + 1] == Times(G, m_exponentBase, m_bases[i]))
    }

    constructor (base: T)
      ensures m_bases == [] && m_windowSize == 0
    {
      m_base := base;
      m_windowSize := 0;
      m_exponentBase := 0;
      m_bases := [];
    }

    method SetBase(group: GroupPrecomputation<T>, i_base: T)
      requires m_bases == [] || Valid(group.group)
      requires group.group.contains(if group.needConversions then group.convertIn(i_base) else i_base)
      modifies this
      ensures Valid(group.group)
      ensures m_bases[0] == if group.needConversions then group.convertIn(i_base) else i_base
      ensures old(m_bases) != [] && old(m_bases[0]) == m_bases[0] ==> m_bases == old(m_bases)
      ensures m_base == i_base
    {
      m_base := if group.needConversions then group.convertIn(i_base) else i_base;
      if m_bases == [] || m_base != m_bases[0] {
        m_bases := [m_base];
      }
      if group.needConversions {
        m_base := i_base;
      }
    }

    method Precompute(group: GroupPrecomputation<T>, maxExpBits: nat, storage: nat)
      requires Abelian(group.group) && Valid(group.group)
      requires storage <= maxExpBits
      modifies this
      ensures storage >= 1 ==> Valid(group.group) && m_bases[0] == old(m_bases[0])
      ensures |m_bases| == storage
      ensures storage > 1 ==> m_windowSize == (maxExpBits + storage - 1) / storage
    {
      hide Times, Abelian;
      var G := group.group;
      if storage > 1 {
        m_windowSize := (maxExpBits + storage - 1) / storage;
        AtLeastOne(maxExpBits, storage);
        m_exponentBase := Pow2(m_windowSize);
      }
      if storage == 0 {
        m_bases := [];
        return;
      }
      var bases := [m_bases[0]];
      for i := 1 to storage
        invariant |bases| == i && bases[0] == m_bases[0]
        invariant forall b <- bases :: G.contains(b)
        invariant forall k :: 0 <= k < |bases| - 1 ==> bases[k + 1] == Times(G, m_exponentBase, bases[k])
        modifies {}
      {
        var b := SimultaneousMultiplication.ScalarMultiply(G, bases[i - 1], m_exponentBase);
        TimesIn(G, m_exponentBase, bases[i - 1]);
        bases := bases + [b];
      }
      m_bases := bases;
    }

    /** Cuts the low digit off `e`: a pair at base `i`, and a quotient for the next base. */
    method CutDigit(G: Group<T>, i: nat, e: nat) returns (p: BaseAndExponent<T>, q: nat)
      requires Abelian(G) && Valid(G) && i + 1 < |m_bases|
      ensures G.contains(p.base) && DigitInWindow(G, p.exponent)
      ensures Times(G, e, m_bases[i]) == G.add(Times(G, p.exponent, p.base), Times(G, q, m_bases[i + 1]))
    {
      hide Times, Abelian;
      var r;
      q, r := Shr(e, m_windowSize), Low(e, m_windowSize);
      HalfWindow(e, m_windowSize);
      Borrow(q, m_windowSize);
      if G.inversionIsFast && m_windowSize > 1 && GetBit(r, m_windowSize - 1) {
        q := q + 1;
        p := BaseAndExponent(G.inverse(m_bases[i]), m_exponentBase - r);
        TimesInverse(G, m_exponentBase - r, m_bases[i]);
        DigitStep(G, m_windowSize, m_bases[i], m_bases[i + 1], e, q, r - m_exponentBase);
      } else {
        p := BaseAndExponent(m_bases[i], r);
        DigitStep(G, m_windowSize, m_bases[i], m_bases[i + 1], e, q, r);
      }
    }

    /**
     Appends pairs that add up to `exponent` times the base.  Every digit but the last stays
     within the window; with fast negation it is at most half of it.
     */
    method PrepareCascade(group: GroupPrecomputation<T>, eb: seq<BaseAndExponent<T>>, exponent: nat)
      returns (eb': seq<BaseAndExponent<T>>)
      requires Abelian(group.group) && Valid(group.group) && BasesIn(group.group, eb)
      ensures |eb'| == |eb| + |m_bases| && eb <= eb' && BasesIn(group.group, eb')
      ensures Total(group.group, eb')
           == group.group.add(Total(group.group, eb), Times(group.group, exponent, m_bases[0]))
      ensures forall k :: |eb| <= k < |eb'| - 1 ==> DigitInWindow(group.group, eb'[k].exponent)
    {
      hide Times, Abelian;
      var G := group.group;
      var e := exponent;
      eb' := eb;
      for i := 0 to |m_bases| - 1
        invariant eb <= eb' && |eb'| == |eb| + i && BasesIn(G, eb')
        invariant G.add(Total(G, eb'), Times(G, e, m_bases[i]))
               == G.add(Total(G, eb), Times(G, exponent, m_bases[0]))
        invariant forall k :: |eb| <= k < |eb'| ==> DigitInWindow(G, eb'[k].exponent)
      {
        var p, q := CutDigit(G, i, e);
        Carry(G, eb', p, m_bases[i + 1], q);
        e := q;
        eb' := eb' + [p];
      }
      var n := |m_bases| - 1;
      TotalAppend(G, eb', BaseAndExponent(m_bases[n], e));
      eb' := eb' + [BaseAndExponent(m_bases[n], e)];
    }

    ghost predicate DigitInWindow(G: Group<T>, d: nat)
      reads this
    {
      if G.inversionIsFast && m_windowSize > 1 then d <= Pow2(m_windowSize - 1) else d < Pow2(m_windowSize)
    }

    static lemma AtLeastOne(maxExpBits: nat, storage: nat)
      requires 1 <= storage <= maxExpBits
      ensures (maxExpBits + storage - 1) / storage >= 1
    {
      var q := (maxExpBits + storage - 1) / storage;
      assert maxExpBits + storage - 1 == q * storage + (maxExpBits + storage - 1) % storage;
    }

    static lemma Borrow(q: nat, w: nat)
      ensures Shl(q + 1, w) == Shl(q, w) + Pow2(w)
    {
      ShlAdd(q, 1, w);
      ShlZero(w);
    }

    /** The top bit of a digit tells which half of the window it lies in. */
    static lemma HalfWindow(e: nat, w: nat)
      ensures w > 0 ==> (GetBit(Low(e, w), w - 1) <==> Low(e, w) >= Pow2(w - 1))
    {
      if w > 0 {
        var r := Low(e, w);
        ShrSmall(r, w);
        ShrSmall(r, w - 1);
      }
    }

    static lemma Carry(G: Group<T>, s: seq<BaseAndExponent<T>>, p: BaseAndExponent<T>, next: T, q: nat)
      requires Abelian(G) && BasesIn(G, s) && G.contains(p.base) && G.contains(next)
      ensures BasesIn(G, s + [p])
      ensures G.add(Total(G, s + [p]), Times(G, q, next))
           == G.add(Total(G, s), G.add(Times(G, p.exponent, p.base), Times(G, q, next)))
    {
      hide Times, Abelian;
      TotalAppend(G, s, p);
      TotalIn(G, s);
      TimesIn(G, p.exponent, p.base);
      TimesIn(G, q, next);
      Associative(G, Total(G, s), Times(G, p.exponent, p.base), Times(G, q, next));
    }

    method Exponentiate(group: GroupPrecomputation<T>, exponent: nat) returns (r: T)
      requires Abelian(group.group) && Valid(group.group)
      ensures r == group.convertOut(Times(group.group, exponent, m_bases[0]))
    {
      hide Times, Abelian;
      var G := group.group;
      var eb := PrepareCascade(group, [], exponent);
      StartFromNothing(G, Times(G, exponent, m_bases[0]), exponent, m_bases[0]);
      var x := Evaluate(G, eb);
      r := group.convertOut(x);
    }

    method CascadeExponentiate(group: GroupPrecomputation<T>, exponent: nat,
                               pc2: DL_FixedBasePrecomputation<T>, exponent2: nat) returns (r: T)
      requires Abelian(group.group) && Valid(group.group) && pc2.Valid(group.group)
      ensures r == group.convertOut(
                     group.group.add(Times(group.group, exponent, m_bases[0]),
                                     Times(group.group, exponent2, pc2.m_bases[0])))
    {
      hide Times, Abelian;
      var G := group.group;
      var eb := PrepareCascade(group, [], exponent);
      StartFromNothing(G, Times(G, exponent, m_bases[0]), exponent, m_bases[0]);
      eb := pc2.PrepareCascade(group, eb, exponent2);
      var x := Evaluate(G, eb);
      r := group.convertOut(x);
    }

    static lemma StartFromNothing(G: Group<T>, x: T, n: int, b: T)
      requires Abelian(G) && G.contains(b) && x == Times(G, n, b)
      ensures G.add(Total(G, []), x) == x
    {
      hide Times, Abelian;
      TimesIn(G, n, b);
      Inverse(G, x);
    }

    static method Evaluate(G: Group<T>, eb: seq<BaseAndExponent<T>>) returns (r: T)
      requires Abelian(G) && BasesIn(G, eb) && |eb| >= 1
      ensures r == Total(G, eb)
    {
      var a := new BaseAndExponent<T>[|eb|](i requires 0 <= i < |eb| => eb[i]);
      assert a[..] == eb;
      ghost var passed;
      r, passed := GeneralCascadeMultiplication(G, a);
    }
  }
}
