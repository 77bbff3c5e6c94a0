/**
 GeneralCascadeMultiplication of algebra.cpp: the sum of exponent * base over a range of pairs.
 Three or more pairs are reduced in place, always dividing the largest exponent by the next one.
 */
module GeneralCascade {
  import opened AbstractGroups
  import opened SimultaneousMultiplication
  import opened CascadeScalarMultiplication

  datatype BaseAndExponent<T> = BaseAndExponent(base: T, exponent: nat)

  ghost predicate BasesIn<T>(G: Group<T>, s: seq<BaseAndExponent<T>>) {
    forall p <- s :: G.contains(p.base)
  }

  function Term<T>(G: Group<T>, p: BaseAndExponent<T>): T {
    Times(G, p.exponent, p.base)
  }

  /** What a range of pairs stands for. */
  ghost function Total<T>(G: Group<T>, s: seq<BaseAndExponent<T>>): T {
    if s == [] then G.identity else G.add(Total(G, s[1..]), Term(G, s[0]))
  }

  /** The exponents of a range added up, which bounds the work that is left. */
  ghost function Work<T>(s: seq<BaseAndExponent<T>>): nat {
    if s == [] then 0 else Work(s[1..]) + s[0].exponent
  }

  ghost function Without<X>(s: seq<X>, i: nat): seq<X>
    requires i < |s|
  {
    s[..i] + s[i + 1..]
  }

  lemma TermIn<T(!new)>(G: Group<T>, p: BaseAndExponent<T>)
    requires Abelian(G) && G.contains(p.base)
    ensures G.contains(Term(G, p))
  {
    TimesIn(G, p.exponent, p.base);
  }

  lemma Identity<T(!new)>(G: Group<T>)
    requires Abelian(G)
    ensures G.contains(G.identity) && G.add(G.identity, G.identity) == G.identity
  {
    assert InvertibleAt(G, G.identity);
  }

  lemma {:induction false} TotalIn<T(!new)>(G: Group<T>, s: seq<BaseAndExponent<T>>)
    requires Abelian(G) && BasesIn(G, s)
    ensures G.contains(Total(G, s))
  {
    hide Times, Abelian;
    if s == [] {
      Identity(G);
    } else {
      TotalIn(G, s[1..]);
      TermIn(G, s[0]);
      Closed(G, Total(G, s[1..]), Term(G, s[0]));
    }
  }

  /** Any pair can be taken out of the sum first. */
  lemma {:induction false} TotalWithout<T(!new)>(G: Group<T>, s: seq<BaseAndExponent<T>>, i: nat)
    requires Abelian(G) && BasesIn(G, s) && i < |s|
    ensures Total(G, s) == G.add(Total(G, Without(s, i)), Term(G, s[i]))
    ensures Work(s) == Work(Without(s, i)) + s[i].exponent
  {
    hide Times, Abelian, Term;
    if i == 0 {
      assert Without(s, 0) == s[1..];
    } else {
      var t := s[1..];
      TotalWithout(G, t, i - 1);
      assert Without(s, i) == [s[0]] + Without(t, i - 1);
      assert Without(s, i)[1..] == Without(t, i - 1);
      var a, b, c := Total(G, Without(t, i - 1)), Term(G, s[i]), Term(G, s[0]);
      TotalIn(G, Without(t, i - 1));
      TermIn(G, s[i]);
      TermIn(G, s[0]);
      Associative(G, a, b, c);
      Associative(G, a, c, b);
      Closed(G, b, c);
    }
  }

  lemma WithoutMultiset<X>(s: seq<X>, i: nat)
    requires i < |s|
    ensures multiset(Without(s, i)) == multiset(s) - multiset{s[i]}
  {
    assert s == s[..i] + [s[i]] + s[i + 1..];
  }

  /** The sum does not depend on the order of the pairs. */
  lemma {:induction false} TotalPermuted<T(!new)>(G: Group<T>, s: seq<BaseAndExponent<T>>, t: seq<BaseAndExponent<T>>)
    requires Abelian(G) && BasesIn(G, s) && multiset(s) == multiset(t)
    ensures BasesIn(G, t) && Total(G, s) == Total(G, t) && Work(s) == Work(t)
    decreases |s|
  {
    hide Times, Abelian, Term;
    forall p | p in t
      ensures p in s
    {
      assert p in multiset(t);
    }
    assert |multiset(s)| == |s| && |multiset(t)| == |t|;
    if s != [] {
      assert s[0] in multiset(t);
      var i :| 0 <= i < |t| && t[i] == s[0];
      WithoutMultiset(t, i);
      WithoutMultiset(s, 0);
      TotalWithout(G, s, 0);
      TotalWithout(G, t, i);
      TotalPermuted(G, Without(s, 0), Without(t, i));
    }
  }

  lemma {:induction false} TotalZero<T(!new)>(G: Group<T>, s: seq<BaseAndExponent<T>>)
    requires Abelian(G) && forall p <- s :: p.exponent == 0
    ensures Total(G, s) == G.identity
  {
    if s != [] {
      TotalZero(G, s[1..]);
      Identity(G);
    }
  }

  // ---------------------------------------------------------------- the heap

  /** The one property of a heap the algorithm relies on. */
  ghost predicate FrontIsMax<T>(s: seq<BaseAndExponent<T>>) {
    forall p <- s :: p.exponent <= s[0].exponent
  }

  /** Brings the largest of the first `n` pairs to the front, as the standard heap operations do. */
  method MaxToFront<T>(a: array<BaseAndExponent<T>>, n: nat)
    requires n <= a.Length
    modifies a
    ensures multiset(a[..]) == multiset(old(a[..])) && a[n..] == old(a[n..])
    ensures FrontIsMax(a[..n])
  {
    if n > 0 {
      var m := 0;
      for i := 0 to n
        invariant 0 <= m < n
        invariant forall k :: 0 <= k < i ==> a[k].exponent <= a[m].exponent
        invariant a[..] == old(a[..])
      {
        if a[m].exponent < a[i].exponent {
          m := i;
        }
      }
      a[0], a[m] := a[m], a[0];
    }
  }

  method MakeHeap<T>(a: array<BaseAndExponent<T>>)
    modifies a
    ensures multiset(a[..]) == multiset(old(a[..])) && FrontIsMax(a[..])
  {
    MaxToFront(a, a.Length);
    assert a[..a.Length] == a[..];
  }

  method PopHeap<T>(a: array<BaseAndExponent<T>>)
    requires a.Length > 0 && FrontIsMax(a[..])
    modifies a
    ensures multiset(a[..]) == multiset(old(a[..]))
    ensures a[a.Length - 1] == old(a[0]) && FrontIsMax(a[..a.Length - 1])
    ensures a[0].exponent <= a[a.Length - 1].exponent
  {
    var last := a.Length - 1;
    ghost var s := a[..];
    a[0], a[last] := a[last], a[0];
    assert a[last] == a[last..][0];
    MaxToFront(a, last);
    assert a[last] == a[last..][0];
    assert a[0] in multiset(s) by {
      assert a[..][0] in multiset(a[..]);
    }
  }

  method PushHeap<T>(a: array<BaseAndExponent<T>>)
    requires a.Length > 0 && FrontIsMax(a[..a.Length - 1])
    modifies a
    ensures multiset(a[..]) == multiset(old(a[..])) && FrontIsMax(a[..])
  {
    MaxToFront(a, a.Length);
    assert a[..a.Length] == a[..];
  }

  // ---------------------------------------------------------------- the reduction

  /**
   Division of one pair's exponent by another's: e1 * b1 + e2 * b2 with e1 = q * e2 + r is
   r * b1 + e2 * (b2 + q * b1).
   */
  lemma DivisionStep<T(!new)>(G: Group<T>, p: BaseAndExponent<T>, f: BaseAndExponent<T>, q: nat, r: nat, b: T)
    requires Abelian(G) && G.contains(p.base) && G.contains(f.base)
    requires p.exponent == q * f.exponent + r
    requires b == G.add(f.base, Times(G, q, p.base))
    ensures G.contains(b)
    ensures G.add(Term(G, p), Term(G, f)) == G.add(Times(G, r, p.base), Times(G, f.exponent, b))
  {
    hide Times, Abelian;
    var e, P, F := f.exponent, p.base, f.base;
    TimesIn(G, q, P);
    TimesIn(G, q * e, P);
    TimesIn(G, r, P);
    TimesIn(G, e, F);
    Closed(G, F, Times(G, q, P));
    TimesPlus(G, e, F, Times(G, q, P));
    TimesTimes(G, e, q, P);
    TimesAdd(G, q * e, r, P);
    assert e * q == q * e;
    Closed(G, Times(G, q * e, P), Times(G, r, P));
    Closed(G, Times(G, e, F), Times(G, q * e, P));
    Associative(G, Times(G, r, P), Times(G, q * e, P), Times(G, e, F));
  }

  lemma NewTerms<T(!new)>(G: Group<T>, p: BaseAndExponent<T>, f: BaseAndExponent<T>)
    ensures Term(G, p) == Times(G, p.exponent, p.base) && Term(G, f) == Times(G, f.exponent, f.base)
  {
  }

  lemma TwoTerms<T(!new)>(G: Group<T>, s: seq<BaseAndExponent<T>>)
    requires Abelian(G) && BasesIn(G, s) && |s| >= 2
    ensures var n := |s| - 1;
      && Total(G, s) == G.add(Total(G, s[1..n]), G.add(Term(G, s[n]), Term(G, s[0])))
      && Work(s) == Work(s[1..n]) + s[n].exponent + s[0].exponent
  {
    hide Times, Abelian, Term;
    var n := |s| - 1;
    TotalWithout(G, s, n);
    assert Without(s, n) == s[..n];
    assert s[..n][1..] == s[1..n];
    var a := Total(G, s[1..n]);
    TotalIn(G, s[1..n]);
    TermIn(G, s[n]);
    TermIn(G, s[0]);
    Associative(G, a, Term(G, s[0]), Term(G, s[n]));
    Closed(G, Term(G, s[0]), Term(G, s[n]));
  }

  /** The same, for the front and the last pair of a range: the total stays, the work falls. */
  lemma StepKeepsTotal<T(!new)>(G: Group<T>, s: seq<BaseAndExponent<T>>, q: nat, r: nat, b: T)
    requires Abelian(G) && BasesIn(G, s) && |s| >= 2
    requires var p, f := s[|s| - 1], s[0];
             && p.exponent == q * f.exponent + r && r < f.exponent <= p.exponent
             && b == G.add(f.base, Times(G, q, p.base))
    ensures var s' := s[0 := s[0].(base := b)][|s| - 1 := s[|s| - 1].(exponent := r)];
            BasesIn(G, s') && Total(G, s') == Total(G, s) && Work(s') < Work(s)
  {
    hide Times, Abelian, Term;
    var n := |s| - 1;
    var p, f := s[n], s[0];
    var p', f' := p.(exponent := r), f.(base := b);
    var s' := s[0 := f'][n := p'];
    DivisionStep(G, p, f, q, r, b);
    TwoTerms(G, s);
    assert BasesIn(G, s');
    TwoTerms(G, s');
    assert s'[1..n] == s[1..n];
    NewTerms(G, p', f');
  }

  lemma LawsOf<T(!new)>(G: Group<T>, a: T)
    requires Abelian(G)
    ensures InvertibleAt(G, a) && ClosedAt(G, a, G.identity)
  {
  }

  lemma TotalOne<T(!new)>(G: Group<T>, s: seq<BaseAndExponent<T>>)
    requires Abelian(G) && BasesIn(G, s) && |s| > 0
    requires forall p <- s[..|s| - 1] :: p.exponent == 0
    ensures Total(G, s) == Term(G, s[|s| - 1])
  {
    hide Times, Abelian, Term;
    var n := |s| - 1;
    TotalWithout(G, s, n);
    assert Without(s, n) == s[..n];
    TotalZero(G, s[..n]);
    TermIn(G, s[n]);
    assert InvertibleAt(G, Term(G, s[n])) && ClosedAt(G, Term(G, s[n]), G.identity) by {
      LawsOf(G, Term(G, s[n]));
    }
    Identity(G);
  }

  // ---------------------------------------------------------------- exponents

  ghost predicate AtMost<T>(s: seq<BaseAndExponent<T>>, bound: nat) {
    forall p <- s :: p.exponent <= bound
  }

  ghost predicate AllAtMost(exponents: seq<nat>, bound: nat) {
    forall e <- exponents :: e <= bound
  }

  /** The largest exponent, or 0 if there is none. */
  ghost function MaxExponent<T>(s: seq<BaseAndExponent<T>>): (m: nat)
    ensures AtMost(s, m) && (m == 0 || exists p <- s :: p.exponent == m)
  {
    if s == [] then 0 else
    var m := MaxExponent(s[1..]);
    assert s == [s[0]] + s[1..];
    if s[0].exponent > m then s[0].exponent else m
  }

  lemma AtMostPermuted<T(!new)>(s: seq<BaseAndExponent<T>>, t: seq<BaseAndExponent<T>>, bound: nat)
    requires AtMost(s, bound) && multiset(s) == multiset(t)
    ensures AtMost(t, bound)
  {
    forall p <- t
      ensures p.exponent <= bound
    {
      assert p in multiset(t);
    }
  }

  lemma NonePassed(bound: nat)
    ensures AllAtMost([], bound)
  {
  }

  lemma MorePassed(s: seq<nat>, t: seq<nat>, bound: nat)
    requires AllAtMost(s, bound) && AllAtMost(t, bound)
    ensures AllAtMost(s + t, bound)
  {
  }

  lemma LastPassed<T>(s: seq<BaseAndExponent<T>>, bound: nat)
    requires AtMost(s, bound) && |s| > 0
    ensures s[|s| - 1].exponent <= bound && AllAtMost([s[|s| - 1].exponent], bound)
  {
  }

  lemma NotLess(q: nat, e: nat)
    requires e > 0
    ensures q <= q * e
  {
  }

  lemma QuotientAtMost(t: nat, e: nat)
    requires e > 0
    ensures t / e <= t && t % e < e
  {
    var q, r := t / e, t % e;
    assert t == q * e + r;
    NotLess(q, e);
  }

  lemma StepAtMost<T>(s: seq<BaseAndExponent<T>>, q: nat, r: nat, b: T, bound: nat)
    requires |s| >= 2 && AtMost(s, bound) && q <= s[|s| - 1].exponent && r < s[0].exponent
    ensures AtMost(s[0 := s[0].(base := b)][|s| - 1 := s[|s| - 1].(exponent := r)], bound)
    ensures AllAtMost([q], bound) && AllAtMost([], bound)
  {
    assert s[0] in s && s[|s| - 1] in s;
  }

  lemma FrontStaysMax<T>(s: seq<BaseAndExponent<T>>, b: T)
    requires |s| > 0 && FrontIsMax(s)
    ensures FrontIsMax(s[0 := s[0].(base := b)])
  {
  }

  method DivideLast<T(!new)>(G: Group<T>, a: array<BaseAndExponent<T>>, ghost bound: nat)
    returns (ghost passed: seq<nat>)
    requires Abelian(G) && BasesIn(G, a[..]) && a.Length >= 3 && AtMost(a[..], bound)
    requires FrontIsMax(a[..a.Length - 1]) && 0 < a[0].exponent <= a[a.Length - 1].exponent
    modifies a
    ensures BasesIn(G, a[..]) && Total(G, a[..]) == Total(G, old(a[..])) && Work(a[..]) < Work(old(a[..]))
    ensures FrontIsMax(a[..a.Length - 1])
    ensures AtMost(a[..], bound) && AllAtMost(passed, bound)
  {
    hide Times, Abelian, Term, Total, Work, AtMost, AllAtMost;
    var last := a.Length - 1;
    ghost var s := a[..];
    // the last exponent is the largest, the first is the next largest
    var t, e := a[last].exponent, a[0].exponent;
    var q, r := t / e, t % e;
    a[last] := a[last].(exponent := r);
    var b;
    if q == 1 {
      TimesOne(G, a[last].base);
      passed := [];
      b := G.add(a[0].base, a[last].base);    // avoid the overhead of ScalarMultiply
    } else {
      passed := [q];
      var m := ScalarMultiply(G, a[last].base, q);
      b := G.add(a[0].base, m);
    }
    a[0] := a[0].(base := b);
    StepKeepsTotal(G, s, q, r, b);
    assert a[..] == s[0 := s[0].(base := b)][last := s[last].(exponent := r)];
    FrontStaysMax(s[..last], b);
    assert a[..last] == s[..last][0 := s[0].(base := b)];
    QuotientAtMost(t, e);
    StepAtMost(s, q, r, b, bound);
  }

  /** One round: the largest exponent is divided by the next largest, and the order is restored. */
  method Reduce<T(!new)>(G: Group<T>, a: array<BaseAndExponent<T>>, ghost bound: nat) returns (ghost passed: seq<nat>)
    requires Abelian(G) && BasesIn(G, a[..]) && a.Length >= 3 && AtMost(a[..], bound)
    requires FrontIsMax(a[..a.Length - 1]) && 0 < a[0].exponent <= a[a.Length - 1].exponent
    modifies a
    ensures BasesIn(G, a[..]) && Total(G, a[..]) == Total(G, old(a[..])) && Work(a[..]) < Work(old(a[..]))
    ensures FrontIsMax(a[..a.Length - 1]) && a[0].exponent <= a[a.Length - 1].exponent
    ensures AtMost(a[..], bound) && AllAtMost(passed, bound)
  {
    hide Times, Abelian, Term, Total, Work, AtMost, AllAtMost;
    passed := DivideLast(G, a, bound);
    ghost var s := a[..];
    PushHeap(a);
    PopHeap(a);
    TotalPermuted(G, s, a[..]);
    AtMostPermuted(s, a[..], bound);
  }

  /** Three pairs or more. */
  method CascadeWithHeap<T(!new)>(G: Group<T>, a: array<BaseAndExponent<T>>) returns (r: T, ghost passed: seq<nat>)
    requires Abelian(G) && BasesIn(G, a[..]) && a.Length >= 3
    modifies a
    ensures r == Total(G, old(a[..]))
    ensures AllAtMost(passed, MaxExponent(old(a[..])))
  {
    hide Times, Abelian, Term, AtMost, AllAtMost, MaxExponent;
    var last := a.Length - 1;
    ghost var s0 := a[..];
    ghost var bound := MaxExponent(s0);
    passed := [];
    NonePassed(bound);
    MakeHeap(a);
    PopHeap(a);
    TotalPermuted(G, s0, a[..]);
    AtMostPermuted(s0, a[..], bound);
    while a[0].exponent != 0
      invariant BasesIn(G, a[..]) && Total(G, a[..]) == Total(G, s0)
      invariant FrontIsMax(a[..last]) && a[0].exponent <= a[last].exponent
      invariant AtMost(a[..], bound) && AllAtMost(passed, bound)
      decreases Work(a[..])
    {
      ghost var more := Reduce(G, a, bound);
      MorePassed(passed, more, bound);
      passed := passed + more;
    }
    forall p | p in a[..][..last]
      ensures p.exponent == 0
    {
      assert a[..][..last] == a[..last];
      assert a[..last][0] == a[0];
    }
    TotalOne(G, a[..]);
    LastPassed(a[..], bound);
    MorePassed(passed, [a[last].exponent], bound);
    passed := passed + [a[last].exponent];
    r := ScalarMultiply(G, a[last].base, a[last].exponent);
    NewTerms(G, a[last], a[last]);
  }

  lemma TotalTwo<T(!new)>(G: Group<T>, s: seq<BaseAndExponent<T>>)
    requires Abelian(G) && BasesIn(G, s) && |s| == 2
    ensures Total(G, s) == Comb(G, s[0].base, s[1].base, s[0].exponent, s[1].exponent)
  {
    hide Times, Abelian;
    TotalWithout(G, s, 1);
    assert Without(s, 1) == [s[0]];
    TotalOne(G, [s[0]]);
  }

  /** `passed` are the exponents that the calls of ScalarMultiply, which is virtual in the source, are given. */
  method GeneralCascadeMultiplication<T(!new)>(G: Group<T>, a: array<BaseAndExponent<T>>)
    returns (r: T, ghost passed: seq<nat>)
    requires Abelian(G) && BasesIn(G, a[..]) && a.Length >= 1
    modifies a
    ensures r == Total(G, old(a[..]))
    ensures AllAtMost(passed, MaxExponent(old(a[..])))
  {
    hide Times, Abelian, Term, MaxExponent;
    var n := a.Length;
    passed := [];
    if n == 1 {
      TotalOne(G, a[..]);
      passed := [a[0].exponent];
      assert a[0] in a[..];
      r := ScalarMultiply(G, a[0].base, a[0].exponent);
      NewTerms(G, a[0], a[0]);
    } else if n == 2 {
      TotalTwo(G, a[..]);
      r := CascadeScalarMultiply(G, a[0].base, a[0].exponent, a[1].base, a[1].exponent);
    } else {
      r, passed := CascadeWithHeap(G, a);
    }
  }
}
