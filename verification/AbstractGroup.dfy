/**
 The abstract group of algebra.h: a value carries the four virtual operations.

 The laws are an assumption about the operations a caller passes in.  Each law is stated at
 given elements by its own predicate, so that a proof uses exactly the instances it asks for.
 */
module AbstractGroups {

  datatype Group<!T> = Group(
    contains: T -> bool,     // the elements the laws speak about
    identity: T,
    add: (T, T) -> T,
    inverse: T -> T,
    inversionIsFast: bool)

  ghost predicate ClosedAt<T>(G: Group<T>, a: T, b: T) {
    G.contains(a) && G.contains(b) ==> G.contains(G.add(a, b)) && G.add(a, b) == G.add(b, a)
  }

  ghost predicate AssociativeAt<T>(G: Group<T>, a: T, b: T, c: T) {
    G.contains(a) && G.contains(b) && G.contains(c) ==> G.add(G.add(a, b), c) == G.add(a, G.add(b, c))
  }

  ghost predicate InvertibleAt<T>(G: Group<T>, a: T) {
    G.contains(a) ==>
      && G.add(a, G.identity) == a
      && G.contains(G.inverse(a))
      && G.add(a, G.inverse(a)) == G.identity
  }

  ghost predicate Abelian<T(!new)>(G: Group<T>) {
    && G.contains(G.identity)
    && (forall a, b :: ClosedAt(G, a, b))
    && (forall a, b, c :: AssociativeAt(G, a, b, c))
    && (forall a :: InvertibleAt(G, a))
  }

  lemma Closed<T(!new)>(G: Group<T>, a: T, b: T)
    requires Abelian(G) && G.contains(a) && G.contains(b)
    ensures G.contains(G.add(a, b)) && G.add(a, b) == G.add(b, a)
  {
    assert ClosedAt(G, a, b);
  }

  lemma Associative<T(!new)>(G: Group<T>, a: T, b: T, c: T)
    requires Abelian(G) && G.contains(a) && G.contains(b) && G.contains(c)
    ensures G.add(G.add(a, b), c) == G.add(a, G.add(b, c))
  {
    assert AssociativeAt(G, a, b, c);
  }

  lemma Inverse<T(!new)>(G: Group<T>, a: T)
    requires Abelian(G) && G.contains(a)
    ensures G.add(a, G.identity) == a && G.add(G.identity, a) == a
    ensures G.contains(G.inverse(a))
    ensures G.add(a, G.inverse(a)) == G.identity && G.add(G.inverse(a), a) == G.identity
  {
    assert InvertibleAt(G, a);
    Closed(G, a, G.identity);
    Closed(G, a, G.inverse(a));
  }

  /** Regrouping a sum of four terms. */
  lemma Interchange<T(!new)>(G: Group<T>, a: T, b: T, c: T, d: T)
    requires Abelian(G) && G.contains(a) && G.contains(b) && G.contains(c) && G.contains(d)
    ensures G.add(G.add(a, b), G.add(c, d)) == G.add(G.add(a, c), G.add(b, d))
  {
    Closed(G, c, d);
    Closed(G, b, d);
    Closed(G, b, c);
    Associative(G, a, b, G.add(c, d));
    Associative(G, b, c, d);
    Associative(G, c, b, d);
    Associative(G, a, c, G.add(b, d));
  }

  /** `n` times `a`: the simple form every fast multiplication below has to agree with. */
  function Times<T>(G: Group<T>, n: int, a: T): T
    decreases if n < 0 then -n else n
  {
    if n == 0 then G.identity
    else if n > 0 then G.add(Times(G, n - 1, a), a)
    else G.add(Times(G, n + 1, a), G.inverse(a))
  }

  lemma {:induction false} TimesIn<T(!new)>(G: Group<T>, n: int, a: T)
    requires Abelian(G) && G.contains(a)
    ensures G.contains(Times(G, n, a))
    decreases if n < 0 then -n else n
  {
    Inverse(G, a);
    if n > 0 {
      TimesIn(G, n - 1, a);
      Closed(G, Times(G, n - 1, a), a);
    } else if n < 0 {
      TimesIn(G, n + 1, a);
      Closed(G, Times(G, n + 1, a), G.inverse(a));
    }
  }

  lemma TimesSucc<T(!new)>(G: Group<T>, n: int, a: T)
    requires Abelian(G) && G.contains(a)
    ensures Times(G, n + 1, a) == G.add(Times(G, n, a), a)
  {
    if n < 0 {
      var s := Times(G, n + 1, a);
      TimesIn(G, n + 1, a);
      Inverse(G, a);
      Inverse(G, s);
      Associative(G, s, G.inverse(a), a);
    }
  }

  lemma TimesPred<T(!new)>(G: Group<T>, n: int, a: T)
    requires Abelian(G) && G.contains(a)
    ensures Times(G, n - 1, a) == G.add(Times(G, n, a), G.inverse(a))
  {
    TimesSucc(G, n - 1, a);
    var s := Times(G, n - 1, a);
    TimesIn(G, n - 1, a);
    Inverse(G, a);
    Inverse(G, s);
    Associative(G, s, a, G.inverse(a));
  }

  lemma TimesOne<T(!new)>(G: Group<T>, a: T)
    requires Abelian(G) && G.contains(a)
    ensures Times(G, 1, a) == a && Times(G, 2, a) == G.add(a, a)
  {
    Inverse(G, a);
    TimesSucc(G, 0, a);
    TimesSucc(G, 1, a);
  }

  lemma {:induction false} TimesAdd<T(!new)>(G: Group<T>, m: int, n: int, a: T)
    requires Abelian(G) && G.contains(a)
    ensures Times(G, m + n, a) == G.add(Times(G, m, a), Times(G, n, a))
    decreases if n < 0 then -n else n
  {
    TimesIn(G, m, a);
    Inverse(G, Times(G, m, a));
    Inverse(G, a);
    if n > 0 {
      TimesAdd(G, m, n - 1, a);
      TimesSucc(G, m + n - 1, a);
      TimesIn(G, n - 1, a);
      Associative(G, Times(G, m, a), Times(G, n - 1, a), a);
    } else if n < 0 {
      TimesAdd(G, m, n + 1, a);
      TimesPred(G, m + n + 1, a);
      TimesIn(G, n + 1, a);
      Associative(G, Times(G, m, a), Times(G, n + 1, a), G.inverse(a));
    }
  }

  lemma TimesNegate<T(!new)>(G: Group<T>, n: int, a: T)
    requires Abelian(G) && G.contains(a)
    ensures G.inverse(Times(G, n, a)) == Times(G, -n, a)
  {
    var p, q := Times(G, n, a), Times(G, -n, a);
    TimesIn(G, n, a);
    TimesIn(G, -n, a);
    TimesAdd(G, n, -n, a);
    Inverse(G, p);
    Inverse(G, q);
    Inverse(G, G.inverse(p));
    Associative(G, G.inverse(p), p, q);
  }

  lemma {:induction false} TimesTimes<T(!new)>(G: Group<T>, m: int, n: int, a: T)
    requires Abelian(G) && G.contains(a)
    ensures Times(G, m, Times(G, n, a)) == Times(G, m * n, a)
    decreases if m < 0 then -m else m
  {
    var b := Times(G, n, a);
    TimesIn(G, n, a);
    if m > 0 {
      TimesTimes(G, m - 1, n, a);
      TimesAdd(G, (m - 1) * n, n, a);
      assert (m - 1) * n + n == m * n;
    } else if m < 0 {
      TimesTimes(G, m + 1, n, a);
      TimesNegate(G, n, a);
      TimesAdd(G, (m + 1) * n, -n, a);
      assert (m + 1) * n + -n == m * n;
    }
  }

  lemma {:induction false} TimesPlus<T(!new)>(G: Group<T>, n: nat, a: T, b: T)
    requires Abelian(G) && G.contains(a) && G.contains(b)
    ensures Times(G, n, G.add(a, b)) == G.add(Times(G, n, a), Times(G, n, b))
  {
    Closed(G, a, b);
    if n == 0 {
      Inverse(G, G.identity);
    } else {
      TimesPlus(G, n - 1, a, b);
      TimesIn(G, n - 1, a);
      TimesIn(G, n - 1, b);
      Interchange(G, Times(G, n - 1, a), Times(G, n - 1, b), a, b);
    }
  }
}
