/** Ratios by prime factorisation: trial division, lowest terms, and the exact scale of a unit. */
module Factors {
  import opened Naturals
  import opened Ratios

  // ----- primes -----

  predicate NoDivisorBelow(x: nat, p: nat)
  {
    forall d :: 2 <= d < p ==> x % d != 0
  }

  predicate IsPrime(p: nat) { p >= 2 && NoDivisorBelow(p, p) }

  lemma DividesThrough(x: nat, p: nat, d: nat)
    requires d > 0 && p > 0 && x % p == 0 && p % d == 0
    ensures x % d == 0
  {
    DivFact(x, p);
    DivFact(p, d);
    var a, b := x / p, p / d;
    assert x == d * (b * a) by { assert (d * b) * a == d * (b * a); }
    DivUnique(x, d, b * a, 0);
  }

  /** The first divisor met is prime. */
  lemma FirstDivisorPrime(x: nat, p: nat)
    requires p >= 2 && NoDivisorBelow(x, p) && x % p == 0
    ensures IsPrime(p)
  {
    forall d | 2 <= d < p ensures p % d != 0 {
      if p % d == 0 { DividesThrough(x, p, d); }
    }
  }

  /** With no divisor up to its root, a number is prime. */
  lemma PastTheRoot(x: nat, p: nat)
    requires x > 1 && p >= 2 && p * p > x && NoDivisorBelow(x, p)
    ensures IsPrime(x)
  {
    forall d | 2 <= d < x ensures x % d != 0 {
      if x % d == 0 {
        DivFact(x, d);
        var c := x / d;
        assert x == d * c;
        assert d >= p by { assert x % d == 0; }
        assert c >= 2 by { assert c == 0 ==> d * c == 0; assert c == 1 ==> d * c == d; }
        DivUnique(x, c, d, 0);
        assert c >= p;
        AtLeastProduct(d, p, c);
        AtLeastProduct(c, p, p);
      }
    }
  }

  lemma QuotientKeeps(x: nat, p: nat, q: nat)
    requires p >= 2 && x > 0 && x % p == 0 && NoDivisorBelow(x, q)
    ensures x == p * (x / p) && 0 < x / p < x && NoDivisorBelow(x / p, q)
  {
    DivFact(x, p);
    var y := x / p;
    assert y == 0 ==> p * y == 0;
    assert p * y >= 2 * y by { AtLeastProduct(p, 2, y); }
    forall d | 2 <= d < q ensures y % d != 0 {
      if y % d == 0 {
        DivUnique(x, y, p, 0);
        DividesThrough(x, y, d);
      }
    }
  }

  /** Past an odd trial divisor the next even number need not be tried. */
  lemma NextTrial(x: nat, p: nat)
    requires p >= 2 && NoDivisorBelow(x, p) && x % p != 0 && (p == 2 || p % 2 == 1)
    ensures NoDivisorBelow(x, if p == 2 then 3 else p + 2)
  {
    if p > 2 && x % (p + 1) == 0 {
      assert (p + 1) % 2 == 0;
      DividesThrough(x, p + 1, 2);
    }
  }

  lemma {:induction false} PrimeFactor(d: nat) returns (q: nat)
    requires d >= 2
    ensures IsPrime(q) && d % q == 0
  {
    if IsPrime(d) {
      q := d;
    } else {
      var c :| 2 <= c < d && d % c == 0;
      q := PrimeFactor(c);
      DividesThrough(d, c, q);
    }
  }

  lemma MultipleOf(p: nat, k: nat)
    requires p > 0
    ensures (p * k) % p == 0
  {
    DivUnique(p * k, p, k, 0);
  }

  lemma MultipleDifference(p: nat, x: nat, y: nat)
    requires p > 0 && x % p == 0 && y % p == 0 && x >= y
    ensures (x - y) % p == 0
  {
    DivFact(x, p);
    DivFact(y, p);
    var a, b := x / p, y / p;
    assert p * (a - b) == x - y;
    assert a < b ==> p * (b - a) > 0;
    DivUnique(x - y, p, a - b, 0);
  }

  /** Euclid: a prime dividing a product of a smaller positive number and `b` divides `b`. */
  lemma {:induction false} SmallFactor(p: nat, a: nat, b: nat)
    requires IsPrime(p) && 0 < a < p && (a * b) % p == 0
    ensures b % p == 0
    decreases a
  {
    if a == 1 {
      assert a * b == b;
    } else {
      DivFact(p, a);
      var q, r := p / a, p % a;
      assert r > 0;
      assert r * b == p * b - q * (a * b) by {
        assert p * b == (a * q + r) * b == (a * q) * b + r * b;
        assert (a * q) * b == q * (a * b);
      }
      MultipleOf(p, b);
      MultipleProduct(p, a * b, q);
      assert q * (a * b) >= 0 && r * b >= 0;
      MultipleDifference(p, p * b, q * (a * b));
      SmallFactor(p, r, b);
    }
  }

  lemma MultipleProduct(p: nat, x: nat, q: nat)
    requires p > 0 && x % p == 0
    ensures (q * x) % p == 0
  {
    DivFact(x, p);
    assert q * (p * (x / p)) == p * (q * (x / p));
    DivUnique(q * x, p, q * (x / p), 0);
  }

  lemma PrimeDividesProduct(p: nat, a: nat, b: nat)
    requires IsPrime(p) && (a * b) % p == 0
    ensures a % p == 0 || b % p == 0
  {
    if a % p != 0 {
      DivFact(a, p);
      var q, r := a / p, a % p;
      assert r * b == a * b - p * (q * b) by {
        assert a * b == (p * q + r) * b == (p * q) * b + r * b;
        assert (p * q) * b == p * (q * b);
      }
      MultipleOf(p, q * b);
      assert r * b >= 0;
      MultipleDifference(p, a * b, p * (q * b));
      SmallFactor(p, r, b);
    }
  }

  // ----- integer powers of a positive real -----

  type Positive = r: real | r > 0.0 witness 1.0

  function RPow(b: Positive, e: int): Positive
    decreases if e < 0 then -e else e
  {
    if e == 0 then 1.0 else if e > 0 then Times(b, RPow(b, e - 1)) else Over(RPow(b, e + 1), b)
  }

  function Times(a: Positive, b: Positive): Positive { a * b }

  function Over(a: Positive, b: Positive): Positive { a / b }

  lemma OverTimes(a: Positive, b: Positive)
    ensures Times(b, Over(a, b)) == a
  {
  }

  lemma TimesCommutes(a: Positive, b: Positive)
    ensures Times(a, b) == Times(b, a)
  {
  }

  lemma TimesAssociates(a: Positive, b: Positive, c: Positive)
    ensures Times(a, Times(b, c)) == Times(Times(a, b), c)
  {
    assert a * (b * c) == (a * b) * c;
  }

  lemma TimesCancels(a: Positive, b: Positive, c: Positive)
    requires Times(a, b) == Times(a, c)
    ensures b == c
  {
    assert a * (b - c) == 0.0;
  }

  lemma RPowStep(b: Positive, e: int)
    ensures RPow(b, e + 1) == Times(b, RPow(b, e))
  {
    if e < 0 { OverTimes(RPow(b, e + 1), b); }
  }

  lemma ScaledFactor(b: Positive, u: Positive, y: Positive, z: Positive)
    ensures z == Times(u, y) <==> Times(b, z) == Times(u, Times(b, y))
  {
    TimesAssociates(u, b, y);
    TimesCommutes(u, b);
    TimesAssociates(b, u, y);
    if Times(b, z) == Times(b, Times(u, y)) { TimesCancels(b, z, Times(u, y)); }
  }

  lemma {:induction false} RPowAdds(b: Positive, d: int, e: int)
    ensures RPow(b, d + e) == Times(RPow(b, d), RPow(b, e))
    decreases if e < 0 then -e else e
  {
    if e == 0 {
      assert RPow(b, d) * 1.0 == RPow(b, d);
    } else {
      var below := if e > 0 then e - 1 else e;
      RPowAdds(b, d, if e > 0 then below else e + 1);
      RPowStep(b, d + below);
      RPowStep(b, below);
      ScaledFactor(b, RPow(b, d), RPow(b, below), RPow(b, d + below));
      assert d + below + 1 == d + (below + 1);
    }
  }

  lemma ProductStep(a: Positive, b: Positive, x: Positive, y: Positive, z: Positive)
    ensures z == Times(x, y) <==> Times(Times(a, b), z) == Times(Times(a, x), Times(b, y))
  {
    var ab := Times(a, b);
    TimesAssociates(Times(a, x), b, y);
    TimesAssociates(a, x, b);
    TimesCommutes(x, b);
    TimesAssociates(a, b, x);
    TimesAssociates(ab, x, y);
    if Times(ab, z) == Times(ab, Times(x, y)) { TimesCancels(ab, z, Times(x, y)); }
  }

  lemma {:induction false} RPowTimes(a: Positive, b: Positive, ab: Positive, e: int)
    requires ab == Times(a, b)
    ensures RPow(ab, e) == Times(RPow(a, e), RPow(b, e))
    decreases if e < 0 then -e else e
  {
    if e == 0 {
    } else {
      var below := if e > 0 then e - 1 else e;
      RPowTimes(a, b, ab, if e > 0 then below else e + 1);
      RPowStep(a, below);
      RPowStep(b, below);
      RPowStep(ab, below);
      ProductStep(a, b, RPow(a, below), RPow(b, below), RPow(ab, below));
    }
  }
}
