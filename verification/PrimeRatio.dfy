/** The ratio class: factors added by trial division, sides multiplied out on limbs. */
module PrimeRatio {
  import opened Naturals
  import opened Ratios
  import opened Factors

  type Pos = n: nat | n > 0 witness 1

  datatype PrimePower = PrimePower(prime: Pos, exponent: int)

  function AsReal(n: Pos): Positive { n as real }

  /** The positive rational a factorisation spells. */
  function Worth(s: seq<PrimePower>): Positive
  {
    if s == [] then 1.0 else Times(RPow(AsReal(s[0].prime), s[0].exponent), Worth(s[1..]))
  }

  /** The exponent of a prime raised, the prime entered if it was absent. */
  function Bump(s: seq<PrimePower>, p: Pos, e: int): seq<PrimePower>
  {
    if s == [] || p < s[0].prime then [PrimePower(p, e)] + s
    else if p == s[0].prime then [PrimePower(p, s[0].exponent + e)] + s[1..]
    else [s[0]] + Bump(s[1..], p, e)
  }

  function Retained(s: seq<PrimePower>): seq<PrimePower>
  {
    if s == [] then [] else (if s[0].exponent != 0 then [s[0]] else []) + Retained(s[1..])
  }

  /** Distinct primes in order. */
  ghost predicate PrimeKeys(s: seq<PrimePower>)
  {
    (forall i :: 0 <= i < |s| ==> IsPrime(s[i].prime)) && forall i, j :: 0 <= i < j < |s| ==> s[i].prime < s[j].prime
  }

  ghost predicate NoZero(s: seq<PrimePower>)
  {
    forall i :: 0 <= i < |s| ==> s[i].exponent != 0
  }

  lemma OneTimes(a: Positive)
    ensures Times(1.0, a) == a && Times(a, 1.0) == a
  {
  }

  lemma {:induction false} WorthBump(s: seq<PrimePower>, p: Pos, e: int)
    ensures Worth(Bump(s, p, e)) == Times(Worth(s), RPow(AsReal(p), e))
  {
    var power := RPow(AsReal(p), e);
    if s == [] || p < s[0].prime {
      assert ([PrimePower(p, e)] + s)[1..] == s;
      TimesCommutes(power, Worth(s));
    } else if p == s[0].prime {
      assert ([PrimePower(p, s[0].exponent + e)] + s[1..])[1..] == s[1..];
      RPowAdds(AsReal(p), s[0].exponent, e);
      var a, w := RPow(AsReal(p), s[0].exponent), Worth(s[1..]);
      TimesAssociates(a, power, w);
      TimesCommutes(power, w);
      TimesAssociates(a, w, power);
    } else {
      WorthBump(s[1..], p, e);
      var rest := Bump(s[1..], p, e);
      assert ([s[0]] + rest)[1..] == rest;
      TimesAssociates(RPow(AsReal(s[0].prime), s[0].exponent), Worth(s[1..]), power);
    }
  }

  lemma {:induction false} BumpKeys(s: seq<PrimePower>, p: Pos, e: int)
    requires PrimeKeys(s) && IsPrime(p)
    ensures PrimeKeys(Bump(s, p, e))
    ensures forall i :: 0 <= i < |Bump(s, p, e)| ==>
      Bump(s, p, e)[i].prime == p || exists j :: 0 <= j < |s| && s[j].prime == Bump(s, p, e)[i].prime
  {
    if s != [] && p > s[0].prime {
      BumpKeys(s[1..], p, e);
      var rest := Bump(s[1..], p, e);
      forall i | 0 <= i < |rest|
        ensures s[0].prime < rest[i].prime
          && (rest[i].prime == p || exists j :: 0 <= j < |s| && s[j].prime == rest[i].prime)
      {
        if rest[i].prime != p {
          var j :| 0 <= j < |s[1..]| && s[1..][j].prime == rest[i].prime;
          assert s[j + 1].prime == rest[i].prime;
        }
      }
    }
  }

  lemma {:induction false} RetainedWorth(s: seq<PrimePower>)
    ensures Worth(Retained(s)) == Worth(s) && NoZero(Retained(s))
  {
    if s != [] {
      RetainedWorth(s[1..]);
      var rest := Retained(s[1..]);
      assert ([s[0]] + rest)[1..] == rest && [] + rest == rest;
      if s[0].exponent == 0 { OneTimes(Worth(s[1..])); }
    }
  }

  lemma {:induction false} RetainedFrom(s: seq<PrimePower>, x: PrimePower)
    ensures x in Retained(s) ==> x in s
  {
    if s != [] { RetainedFrom(s[1..], x); }
  }

  lemma {:induction false} RetainedKeys(s: seq<PrimePower>)
    requires PrimeKeys(s)
    ensures PrimeKeys(Retained(s))
  {
    if s != [] {
      RetainedKeys(s[1..]);
      var rest := Retained(s[1..]);
      forall i | 0 <= i < |rest| ensures s[0].prime < rest[i].prime {
        RetainedFrom(s[1..], rest[i]);
        var j :| 0 <= j < |s[1..]| && s[1..][j] == rest[i];
        assert s[j + 1] == rest[i];
      }
    }
  }

  // ----- sides -----

  function NPow(b: Pos, e: nat): Pos
  {
    if e == 0 then 1 else Scale(b, NPow(b, e - 1))
  }

  function Scale(a: Pos, b: Pos): Pos
  {
    Product(a, b);
    a * b
  }

  lemma Product(a: Pos, b: Pos)
    ensures a * b > 0
  {
  }

  function Magnitude(e: int): nat { if e < 0 then -e else e }

  /** The product of the primes on one side of the bar. */
  function SideOf(s: seq<PrimePower>, positive: bool): Pos
  {
    if s == [] then 1
    else if (s[0].exponent > 0) == positive then
      Scale(NPow(s[0].prime, Magnitude(s[0].exponent)), SideOf(s[1..], positive))
    else SideOf(s[1..], positive)
  }

  lemma RealProduct(a: Pos, b: Pos)
    ensures AsReal(Scale(a, b)) == Times(AsReal(a), AsReal(b))
  {
  }

  lemma {:induction false} RealPower(b: Pos, e: nat)
    ensures RPow(AsReal(b), e) == AsReal(NPow(b, e))
  {
    if e > 0 {
      RealPower(b, e - 1);
      RealProduct(b, NPow(b, e - 1));
    }
  }

  lemma InversePower(b: Pos, e: int)
    requires e <= 0
    ensures Times(RPow(AsReal(b), e), AsReal(NPow(b, Magnitude(e)))) == 1.0
  {
    RealPower(b, Magnitude(e));
    RPowAdds(AsReal(b), e, Magnitude(e));
  }

  /** The ratio times its denominator is its numerator. */
  lemma {:induction false} WorthIsQuotient(s: seq<PrimePower>)
    ensures Times(Worth(s), AsReal(SideOf(s, false))) == AsReal(SideOf(s, true))
  {
    if s != [] {
      WorthIsQuotient(s[1..]);
      var e := s[0].exponent;
      var w, n, d := Worth(s[1..]), AsReal(SideOf(s[1..], true)), AsReal(SideOf(s[1..], false));
      var r, m := RPow(AsReal(s[0].prime), e), NPow(s[0].prime, Magnitude(e));
      if e > 0 {
        RealPower(s[0].prime, e);
        RealProduct(m, SideOf(s[1..], true));
        TimesAssociates(r, w, d);
      } else {
        InversePower(s[0].prime, e);
        RealProduct(m, SideOf(s[1..], false));
        MovesAcross(r, AsReal(m), w, d);
      }
    } else {
      OneTimes(1.0);
    }
  }

  lemma MovesAcross(r: Positive, m: Positive, w: Positive, d: Positive)
    requires Times(r, m) == 1.0
    ensures Times(Times(r, w), Times(m, d)) == Times(w, d)
  {
    TimesCommutes(r, w);
    TimesAssociates(w, r, Times(m, d));
    TimesAssociates(r, m, d);
    OneTimes(d);
  }

  lemma {:induction false} PrimeOfPower(q: nat, b: Pos, e: nat)
    requires IsPrime(q) && IsPrime(b) && NPow(b, e) % q == 0
    ensures b == q && e > 0
  {
    if e > 0 {
      PrimeDividesProduct(q, b, NPow(b, e - 1));
      if b % q == 0 {
        assert q <= b;
      } else {
        PrimeOfPower(q, b, e - 1);
      }
    }
  }

  /** A prime dividing one side is one of its keys. */
  lemma {:induction false} PrimeOfSide(q: nat, s: seq<PrimePower>, positive: bool) returns (i: nat)
    requires IsPrime(q) && PrimeKeys(s) && SideOf(s, positive) % q == 0
    ensures i < |s| && s[i].prime == q && s[i].exponent != 0 && (s[i].exponent > 0 <==> positive)
  {
    assert s != [];
    var here := (s[0].exponent > 0) == positive;
    var power := NPow(s[0].prime, Magnitude(s[0].exponent));
    if here { PrimeDividesProduct(q, power, SideOf(s[1..], positive)); }
    if here && power % q == 0 {
      PrimeOfPower(q, s[0].prime, Magnitude(s[0].exponent));
      i := 0;
    } else {
      var j := PrimeOfSide(q, s[1..], positive);
      i := j + 1;
    }
  }

  lemma SameKey(s: seq<PrimePower>, i: nat, j: nat)
    requires PrimeKeys(s) && i < |s| && j < |s| && s[i].prime == s[j].prime
    ensures i == j
  {
  }

  /** Numerator and denominator share no factor: the ratio is always in lowest terms. */
  lemma LowestTerms(s: seq<PrimePower>, d: nat)
    requires PrimeKeys(s) && d >= 2
    ensures SideOf(s, true) % d != 0 || SideOf(s, false) % d != 0
  {
    if SideOf(s, true) % d == 0 && SideOf(s, false) % d == 0 {
      var q := PrimeFactor(d);
      DividesThrough(SideOf(s, true), d, q);
      DividesThrough(SideOf(s, false), d, q);
      var i := PrimeOfSide(q, s, true);
      var j := PrimeOfSide(q, s, false);
      SameKey(s, i, j);
    }
  }

  // ----- one map a ratio -----

  /** The exponent of a prime, zero where it has no entry. */
  function Exponent(s: seq<PrimePower>, p: Pos): int
  {
    if s == [] then 0 else if s[0].prime == p then s[0].exponent else Exponent(s[1..], p)
  }

  ghost predicate SameExponents(s: seq<PrimePower>, t: seq<PrimePower>)
  {
    forall p: Pos :: Exponent(s, p) == Exponent(t, p)
  }

  lemma {:induction false} ExponentAbsent(s: seq<PrimePower>, p: Pos)
    requires forall i :: 0 <= i < |s| ==> s[i].prime != p
    ensures Exponent(s, p) == 0
  {
    if s != [] { ExponentAbsent(s[1..], p); }
  }

  lemma {:induction false} ExponentBump(s: seq<PrimePower>, p: Pos, e: int, q: Pos)
    requires PrimeKeys(s)
    ensures Exponent(Bump(s, p, e), q) == Exponent(s, q) + if p == q then e else 0
  {
    if s == [] || p < s[0].prime {
      assert ([PrimePower(p, e)] + s)[1..] == s;
      if p == q { ExponentAbsent(s, p); }
    } else if p == s[0].prime {
      assert ([PrimePower(p, s[0].exponent + e)] + s[1..])[1..] == s[1..];
    } else {
      ExponentBump(s[1..], p, e, q);
      var rest := Bump(s[1..], p, e);
      assert ([s[0]] + rest)[1..] == rest;
    }
  }

  lemma {:induction false} ExponentRetained(s: seq<PrimePower>, q: Pos)
    requires PrimeKeys(s)
    ensures Exponent(Retained(s), q) == Exponent(s, q)
  {
    if s != [] {
      ExponentRetained(s[1..], q);
      var rest := Retained(s[1..]);
      assert ([s[0]] + rest)[1..] == rest && [] + rest == rest;
      if s[0].prime == q { ExponentAbsent(s[1..], q); }
    }
  }

  /** One factorisation with another's exponents taken away. */
  function Divided(s: seq<PrimePower>, t: seq<PrimePower>): seq<PrimePower>
    decreases |t|
  {
    if t == [] then s else Divided(Bump(s, t[0].prime, -t[0].exponent), t[1..])
  }

  lemma {:induction false} DividedKeys(s: seq<PrimePower>, t: seq<PrimePower>)
    requires PrimeKeys(s) && PrimeKeys(t)
    ensures PrimeKeys(Divided(s, t))
    decreases |t|
  {
    if t != [] {
      BumpKeys(s, t[0].prime, -t[0].exponent);
      DividedKeys(Bump(s, t[0].prime, -t[0].exponent), t[1..]);
    }
  }

  lemma {:induction false} DividedExponent(s: seq<PrimePower>, t: seq<PrimePower>, q: Pos)
    requires PrimeKeys(s) && PrimeKeys(t)
    ensures Exponent(Divided(s, t), q) == Exponent(s, q) - Exponent(t, q)
    decreases |t|
  {
    if t != [] {
      var p, e := t[0].prime, t[0].exponent;
      BumpKeys(s, p, -e);
      ExponentBump(s, p, -e, q);
      DividedExponent(Bump(s, p, -e), t[1..], q);
      if p == q { ExponentAbsent(t[1..], q); }
    }
  }

  lemma {:induction false} DividedWorth(s: seq<PrimePower>, t: seq<PrimePower>)
    ensures Times(Worth(Divided(s, t)), Worth(t)) == Worth(s)
    decreases |t|
  {
    if t == [] {
      OneTimes(Worth(s));
    } else {
      var p, e := t[0].prime, t[0].exponent;
      var less, more := RPow(AsReal(p), -e), RPow(AsReal(p), e);
      var bumped := Bump(s, p, -e);
      DividedWorth(bumped, t[1..]);
      WorthBump(s, p, -e);
      RPowAdds(AsReal(p), -e, e);
      PutsBack(Worth(Divided(bumped, t[1..])), Worth(t[1..]), Worth(s), less, more);
    }
  }

  lemma PutsBack(q: Positive, rest: Positive, w: Positive, less: Positive, more: Positive)
    requires Times(q, rest) == Times(w, less) && Times(less, more) == 1.0
    ensures Times(q, Times(more, rest)) == w
  {
    TimesCommutes(more, rest);
    TimesAssociates(q, rest, more);
    TimesAssociates(w, less, more);
    OneTimes(w);
  }

  lemma SideHead(s: seq<PrimePower>)
    requires s != [] && s[0].prime >= 2 && s[0].exponent != 0
    ensures SideOf(s, s[0].exponent > 0) >= 2
  {
    var power, rest := NPow(s[0].prime, Magnitude(s[0].exponent)), SideOf(s[1..], s[0].exponent > 0);
    var below := NPow(s[0].prime, Magnitude(s[0].exponent) - 1);
    AtLeastProduct(s[0].prime, s[0].prime, 1);
    assert power == s[0].prime * below >= s[0].prime;
    assert power * rest >= power;
  }

  /** A factorisation of one is empty. */
  lemma OneIsEmpty(s: seq<PrimePower>)
    requires PrimeKeys(s) && NoZero(s) && Worth(s) == 1.0
    ensures s == []
  {
    WorthIsQuotient(s);
    var n, d := SideOf(s, true), SideOf(s, false);
    OneTimes(AsReal(d));
    assert n == d;
    if s != [] {
      SideHead(s);
      LowestTerms(s, n);
    }
  }

  lemma QuotientOne(q: Positive, w: Positive)
    requires Times(q, w) == w
    ensures q == 1.0
  {
    OneTimes(w);
    TimesCommutes(q, w);
    TimesCancels(w, q, 1.0);
  }

  lemma EqualWorthExponents(s: seq<PrimePower>, t: seq<PrimePower>)
    requires PrimeKeys(s) && PrimeKeys(t) && Worth(s) == Worth(t)
    ensures SameExponents(s, t)
  {
    var u := Divided(s, t);
    DividedKeys(s, t);
    DividedWorth(s, t);
    QuotientOne(Worth(u), Worth(t));
    RetainedWorth(u);
    RetainedKeys(u);
    OneIsEmpty(Retained(u));
    forall p: Pos ensures Exponent(s, p) == Exponent(t, p) {
      DividedExponent(s, t, p);
      ExponentRetained(u, p);
    }
  }

  lemma HeadExponent(s: seq<PrimePower>, t: seq<PrimePower>)
    requires PrimeKeys(s) && PrimeKeys(t) && NoZero(s) && SameExponents(s, t) && s != []
    ensures t != [] && t[0].prime <= s[0].prime
  {
    assert Exponent(s, s[0].prime) == Exponent(t, s[0].prime);
    if t == [] || t[0].prime > s[0].prime { ExponentAbsent(t, s[0].prime); }
  }

  lemma TailExponents(s: seq<PrimePower>, t: seq<PrimePower>)
    requires PrimeKeys(s) && PrimeKeys(t) && SameExponents(s, t)
    requires s != [] && t != [] && s[0].prime == t[0].prime
    ensures s[0] == t[0] && SameExponents(s[1..], t[1..])
  {
    assert Exponent(s, s[0].prime) == Exponent(t, s[0].prime);
    forall p: Pos ensures Exponent(s[1..], p) == Exponent(t[1..], p) {
      assert Exponent(s, p) == Exponent(t, p);
      if p == s[0].prime {
        ExponentAbsent(s[1..], p);
        ExponentAbsent(t[1..], p);
      }
    }
  }

  lemma {:induction false} ExponentsDetermine(s: seq<PrimePower>, t: seq<PrimePower>)
    requires PrimeKeys(s) && PrimeKeys(t) && NoZero(s) && NoZero(t) && SameExponents(s, t)
    ensures s == t
  {
    if s == [] {
      if t != [] { HeadExponent(t, s); }
    } else {
      HeadExponent(s, t);
      HeadExponent(t, s);
      TailExponents(s, t);
      ExponentsDetermine(s[1..], t[1..]);
      assert s == [s[0]] + s[1..] && t == [t[0]] + t[1..];
    }
  }

  /** Two equal ratios have one map. */
  lemma EqualRatiosHaveOneMap(s: seq<PrimePower>, t: seq<PrimePower>)
    requires PrimeKeys(s) && NoZero(s) && PrimeKeys(t) && NoZero(t)
    ensures Worth(s) == Worth(t) <==> s == t
  {
    if Worth(s) == Worth(t) {
      EqualWorthExponents(s, t);
      ExponentsDetermine(s, t);
    }
  }

  // ----- primes cut to a limb -----

  ghost predicate LeaveLimbs(s: seq<PrimePower>)
  {
    forall i :: 0 <= i < |s| ==> s[i].prime % LIMB != 0
  }

  /** A prime's low limb is never zero: a number whose low limb is zero is even and above two. */
  lemma KeysLeaveLimbs(s: seq<PrimePower>)
    requires PrimeKeys(s)
    ensures LeaveLimbs(s)
  {
    forall i | 0 <= i < |s| ensures s[i].prime % LIMB != 0 {
      var p := s[i].prime;
      assert p == 2 || p % 2 != 0;
    }
  }

  function Truncated(s: seq<PrimePower>): (r: seq<PrimePower>)
    requires LeaveLimbs(s)
    ensures |r| == |s|
    ensures forall i :: 0 <= i < |s| ==> r[i] == PrimePower(s[i].prime % LIMB, s[i].exponent)
    ensures (forall i :: 0 <= i < |s| ==> s[i].prime < LIMB) ==> r == s
  {
    seq(|s|, i requires 0 <= i < |s| && s[i].prime % LIMB != 0 => PrimePower(s[i].prime % LIMB, s[i].exponent))
  }

  // ----- the class -----

  /** One atom of a unit: its scale over the coherent base, its prefix's power of ten, its exponent. */
  datatype UnitFactor = UnitFactor(num: Pos, den: Pos, prefixPower: int, exponent: int)

  /** What a unit's factors scale by. */
  function UnitScale(fs: seq<UnitFactor>): Positive
  {
    if fs == [] then 1.0
    else
      var f := fs[|fs| - 1];
      Times(UnitScale(fs[..|fs| - 1]),
          Times(RPow(Over(AsReal(f.num), AsReal(f.den)), f.exponent), RPow(10.0, f.prefixPower * f.exponent)))
  }

  /** What has been divided out of a factor so far, and what is left of it, make up the whole. */
  ghost predicate Accounted(s: seq<PrimePower>, x: Pos, e: int, total: Positive)
  {
    Times(Worth(s), RPow(AsReal(x), e)) == total
  }

  lemma DivideStep(s: seq<PrimePower>, p: Pos, x: Pos, e: int, total: Positive)
    requires p >= 2 && PrimeKeys(s) && NoDivisorBelow(x, p) && x % p == 0 && Accounted(s, x, e, total)
    ensures 0 < x / p < x && NoDivisorBelow(x / p, p) && (x == p ==> x / p == 1)
    ensures PrimeKeys(Bump(s, p, e)) && Accounted(Bump(s, p, e), x / p, e, total)
  {
    FirstDivisorPrime(x, p);
    QuotientKeeps(x, p, p);
    BumpKeys(s, p, e);
    WorthBump(s, p, e);
    FactorMoves(Worth(s), p, x / p, x, e);
  }

  class Ratio {
    var primes: seq<PrimePower>

    ghost predicate Valid()
      reads this
    {
      PrimeKeys(primes) && NoZero(primes)
    }

    constructor ()
      ensures Valid() && Worth(primes) == 1.0
    {
      primes := [];
    }

    /** Multiplies the ratio by `x0` to the power `e`, by trial division. */
    method AddFactor(x0: nat, e: int)
      requires Valid()
      modifies this
      ensures Valid()
      ensures x0 > 0 ==> Worth(primes) == Times(old(Worth(primes)), RPow(AsReal(x0), e))
    {
      if x0 == 0 {
        return;
      }
      ghost var total := Times(Worth(primes), RPow(AsReal(x0), e));
      var p: nat, x := 2, x0;
      while x > 1
        invariant x >= 1 && p >= 2 && PrimeKeys(primes) && Accounted(primes, x, e, total)
        invariant x > 1 ==> NoDivisorBelow(x, p) && (p == 2 || p % 2 == 1)
        decreases x, if p <= x + 2 then x + 2 - p else 0
      {
        ghost var last := p * p > x;
        if p * p > x {
          PastTheRoot(x, p);
          p := x;
        } else {
          AtLeastProduct(p, 2, p);
        }
        ghost var whole := x;
        while x % p == 0
          invariant 1 <= x <= whole && PrimeKeys(primes) && NoDivisorBelow(x, p) && Accounted(primes, x, e, total)
          invariant last ==> (x == p && x == whole) || x == 1
          decreases x
        {
          DivideStep(primes, p, x, e, total);
          primes := Bump(primes, p, e);
          x := x / p;
        }
        if x > 1 {
          NextTrial(x, p);
        }
        p := p + if p == 2 then 1 else 2;
      }
      OnePower(e);
      OneTimes(Worth(primes));
      RetainedWorth(primes);
      RetainedKeys(primes);
      primes := Retained(primes);
    }

    /** One side multiplied out, each prime cut to a limb: exactly, where every prime fits one. */
    method Side(positive: bool) returns (n: Natural)
      requires Valid()
      ensures fresh(n) && n.Valid()
      ensures LeaveLimbs(primes) && Value(n.limbs) == SideOf(Truncated(primes), positive)
      ensures (forall i :: 0 <= i < |primes| ==> primes[i].prime < LIMB) ==> Value(n.limbs) == SideOf(primes, positive)
    {
      n := new Natural.One();
      KeysLeaveLimbs(primes);
      ghost var cut := Truncated(primes);
      assert cut[0..] == cut;
      for k := 0 to |primes|
        invariant fresh(n) && n.Valid()
        invariant Value(n.limbs) * SideOf(cut[k..], positive) == SideOf(cut, positive)
      {
        assert cut[k..][1..] == cut[k + 1..];
        var p, e := primes[k].prime, primes[k].exponent;
        if (e > 0) == positive {
          ghost var start := Value(n.limbs);
          for t := 0 to Magnitude(e)
            invariant fresh(n) && n.Valid() && Value(n.limbs) == NPow(cut[k].prime, t) * start
          {
            OneMore(cut[k].prime, t, start);
            n.MulSmall(p % LIMB);
          }
          Regroup(NPow(cut[k].prime, Magnitude(e)), start, SideOf(cut[k + 1..], positive));
        }
      }
      assert cut[|primes|..] == [];
    }
  }

  lemma Regroup(power: nat, start: nat, rest: nat)
    ensures power * start * rest == start * (power * rest)
  {
    assert power * start * rest == start * power * rest;
  }

  lemma OneMore(p: Pos, t: nat, start: nat)
    ensures p * (NPow(p, t) * start) == NPow(p, t + 1) * start
  {
    assert p * (NPow(p, t) * start) == (p * NPow(p, t)) * start;
  }

  lemma {:induction false} OnePower(e: int)
    ensures RPow(1.0, e) == 1.0
    decreases if e < 0 then -e else e
  {
    if e > 0 { OnePower(e - 1); } else if e < 0 { OnePower(e + 1); }
  }

  /** Moving a factor from what is left of `x` into the ratio changes nothing. */
  lemma FactorMoves(w: Positive, p: Pos, y: Pos, x: Pos, e: int)
    requires x == p * y
    ensures Times(Times(w, RPow(AsReal(p), e)), RPow(AsReal(y), e)) == Times(w, RPow(AsReal(x), e))
  {
    RealProduct(p, y);
    RPowTimes(AsReal(p), AsReal(y), Times(AsReal(p), AsReal(y)), e);
    TimesAssociates(w, RPow(AsReal(p), e), RPow(AsReal(y), e));
  }

  // ----- the scale of a unit -----

  lemma QuotientPower(a: Positive, b: Positive, e: int)
    ensures RPow(Over(a, b), e) == Times(RPow(a, e), RPow(b, -e))
  {
    var q, x, y := RPow(Over(a, b), e), RPow(b, e), RPow(b, -e);
    OverTimes(a, b);
    TimesCommutes(b, Over(a, b));
    RPowTimes(Over(a, b), b, Times(Over(a, b), b), e);
    RPowAdds(b, e, -e);
    TimesAssociates(q, x, y);
    OneTimes(q);
  }

  lemma ScaleStep(w: Positive, tens: Positive, scale: Positive, n: Positive, d: Positive, more: Positive)
    requires Times(w, tens) == scale
    ensures Times(Times(Times(w, n), d), Times(tens, more)) == Times(scale, Times(Times(n, d), more))
  {
    TimesAssociates(w, n, d);
    var nd := Times(n, d);
    TimesAssociates(w, nd, Times(tens, more));
    TimesAssociates(nd, tens, more);
    TimesCommutes(nd, tens);
    TimesAssociates(tens, nd, more);
    TimesAssociates(w, tens, Times(nd, more));
  }

  /** The exact scale of a unit relative to its coherent base. */
  method ScaleOf(fs: seq<UnitFactor>) returns (r: Ratio)
    ensures fresh(r) && r.Valid() && Worth(r.primes) == UnitScale(fs)
  {
    r := new Ratio();
    var ten := 0;
    OneTimes(1.0);
    for i := 0 to |fs|
      invariant fresh(r) && r.Valid()
      invariant Times(Worth(r.primes), RPow(10.0, ten)) == UnitScale(fs[..i])
    {
      var f := fs[i];
      assert fs[..i + 1][..i] == fs[..i];
      var add := f.prefixPower * f.exponent;
      QuotientPower(AsReal(f.num), AsReal(f.den), f.exponent);
      RPowAdds(10.0, ten, add);
      ScaleStep(Worth(r.primes), RPow(10.0, ten), UnitScale(fs[..i]),
                RPow(AsReal(f.num), f.exponent), RPow(AsReal(f.den), -f.exponent), RPow(10.0, add));
      ten := ten + add;
      r.AddFactor(f.num, f.exponent);
      r.AddFactor(f.den, -f.exponent);
    }
    assert fs[..|fs|] == fs;
    r.AddFactor(10, ten);
  }
}
