/** The limb arithmetic in place, and the ratio held by its prime factorisation. */
module Ratios {
  import opened Trees
  import opened Naturals

  // ----- multiplication in place -----

  lemma DigitStep(base: nat, limb: nat, m: nat, carry: nat)
    requires limb < base && m < base && carry < base
    ensures limb * m + carry < base * base && (limb * m + carry) / base < base
  {
    var top := base - 1;
    assert limb * (top - m) >= 0 && (top - limb) * top >= 0;
    assert base * base == top * top + top + top + 1;
    QuotientBounds(limb * m + carry, base, 0, base);
  }

  lemma CarryStep(done: nat, p: nat, carry: nat, limb: nat, m: nat, before: nat)
    requires done + p * carry == m * before
    ensures var v := limb * m + carry;
      done + p * (v % LIMB) + LIMB * p * (v / LIMB) == m * (before + p * limb)
  {
    var v := limb * m + carry;
    DivFact(v, LIMB);
    assert p * v == p * (v % LIMB) + p * (LIMB * (v / LIMB));
    assert p * (LIMB * (v / LIMB)) == LIMB * p * (v / LIMB);
    assert p * v == p * (limb * m) + p * carry;
    assert m * (before + p * limb) == m * before + p * (limb * m);
  }

  lemma AtLeastOnce(p: nat, top: nat)
    ensures top > 0 ==> p * top >= p
    ensures top == 0 ==> p * top == 0
  {
    if top > 0 { assert p * (top - 1) >= 0; }
  }

  /** A nonzero number needs its top limb. */
  lemma TopLimb(limbs: seq<nat>)
    requires Limbs(limbs) && limbs != []
    ensures limbs[|limbs| - 1] > 0 <==> Value(limbs) >= LimbPow(|limbs| - 1)
  {
    var n := |limbs| - 1;
    assert limbs == limbs[..n] + [limbs[n]];
    ValueSnoc(limbs[..n], limbs[n]);
    ValueBelow(limbs[..n]);
    AtLeastOnce(LimbPow(n), limbs[n]);
  }

  lemma BetweenMultiples(p: nat, low: nat, top: nat, a: nat, b: nat)
    requires low < p && a <= top < b
    ensures p * a <= low + p * top < p * b
  {
    AtLeastProduct(top, a, p);
    AtLeastProduct(b, top + 1, p);
    assert (top + 1) * p == p * top + p;
  }

  lemma ShiftedBits(k: nat, low: nat, top: nat)
    requires low < Pow2(k) && top > 0
    ensures BitLength(low + Pow2(k) * top) == k + BitLength(top)
  {
    BitLengthBounds(top);
    var b := BitLength(top);
    Pow2Adds(k, b - 1);
    Pow2Adds(k, b);
    BetweenMultiples(Pow2(k), low, top, Pow2(b - 1), Pow2(b));
    BitLengthUnique(low + Pow2(k) * top, k + b);
  }

  lemma BitsOfLimbs(limbs: seq<nat>)
    requires Limbs(limbs) && limbs != [] && limbs[|limbs| - 1] > 0
    ensures BitLength(Value(limbs)) == 32 * (|limbs| - 1) + BitLength(limbs[|limbs| - 1])
  {
    var n := |limbs| - 1;
    var top := limbs[n];
    assert limbs == limbs[..n] + [top];
    ValueSnoc(limbs[..n], top);
    ValueBelow(limbs[..n]);
    LimbPowIsPow2(n);
    ShiftedBits(32 * n, Value(limbs[..n]), top);
  }

  lemma AtLeastProduct(m: nat, low: nat, p: nat)
    requires m >= low
    ensures m * p >= low * p
  {
    assert (m - low) * p >= 0;
  }

  /** Past the largest double there is only infinity. */
  lemma TooLarge(v: nat)
    requires BitLength(v) > 1024
    ensures ToDouble(v) == None
  {
    var n := BitLength(v);
    MantissaWidth(v);
    Pow2Adds(52, n - 53);
    AtLeastProduct(Mantissa(v), Pow2(52), Pow2(n - 53));
    Pow2Monotone(1024, n - 1);
  }

  lemma TopBits(v: nat, n: nat)
    requires v < Pow2(n)
    ensures v / Pow2(n) == 0
  {
    DivUnique(v, Pow2(n), 0, v);
  }

  lemma RoundAndSticky(v: nat, s: nat)
    requires s > 0
    ensures v % Pow2(s) == v % Pow2(s - 1) + Pow2(s - 1) * BitOf(v, s - 1)
    ensures v % Pow2(s) > Pow2(s - 1) <==> BitOf(v, s - 1) == 1 && v % Pow2(s - 1) != 0
    ensures v % Pow2(s) == Pow2(s - 1) <==> BitOf(v, s - 1) == 1 && v % Pow2(s - 1) == 0
  {
    RemainderStep(v, s - 1);
    DivFact(v, Pow2(s - 1));
    var p, b := Pow2(s - 1), BitOf(v, s - 1);
    assert b == 0 || b == 1;
    assert p * b == if b == 1 then p else 0;
  }

  /** The doubling of a double that holds an integer: exact until it overflows. */
  function Doubled(d: Option<nat>): Option<nat>
  {
    if d.None? || 2 * d.value >= Pow2(1024) then None else Some(2 * d.value)
  }

  function Scaled(m: nat, i: nat): Option<nat>
  {
    if m * Pow2(i) >= Pow2(1024) then None else Some(m * Pow2(i))
  }

  lemma DoublesScale(m: nat, i: nat)
    ensures Doubled(Scaled(m, i)) == Scaled(m, i + 1)
  {
    assert m * (2 * Pow2(i)) == 2 * (m * Pow2(i));
  }

  /** The loop's state: the first `i` limbs and the carry hold their product. */
  ghost predicate Multiplied(limbs: seq<nat>, before: seq<nat>, i: nat, carry: nat, m: nat)
    requires i <= |limbs| == |before|
  {
    Limbs(limbs) && carry < LIMB && limbs[i..] == before[i..]
    && Value(limbs[..i]) + LimbPow(i) * carry == m * Value(before[..i])
  }

  lemma MulStep(limbs: seq<nat>, before: seq<nat>, i: nat, carry: nat, m: nat, v: nat)
    requires i < |limbs| == |before| && m < LIMB && Multiplied(limbs, before, i, carry, m)
    requires v == limbs[i] * m + carry
    ensures v < LIMB * LIMB && Multiplied(limbs[i := v % LIMB], before, i + 1, v / LIMB, m)
  {
    assert limbs[i] == limbs[i..][0] == before[i..][0] == before[i];
    DigitStep(LIMB, limbs[i], m, carry);
    var after := limbs[i := v % LIMB];
    assert before[..i + 1] == before[..i] + [before[i]];
    assert after[..i + 1] == limbs[..i] + [v % LIMB];
    ValueSnoc(before[..i], before[i]);
    ValueSnoc(limbs[..i], v % LIMB);
    CarryStep(Value(limbs[..i]), LimbPow(i), carry, limbs[i], m, Value(before[..i]));
    assert after[i + 1..] == limbs[i..][1..];
    assert before[i + 1..] == before[i..][1..];
  }

  lemma MulEnd(limbs: seq<nat>, before: seq<nat>, carry: nat, m: nat)
    requires |limbs| == |before| && Multiplied(limbs, before, |limbs|, carry, m)
    ensures Value(if carry > 0 then limbs + [carry] else limbs) == m * Value(before)
  {
    assert limbs[..|limbs|] == limbs && before[..|before|] == before;
    if carry > 0 { ValueSnoc(limbs, carry); } else { AtLeastOnce(LimbPow(|limbs|), 0); }
  }

  lemma MulKeepsTop(limbs: seq<nat>, before: seq<nat>, m: nat)
    requires |limbs| == |before| > 0 && Limbs(limbs) && Limbs(before) && before[|before| - 1] > 0 && m > 0
    requires Value(limbs) == m * Value(before)
    ensures limbs[|limbs| - 1] > 0
  {
    TopLimb(before);
    TopLimb(limbs);
    AtLeastProduct(m, 1, Value(before));
  }

  class Natural {
    var limbs: seq<nat>

    /** Little-endian 32-bit limbs with no trailing zero. */
    ghost predicate Valid()
      reads this
    {
      Limbs(limbs) && limbs != [] && limbs[|limbs| - 1] > 0
    }

    constructor One()
      ensures Valid() && Value(limbs) == 1
    {
      limbs := [1];
      assert [1][1..] == [];
    }

    /** Multiplies exactly, in place, and leaves no trailing zero limb unless multiplied by zero. */
    method MulSmall(m: nat)
      requires Valid() && m < LIMB
      modifies this
      ensures Limbs(limbs) && (m > 0 ==> Valid())
      ensures Value(limbs) == m * old(Value(limbs))
    {
      ghost var before := limbs;
      var carry: nat := 0;
      for i := 0 to |limbs|
        invariant |limbs| == |before| && i <= |before|
        invariant Multiplied(limbs, before, i, carry, m)
      {
        var v: nat := limbs[i] * m + carry;
        MulStep(limbs, before, i, carry, m, v);
        limbs := limbs[i := v % LIMB];
        carry := v / LIMB;
      }
      MulEnd(limbs, before, carry, m);
      if carry > 0 {
        limbs := limbs + [carry];
      } else if m > 0 {
        MulKeepsTop(limbs, before, m);
      }
    }

    method Bits() returns (n: nat)
      requires Valid()
      ensures n == BitLength(Value(limbs))
    {
      BitsOfLimbs(limbs);
      n := (|limbs| - 1) * 32 + BitLength(limbs[|limbs| - 1]);
    }

    method Bit(i: nat) returns (b: bool)
      requires Valid()
      ensures b <==> BitOf(Value(limbs), i) == 1
    {
      LimbBit(limbs, i);
      var limb := i / 32;
      b := limb < |limbs| && BitOf(limbs[limb], i % 32) == 1;
    }

    /** The value where it fits 128 bits. */
    method ToU128() returns (r: Option<nat>)
      requires Valid()
      ensures r == if |limbs| > 4 then None else Some(Value(limbs))
    {
      if |limbs| > 4 {
        return None;
      }
      var acc, i: nat := 0, |limbs|;
      while i > 0
        invariant i <= |limbs| && acc == Value(limbs[i..])
      {
        i := i - 1;
        assert limbs[i..][1..] == limbs[i + 1..];
        acc := acc * LIMB + limbs[i];
      }
      r := Some(acc);
    }

    /** The nearest double, ties to even. */
    /** Whether any bit below a position is set. */
    method AnyBitBelow(n: nat) returns (sticky: bool)
      requires Valid()
      ensures sticky <==> Value(limbs) % Pow2(n) != 0
    {
      ghost var v := Value(limbs);
      sticky := false;
      assert v % Pow2(0) == 0;
      for j := 0 to n
        invariant sticky <==> v % Pow2(j) != 0
      {
        RemainderStep(v, j);
        var b := Bit(j);
        assert Pow2(j) * BitOf(v, j) > 0 <==> BitOf(v, j) == 1;
        sticky := sticky || b;
      }
    }

    method ToF64() returns (r: Option<nat>)
      requires Valid()
      ensures r == ToDouble(Value(limbs))
    {
      var n := Bits();
      ghost var v := Value(limbs);
      if n <= 64 {
        var u := ToU128();
        BitsOfLimbs(limbs);
        BitLengthBounds(limbs[|limbs| - 1]);
        return ToDouble(if u.Some? then u.value else 0);
      }
      if n > 1024 {
        TooLarge(v);
        return None;
      }
      BitLengthBounds(v);
      var shift := n - 53;
      var mantissa, i := 0, n;
      TopBits(v, n);
      while i > shift
        invariant shift <= i <= n && mantissa == v / Pow2(i)
      {
        i := i - 1;
        ShiftStep(v, i);
        var b := Bit(i);
        mantissa := 2 * mantissa + if b then 1 else 0;
      }
      var round := Bit(shift - 1);
      var sticky := AnyBitBelow(shift - 1);
      RoundAndSticky(v, shift);
      if round && (sticky || mantissa % 2 == 1) {
        mantissa := mantissa + 1;
      }
      assert mantissa == Mantissa(v);
      var d := Some(mantissa);
      MantissaSmall(v);
      for j := 0 to shift
        invariant d == Scaled(mantissa, j)
      {
        DoublesScale(mantissa, j);
        d := Doubled(d);
      }
      r := d;
    }
  }

  lemma MantissaSmall(v: nat)
    requires BitLength(v) > 53
    ensures Scaled(Mantissa(v), 0) == Some(Mantissa(v))
  {
    MantissaWidth(v);
    BelowPower(Mantissa(v), 1024);
  }

  lemma BelowPower(m: nat, e: nat)
    requires m <= Pow2(53) && e >= 54
    ensures m * Pow2(0) == m < Pow2(e)
  {
    Pow2Monotone(54, e);
  }
}
