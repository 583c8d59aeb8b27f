/** Natural numbers of any size on 32-bit limbs: exact multiplication, bits, and the rounding to a
    double's 53-bit mantissa. */
module Naturals {
  import opened Trees

  const LIMB: nat := 0x1_0000_0000

  function Pow2(n: nat): (p: nat)
    ensures p >= 1
  {
    if n == 0 then 1 else 2 * Pow2(n - 1)
  }

  lemma {:induction false} Pow2Adds(m: nat, n: nat)
    ensures Pow2(m + n) == Pow2(m) * Pow2(n)
  {
    if m > 0 { Pow2Adds(m - 1, n); }
  }

  lemma Pow2Of32()
    ensures Pow2(32) == LIMB && Pow2(8) == 256
  {
    assert Pow2(8) == 256;
    Pow2Adds(8, 8);
    Pow2Adds(16, 16);
  }

  lemma {:induction false} Pow2Monotone(m: nat, n: nat)
    requires m <= n
    ensures Pow2(m) <= Pow2(n)
  {
    if m < n { Pow2Monotone(m, n - 1); }
  }

  // ----- values of limbs -----

  /** The number little-endian limbs spell. */
  function Value(limbs: seq<nat>): nat
  {
    if limbs == [] then 0 else limbs[0] + LIMB * Value(limbs[1..])
  }

  ghost predicate Limbs(limbs: seq<nat>)
  {
    forall i :: 0 <= i < |limbs| ==> limbs[i] < LIMB
  }

  function LimbPow(n: nat): (p: nat)
    ensures p >= 1
  {
    if n == 0 then 1 else LIMB * LimbPow(n - 1)
  }

  lemma {:induction false} LimbPowIsPow2(n: nat)
    ensures LimbPow(n) == Pow2(32 * n)
  {
    if n > 0 {
      LimbPowIsPow2(n - 1);
      Pow2Of32();
      Pow2Adds(32, 32 * (n - 1));
    }
  }

  lemma {:induction false} ValueSnoc(limbs: seq<nat>, top: nat)
    ensures Value(limbs + [top]) == Value(limbs) + LimbPow(|limbs|) * top
  {
    if limbs == [] {
      assert Value([top]) == top + LIMB * Value([]) by { assert [top][1..] == []; }
    } else {
      ValueSnoc(limbs[1..], top);
      assert (limbs + [top])[1..] == limbs[1..] + [top];
      Distribute(LIMB, Value(limbs[1..]), LimbPow(|limbs| - 1), top);
    }
  }

  lemma Distribute(b: nat, v: nat, p: nat, t: nat)
    ensures b * (v + p * t) == b * v + b * p * t
  {
  }

  lemma {:induction false} ValueBelow(limbs: seq<nat>)
    requires Limbs(limbs)
    ensures Value(limbs) < LimbPow(|limbs|)
  {
    if limbs != [] {
      ValueBelow(limbs[1..]);
      assert LIMB * Value(limbs[1..]) + LIMB <= LIMB * LimbPow(|limbs| - 1);
    }
  }

  // ----- bits -----

  function BitLength(x: nat): nat
  {
    if x == 0 then 0 else 1 + BitLength(x / 2)
  }

  lemma {:induction false} BitLengthBounds(x: nat)
    requires x > 0
    ensures BitLength(x) > 0 && Pow2(BitLength(x) - 1) <= x < Pow2(BitLength(x))
  {
    if x > 1 { BitLengthBounds(x / 2); }
  }

  lemma BitLengthUnique(x: nat, n: nat)
    requires n > 0 && Pow2(n - 1) <= x < Pow2(n)
    ensures BitLength(x) == n
  {
    BitLengthBounds(x);
    var m := BitLength(x);
    if m < n { Pow2Monotone(m, n - 1); } else if m > n { Pow2Monotone(n, m - 1); }
  }

  /** Bit `i` of a number. */
  function BitOf(v: nat, i: nat): nat
  {
    v / Pow2(i) % 2
  }

  lemma DivFact(v: nat, d: nat)
    requires d > 0
    ensures v == d * (v / d) + v % d && v % d < d
  {
  }

  lemma DivUnique(v: nat, d: nat, q: nat, r: nat)
    requires d > 0 && v == d * q + r && r < d
    ensures v / d == q && v % d == r
  {
    DivFact(v, d);
    var k := v / d - q;
    assert d * k == d * (v / d) - d * q;
    assert k > 0 ==> d * k >= d;
    assert k < 0 ==> d * k + d <= 0;
  }

  lemma NestedParts(a: nat, b: nat, s: nat, t: nat, r: nat)
    requires r < a && t < b
    ensures a * (b * s + t) + r == (a * b) * s + (a * t + r) && a * t + r < a * b
  {
    assert a * (b * s + t) == a * (b * s) + a * t;
    assert a * (b * s) == (a * b) * s;
    assert a * (b - t - 1) >= 0;
  }

  lemma DivDiv(v: nat, a: nat, b: nat)
    requires a > 0 && b > 0
    ensures a * b > 0 && v / a / b == v / (a * b)
  {
    var q, r := v / a, v % a;
    var s, t := q / b, q % b;
    DivFact(v, a);
    DivFact(q, b);
    NestedParts(a, b, s, t, r);
    DivUnique(v, a * b, s, a * t + r);
  }

  lemma ShiftStep(v: nat, i: nat)
    ensures v / Pow2(i) == 2 * (v / Pow2(i + 1)) + BitOf(v, i)
  {
    DivDiv(v, Pow2(i), 2);
  }

  lemma SplitBit(v: nat, p: nat, q: nat, b: nat)
    requires p > 0 && v / p == 2 * q + b && b <= 1
    ensures v % (2 * p) == v % p + p * b
  {
    DivFact(v, p);
    var r := v % p;
    assert p * (2 * q + b) == (2 * p) * q + p * b;
    assert b == 0 || b == 1;
    DivUnique(v, 2 * p, q, r + p * b);
  }

  lemma RemainderStep(v: nat, i: nat)
    ensures v % Pow2(i + 1) == v % Pow2(i) + Pow2(i) * BitOf(v, i)
  {
    ShiftStep(v, i);
    SplitBit(v, Pow2(i), v / Pow2(i + 1), BitOf(v, i));
  }

  /** A limb's bit is the number's. */
  lemma {:induction false} LimbBit(limbs: seq<nat>, i: nat)
    requires Limbs(limbs)
    ensures BitOf(Value(limbs), i) == if i / 32 < |limbs| then BitOf(limbs[i / 32], i % 32) else 0
    decreases |limbs|
  {
    if limbs == [] {
      ZeroBits(i);
    } else if i < 32 {
      LowBit(limbs[0], Value(limbs[1..]), i);
    } else {
      LimbBit(limbs[1..], i - 32);
      HighBit(limbs[0], Value(limbs[1..]), i);
      assert (i - 32) / 32 == i / 32 - 1 && (i - 32) % 32 == i % 32;
    }
  }

  lemma ZeroBits(i: nat)
    ensures BitOf(0, i) == 0
  {
    DivUnique(0, Pow2(i), 0, 0);
  }

  lemma LowQuotient(low: nat, high: nat, p: nat, k: nat)
    requires p > 0
    ensures (low + p * (2 * k) * high) / p == low / p + 2 * (k * high)
  {
    DivFact(low, p);
    assert p * (2 * k) * high == p * (2 * (k * high));
    assert p * (low / p + 2 * (k * high)) == p * (low / p) + p * (2 * (k * high));
    DivUnique(low + p * (2 * k) * high, p, low / p + 2 * (k * high), low % p);
  }

  lemma LowBit(low: nat, high: nat, i: nat)
    requires low < LIMB && i < 32
    ensures BitOf(low + LIMB * high, i) == BitOf(low, i)
  {
    LimbSplits(i);
    LowBitAt(low, high, Pow2(i), Pow2(31 - i));
  }

  lemma LimbSplits(i: nat)
    requires i < 32
    ensures LIMB == Pow2(i) * (2 * Pow2(31 - i))
  {
    Pow2Of32();
    Pow2Adds(i, 32 - i);
  }

  lemma LowBitAt(low: nat, high: nat, p: nat, k: nat)
    requires p > 0 && LIMB == p * (2 * k)
    ensures (low + LIMB * high) / p % 2 == low / p % 2
  {
    LowQuotient(low, high, p, k);
    EvenPart(low / p, k * high);
  }

  lemma EvenPart(a: nat, b: nat)
    ensures (a + 2 * b) % 2 == a % 2
  {
  }

  lemma HighBit(low: nat, high: nat, i: nat)
    requires low < LIMB && i >= 32
    ensures BitOf(low + LIMB * high, i) == BitOf(high, i - 32)
  {
    Pow2Of32();
    Pow2Adds(32, i - 32);
    DivUnique(low + LIMB * high, LIMB, high, low);
    DivDiv(low + LIMB * high, LIMB, Pow2(i - 32));
  }

  // ----- rounding -----

  /** The 53 leading bits of a number, rounded to nearest with ties to even. */
  function Mantissa(v: nat): nat
    requires BitLength(v) > 53
  {
    var s := BitLength(v) - 53;
    RoundedQuotient(v, Pow2(s), Pow2(s - 1))
  }

  /** A quotient rounded to nearest, ties to even, against half the divisor. */
  function RoundedQuotient(v: nat, p: nat, half: nat): nat
    requires p > 0
  {
    var q, r := v / p, v % p;
    if r > half || (r == half && q % 2 == 1) then q + 1 else q
  }

  /** The value of the double nearest a natural number, none past the largest. */
  function ToDouble(v: nat): Option<nat>
  {
    if BitLength(v) <= 53 then Some(v)
    else
      var d := Mantissa(v) * Pow2(BitLength(v) - 53);
      if d >= Pow2(1024) then None else Some(d)
  }

  function Distance(a: int, b: int): nat
  {
    if a < b then b - a else a - b
  }

  lemma MultipleGap(a: int, b: int, p: nat)
    requires a > b
    ensures a * p - b * p >= p
  {
    assert (a - b - 1) * p >= 0;
  }

  lemma NearestQuotient(v: nat, p: nat, half: nat, k: int)
    requires p == 2 * half && half > 0
    ensures var m := RoundedQuotient(v, p, half);
      Distance(v, m * p) <= Distance(v, k * p) && (k != m && Distance(v, m * p) == Distance(v, k * p) ==> m % 2 == 0)
  {
    DivFact(v, p);
    NearestMultiple(v, p, half, v / p, v % p, RoundedQuotient(v, p, half), k);
  }

  lemma NearestMultiple(v: nat, p: nat, half: nat, q: nat, r: nat, m: nat, k: int)
    requires p == 2 * half && half > 0 && v == q * p + r && r < p
    requires m == if r > half || (r == half && q % 2 == 1) then q + 1 else q
    ensures Distance(v, m * p) <= Distance(v, k * p)
    ensures k != m && Distance(v, m * p) == Distance(v, k * p) ==> m % 2 == 0
  {
    assert (q + 1) * p == q * p + p;
    if k > q + 1 { MultipleGap(k, q + 1, p); }
    if k < q { MultipleGap(q, k, p); }
  }

  /** The mantissa is the nearest of every integer multiple of its last place, and the even one of two
      as near (section 4.3.1 of IEEE 754-2019). */
  lemma MantissaIsNearest(v: nat, k: int)
    requires BitLength(v) > 53
    ensures var p := Pow2(BitLength(v) - 53);
      Distance(v, Mantissa(v) * p) <= Distance(v, k * p)
      && (k != Mantissa(v) && Distance(v, Mantissa(v) * p) == Distance(v, k * p) ==> Mantissa(v) % 2 == 0)
  {
    NearestQuotient(v, Pow2(BitLength(v) - 53), Pow2(BitLength(v) - 54), k);
  }

  lemma QuotientBounds(v: nat, p: nat, low: nat, high: nat)
    requires p > 0 && low * p <= v < high * p
    ensures low <= v / p < high
  {
    DivFact(v, p);
    var q := v / p;
    assert q >= high ==> (q - high) * p >= 0;
    assert q < low ==> (low - q - 1) * p >= 0;
  }

  /** And it has 53 bits, or is the next power of two. */
  lemma MantissaWidth(v: nat)
    requires BitLength(v) > 53
    ensures Pow2(52) <= Mantissa(v) <= Pow2(53)
  {
    BitLengthBounds(v);
    WidthBounds(v, 52, BitLength(v) - 53);
  }

  lemma WidthBounds(v: nat, w: nat, s: nat)
    requires s > 0 && Pow2(w + s) <= v < Pow2(w + 1 + s)
    ensures Pow2(w) <= RoundedQuotient(v, Pow2(s), Pow2(s - 1)) <= Pow2(w + 1)
  {
    Pow2Adds(w, s);
    Pow2Adds(w + 1, s);
    QuotientBounds(v, Pow2(s), Pow2(w), Pow2(w + 1));
  }
}
