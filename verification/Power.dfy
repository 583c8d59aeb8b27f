/** Binary exponentiation: the pinned product tree over any multiplication, and its checked form over
    32-bit integers. */
module Power {
  import opened Trees

  // ----- the product tree -----

  /** What the loop holds at the end, from an accumulator that is empty until the first set bit. */
  function Tree<F>(mul: (F, F) -> F, acc: Option<F>, b: F, k: nat): F
    requires k > 0
    decreases k
  {
    var acc' := if k % 2 == 1 then Some(if acc.Some? then mul(acc.value, b) else b) else acc;
    if k / 2 == 0 then acc'.value else Tree(mul, acc', mul(b, b), k / 2)
  }

  method PowGo<F>(mul: (F, F) -> F, b0: F, k0: nat) returns (r: F)
    requires k0 > 0
    ensures r == Tree(mul, None, b0, k0)
  {
    var b, k, acc: Option<F> := b0, k0, None;
    while true
      invariant k > 0
      invariant Tree(mul, acc, b, k) == Tree(mul, None, b0, k0)
      decreases k
    {
      if k % 2 == 1 {
        acc := Some(if acc.Some? then mul(acc.value, b) else b);
      }
      if k / 2 == 0 {
        return acc.value;
      }
      b, k := mul(b, b), k / 2;
    }
  }

  /** The plain power: `k` factors of `b`, grouped to the left. */
  function Pow<F>(mul: (F, F) -> F, b: F, k: nat): F
    requires k > 0
  {
    if k == 1 then b else mul(Pow(mul, b, k - 1), b)
  }

  ghost predicate Associative<F(!new)>(mul: (F, F) -> F)
  {
    forall x, y, z {:trigger mul(mul(x, y), z)} :: mul(mul(x, y), z) == mul(x, mul(y, z))
  }

  lemma {:induction false} PowAdds<F(!new)>(mul: (F, F) -> F, b: F, m: nat, n: nat)
    requires Associative(mul) && m > 0 && n > 0
    ensures mul(Pow(mul, b, m), Pow(mul, b, n)) == Pow(mul, b, m + n)
    decreases n
  {
    if n > 1 {
      PowAdds(mul, b, m, n - 1);
      assert mul(mul(Pow(mul, b, m), Pow(mul, b, n - 1)), b) == mul(Pow(mul, b, m), mul(Pow(mul, b, n - 1), b));
    }
  }

  lemma {:induction false} PowOfSquare<F(!new)>(mul: (F, F) -> F, b: F, n: nat)
    requires Associative(mul) && n > 0
    ensures Pow(mul, mul(b, b), n) == Pow(mul, b, 2 * n)
  {
    assert Pow(mul, b, 2) == mul(Pow(mul, b, 1), b);
    if n > 1 {
      PowOfSquare(mul, b, n - 1);
      PowAdds(mul, b, 2 * n - 2, 2);
    }
  }

  /** An accumulator in front of a value: absent, the value itself. */
  function Onto<F>(mul: (F, F) -> F, acc: Option<F>, v: F): F
  {
    if acc.Some? then mul(acc.value, v) else v
  }

  lemma TakesBit<F(!new)>(mul: (F, F) -> F, acc: Option<F>, b: F, j: nat)
    requires Associative(mul) && j > 0
    ensures mul(Onto(mul, acc, b), Pow(mul, b, j)) == Onto(mul, acc, Pow(mul, b, j + 1))
  {
    PowAdds(mul, b, 1, j);
    assert Pow(mul, b, 1) == b;
  }

  lemma TreeStep<F>(mul: (F, F) -> F, acc: Option<F>, b: F, k: nat)
    requires k > 1
    ensures Tree(mul, acc, b, k) == Tree(mul, if k % 2 == 1 then Some(Onto(mul, acc, b)) else acc, mul(b, b), k / 2)
  {
  }

  lemma {:induction false} TreeExtends<F(!new)>(mul: (F, F) -> F, acc: Option<F>, b: F, k: nat)
    requires Associative(mul) && k > 0
    ensures Tree(mul, acc, b, k) == Onto(mul, acc, Pow(mul, b, k))
    decreases k
  {
    if k > 1 {
      var j := k / 2;
      TreeStep(mul, acc, b, k);
      PowOfSquare(mul, b, j);
      if k % 2 == 1 {
        assert k == 2 * j + 1;
        TreeExtends(mul, Some(Onto(mul, acc, b)), mul(b, b), j);
        TakesBit(mul, acc, b, 2 * j);
      } else {
        assert k == 2 * j;
        TreeExtends(mul, acc, mul(b, b), j);
      }
    }
  }

  /** Over every associative multiplication the product tree is the power. */
  lemma TreeIsPower<F(!new)>(mul: (F, F) -> F, b: F, k: nat)
    requires Associative(mul) && k > 0
    ensures Tree(mul, None, b, k) == Pow(mul, b, k)
  {
    TreeExtends(mul, None, b, k);
  }

  // ----- 32-bit integers -----

  const INT32_MIN: int := -0x8000_0000
  const INT32_MAX: int := 0x7fff_ffff
  const INT64_MAX: int := 0x7fff_ffff_ffff_ffff

  predicate InBand(v: int) { INT32_MIN <= v <= INT32_MAX }

  function IntPow(x: int, n: nat): int
  {
    if n == 0 then 1 else x * IntPow(x, n - 1)
  }

  lemma {:induction false} IntPowAdds(x: int, m: nat, n: nat)
    ensures IntPow(x, m + n) == IntPow(x, m) * IntPow(x, n)
  {
    if m > 0 { IntPowAdds(x, m - 1, n); }
  }

  lemma {:induction false} IntPowOfSquare(x: int, n: nat)
    ensures IntPow(x * x, n) == IntPow(x, 2 * n)
  {
    if n > 0 {
      IntPowOfSquare(x, n - 1);
      assert IntPow(x, 2 * n) == x * (x * IntPow(x, 2 * n - 2));
    }
  }

  /** Powers of a positive number never fall below one, nor, past exponent zero, below it. */
  lemma {:induction false} IntPowGrows(x: int, n: nat)
    requires x >= 1
    ensures IntPow(x, n) >= 1 && (n > 0 ==> IntPow(x, n) >= x)
  {
    if n > 0 {
      IntPowGrows(x, n - 1);
      assert x * (IntPow(x, n - 1) - 1) >= 0;
    }
  }

  /** A product with a factor outside the band and the other at least one is outside the band too. */
  lemma OutsideStays(a: int, m: int)
    requires !InBand(a) && m >= 1
    ensures !InBand(a * m)
  {
    if a > 0 { assert a * (m - 1) >= 0; } else { assert a * (m - 1) <= 0; }
  }

  /** No square lies between the band's two edges in magnitude. */
  lemma SquareGap(b: int)
    ensures b * b <= 46340 * 46340 || b * b >= 46341 * 46341
  {
    var p := if b < 0 then -b else b;
    assert b * b == p * p;
    if p <= 46340 { ProductBound(p, p, 46340); } else { ProductBound(46341, 46341, p); }
  }

  lemma AtLeast(a: int, m: nat)
    requires a >= 1
    ensures a * m >= m
  {
    assert (a - 1) * m >= 0;
  }

  lemma Outgrows(square: int, acc: int, m: int)
    requires square > 0x8000_0000 && acc != 0 && m >= square
    ensures !InBand(acc * m)
  {
    if acc > 0 {
      AtLeast(acc, m);
    } else {
      AtLeast(-acc, m);
      assert (-acc) * m == -(acc * m);
    }
  }

  /** So an oversized square stays oversized under a factor of either sign. */
  lemma OversizedSquare(b: int, acc: int, m: int)
    requires !InBand(b * b) && acc != 0 && m >= b * b
    ensures !InBand(acc * m)
  {
    SquareGap(b);
    var square := b * b;
    Outgrows(square, acc, m);
  }

  lemma ProductBound(a: nat, b: nat, h: nat)
    requires a <= h && b <= h
    ensures 0 <= a * b <= h * h
  {
    assert (h - a) * b >= 0 && h * (h - b) >= 0;
  }

  lemma BandProduct(a: int, b: int)
    requires InBand(a) && InBand(b)
    ensures -INT64_MAX <= a * b <= INT64_MAX
  {
    var p, q := if a < 0 then -a else a, if b < 0 then -b else b;
    ProductBound(p, q, 0x8000_0000);
    assert a * b == p * q || a * b == -(p * q);
  }

  lemma OddStep(b: int, k: nat)
    requires k % 2 == 1
    ensures IntPow(b, k) == b * IntPow(b * b, k / 2)
  {
    IntPowOfSquare(b, k / 2);
  }

  lemma EvenStep(b: int, k: nat)
    requires k % 2 == 0
    ensures IntPow(b, k) == IntPow(b * b, k / 2)
  {
    IntPowOfSquare(b, k / 2);
  }

  lemma NonZeroSquare(b: int)
    requires b != 0
    ensures b * b >= 1
  {
  }

  lemma TakenBit(held: int, b: int, k: nat, total: int)
    requires k % 2 == 1 && held * IntPow(b, k) == total
    ensures (held * b) * IntPow(b * b, k / 2) == total
  {
    OddStep(b, k);
    assert held * (b * IntPow(b * b, k / 2)) == (held * b) * IntPow(b * b, k / 2);
  }

  lemma RefusedBit(a: int, b: int, j: nat)
    requires !InBand(a) && b != 0
    ensures !InBand(a * IntPow(b * b, j))
  {
    NonZeroSquare(b);
    IntPowGrows(b * b, j);
    OutsideStays(a, IntPow(b * b, j));
  }

  // ----- 64-bit words -----

  const WORD: int := 0x1_0000_0000_0000_0000

  predicate InWord(v: int) { -INT64_MAX - 1 <= v <= INT64_MAX }

  /** A product as 64-bit arithmetic leaves it. */
  function Wrap(v: int): (w: int)
    ensures InWord(w) && (w - v) % WORD == 0 && (InWord(v) ==> w == v)
  {
    (v + INT64_MAX + 1) % WORD - INT64_MAX - 1
  }

  /** The power the loop is left to take: under an even exponent the base is squared first, in 64 bits. */
  function LeftToTake(b: int, k: nat): int
  {
    if k > 0 && k % 2 == 0 then IntPow(Wrap(b * b), k / 2) else IntPow(b, k)
  }

  function Banded(v: int): Option<int>
  {
    if InBand(v) then Some(v) else None
  }

  lemma LeftInBand(b: int, k: nat)
    requires -INT64_MAX <= b * b <= INT64_MAX
    ensures LeftToTake(b, k) == IntPow(b, k)
  {
    if k % 2 == 0 { EvenStep(b, k); }
  }

  lemma WideSquare(v: int)
    requires !InBand(v)
    ensures v * v > INT32_MAX
  {
    var p := if v < 0 then -v else v;
    assert v * v == p * p;
    AtLeast(p, p);
  }

  /** A power of a number outside the band is outside it. */
  lemma PowerOutside(v: int, k: nat)
    requires !InBand(v) && k > 0
    ensures !InBand(IntPow(v, k))
  {
    WideSquare(v);
    IntPowGrows(v * v, k / 2);
    if k % 2 == 1 {
      OddStep(v, k);
      OutsideStays(v, IntPow(v * v, k / 2));
    } else {
      EvenStep(v, k);
    }
  }

  lemma RefusedSquare(held: int, b: int, k: nat)
    requires k > 0 && held != 0 && !InBand(Wrap(b * b)) && (InBand(b) || held == 1)
    ensures !InBand(held * IntPow(Wrap(b * b), k))
  {
    if InBand(b) {
      BandProduct(b, b);
      IntPowGrows(b * b, k);
      OversizedSquare(b, held, IntPow(b * b, k));
    } else {
      PowerOutside(Wrap(b * b), k);
    }
  }

  /** What the loop is left with, if it lies in the 32-bit band, and a refusal if it does not: an oversized
      square met on the way never refuses a power that fits. */
  method PowIntExact(x: int, n: nat) returns (r: Option<int>)
    requires InWord(x)
    ensures r == Banded(LeftToTake(x, n))
  {
    if n == 0 {
      return Some(1);
    }
    var acc: Option<int>, b, k := None, x, n;
    while true
      invariant k > 0 && (InBand(b) || acc.None?) && (acc.Some? ==> InBand(acc.value))
      invariant (if acc.Some? then acc.value else 1) * LeftToTake(b, k) == LeftToTake(x, n)
      invariant b == 0 || acc != Some(0)
      decreases k
    {
      ghost var held := if acc.Some? then acc.value else 1;
      if k % 2 == 1 {
        if acc.Some? { BandProduct(acc.value, b); }
        var a := if acc.Some? then acc.value * b else b;
        TakenBit(held, b, k, LeftToTake(x, n));
        if !InBand(a) {
          RefusedBit(a, b, k / 2);
          return None;
        }
        BandProduct(b, b);
        acc := Some(a);
      }
      k := k / 2;
      if k == 0 {
        return Some(if acc.Some? then acc.value else 1);
      }
      var b2 := Wrap(b * b);
      if !InBand(b2) {
        RefusedSquare(if acc.Some? then acc.value else 1, b, k);
        return None;
      }
      BandProduct(b2, b2);
      LeftInBand(b2, k);
      b := b2;
    }
  }

  /** The answer is the exact power, refused when outside the band, if and only if the first square fits
      64 bits, or is not taken first, or leaves a wrapped value whose power is outside the band too. */
  lemma PowExactIff(x: int, n: nat)
    requires InWord(x)
    ensures Banded(LeftToTake(x, n)) == Banded(IntPow(x, n)) <==>
      (x * x <= INT64_MAX || n % 2 == 1 || n == 0 || !InBand(IntPow(Wrap(x * x), n / 2)))
  {
    if n > 0 && n % 2 == 0 {
      if x * x <= INT64_MAX {
        LeftInBand(x, n);
      } else {
        EvenStep(x, n);
        PowerOutside(x * x, n / 2);
      }
    }
  }

  /** Two to the thirty-second, squared: the product wraps to zero, which lies in the band. */
  lemma PowSquareWraps()
    ensures LeftToTake(0x1_0000_0000, 2) == 0
    ensures Banded(LeftToTake(0x1_0000_0000, 2)) == Some(0) && Banded(IntPow(0x1_0000_0000, 2)) == None
  {
    EvenStep(0x1_0000_0000, 2);
    assert IntPow(0, 1) == 0 && Wrap(0x1_0000_0000 * 0x1_0000_0000) == 0;
    PowerOutside(0x1_0000_0000, 2);
  }
}
