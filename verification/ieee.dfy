/** Binary floating point as ffc.h packs it, and rounding to nearest with ties to even (section 4.3.1 of IEEE 754-2019). */
module Ieee {
  import opened Powers

  /** The constants ffc.h keeps per value kind. A significand m with biased exponent e stands for m * 2^(e - Bias()). */
  datatype Format = Format(mantissaBits: nat, minimumExponent: int, infinitePower: nat, signIndex: nat, smallestPower: int, largestPower: nat)
  {
    predicate Valid()
    {
      && 1 <= mantissaBits <= 60 && 64 <= mantissaBits - minimumExponent && 2 <= infinitePower
      && mantissaBits < signIndex && infinitePower < Scale(1, Two, signIndex - mantissaBits)
    }

    function Bias(): nat
      requires Valid()
    {
      mantissaBits - minimumExponent
    }

    /** The hidden bit of a normal number. */
    function Hidden(): (h: nat)
      ensures 0 < h
    {
      ScalePositive(1, Two, mantissaBits);
      Scale(1, Two, mantissaBits)
    }
  }

  const DOUBLE := Format(52, -1023, 0x7FF, 63, -342, 308)
  const FLOAT := Format(23, -127, 0xFF, 31, -64, 38)

  /** A non-negative number or infinity: biased exponent and fraction, as in the packed word. */
  datatype Num = Num(e: nat, f: nat)
  {
    predicate Even() { f % 2 == 0 }
  }

  predicate IsNum(fmt: Format, n: Num)
  {
    n.f < fmt.Hidden() && n.e <= fmt.infinitePower && (n.e == fmt.infinitePower ==> n.f == 0)
  }

  function Infinity(fmt: Format): Num { Num(fmt.infinitePower, 0) }

  const ZERO := Num(0, 0)

  /** The order of numbers is the order of their words. */
  predicate Less(m: Num, n: Num) { m.e < n.e || (m.e == n.e && m.f < n.f) }

  function Next(fmt: Format, n: Num): Num
  {
    if n.f + 1 < fmt.Hidden() then Num(n.e, n.f + 1) else Num(n.e + 1, 0)
  }

  function Prev(fmt: Format, n: Num): Num
    requires n != ZERO
  {
    if n.f > 0 then Num(n.e, n.f - 1) else Num(n.e - 1, fmt.Hidden() - 1)
  }

  /**
   * The number in units of the smallest subnormal, 2^(1 - Bias()).
   * At infinity it is where the next binade would start, which is what the overflow rule rounds against.
   */
  function Magnitude(fmt: Format, n: Num): nat
  {
    if n.e == 0 then n.f else Scale(n.f + fmt.Hidden(), Two, n.e - 1)
  }

  /** One unit in the last place separates a number from the next one. */
  lemma MagnitudeStep(fmt: Format, n: Num)
    requires n.f < fmt.Hidden()
    ensures Magnitude(fmt, Next(fmt, n)) == Magnitude(fmt, n) + Scale(1, Two, if n.e == 0 then 0 else n.e - 1)
  {
    var h := fmt.Hidden();
    if n.e > 0 {
      ScaleSum(n.f + h, 1, Two, n.e - 1);
      if n.f + 1 == h {
        BinadeStart(h, n.e);
      }
    }
  }

  lemma BinadeStart(h: nat, e: nat)
    requires 0 < e
    ensures Scale(h, Two, e) == Scale(h + h, Two, e - 1)
  {
    ScaleSum(h, h, Two, e - 1);
  }

  lemma MagnitudeIncreasing(fmt: Format, m: Num, n: Num)
    requires m.f < fmt.Hidden() && Less(m, n)
    ensures Magnitude(fmt, m) < Magnitude(fmt, n)
  {
    var h := fmt.Hidden();
    if m.e == n.e {
      if m.e > 0 {
        ScaleStrict(m.f + h, n.f + h, Two, m.e - 1);
      }
    } else {
      ScaleMonotone(h, n.f + h, Two, n.e - 1);
      ScaleGrows(h, Two, m.e, n.e - 1);
      if m.e > 0 {
        ScaleStrict(m.f + h, h + h, Two, m.e - 1);
        BinadeStart(h, m.e);
      }
    }
  }

  // ---- rounding ----

  /** A number times 10^k, to compare with a decimal that has k fraction digits. */
  function Scaled(fmt: Format, n: Num, k: nat): nat
  {
    Scale(Magnitude(fmt, n), Ten, k)
  }

  lemma ScaledIncreasing(fmt: Format, m: Num, n: Num, k: nat)
    requires m.f < fmt.Hidden() && Less(m, n)
    ensures Scaled(fmt, m, k) < Scaled(fmt, n, k)
  {
    MagnitudeIncreasing(fmt, m, n);
    ScaleStrict(Magnitude(fmt, m), Magnitude(fmt, n), Ten, k);
  }

  function Distance(x: nat, y: nat): nat { if x <= y then y - x else x - y }

  /** a is as near to x as b is; when it is no nearer, `even` must hold. */
  predicate Beats(x: nat, a: nat, b: nat, even: bool)
  {
    Distance(x, a) <= Distance(x, b) && (Distance(x, a) == Distance(x, b) ==> even)
  }

  /**
   * n is what x / 10^k smallest subnormals round to: no other number is nearer,
   * and if one is as near then n has an even last bit. Infinity competes as the start of the next binade.
   */
  ghost predicate Nearest(fmt: Format, n: Num, x: nat, k: nat)
  {
    && IsNum(fmt, n)
    && forall c: Num | IsNum(fmt, c) && c != n :: Beats(x, Scaled(fmt, n, k), Scaled(fmt, c, k), n.Even())
  }

  /** At or above the midpoint below n, and exactly at it only if n is even. */
  ghost predicate AboveLowerMid(fmt: Format, n: Num, x: nat, k: nat)
  {
    n != ZERO ==>
      var mid := Scaled(fmt, Prev(fmt, n), k) + Scaled(fmt, n, k);
      mid <= 2 * x && (mid == 2 * x ==> n.Even())
  }

  ghost predicate BelowUpperMid(fmt: Format, n: Num, x: nat, k: nat)
  {
    n != Infinity(fmt) ==>
      var mid := Scaled(fmt, n, k) + Scaled(fmt, Next(fmt, n), k);
      2 * x <= mid && (mid == 2 * x ==> n.Even())
  }

  /** The same by the two midpoints next to n; this is what rounding code decides. */
  ghost predicate InBasin(fmt: Format, n: Num, x: nat, k: nat)
  {
    IsNum(fmt, n) && AboveLowerMid(fmt, n, x, k) && BelowUpperMid(fmt, n, x, k)
  }

  /** What lies beyond the neighbour on one side is further away than the neighbour. */
  lemma BeatsBelow(x: nat, c: nat, p: nat, a: nat, even: bool)
    requires c <= p < a && p + a <= 2 * x && (p + a == 2 * x ==> even)
    ensures Beats(x, a, c, even)
  {
  }

  lemma BeatsAbove(x: nat, c: nat, s: nat, a: nat, even: bool)
    requires a < s <= c && 2 * x <= a + s && (a + s == 2 * x ==> even)
    ensures Beats(x, a, c, even)
  {
  }

  lemma BasinImpliesNearest(fmt: Format, n: Num, x: nat, k: nat)
    requires InBasin(fmt, n, x, k)
    ensures Nearest(fmt, n, x, k)
  {
    forall c: Num | IsNum(fmt, c) && c != n
      ensures Beats(x, Scaled(fmt, n, k), Scaled(fmt, c, k), n.Even())
    {
      BasinBeats(fmt, n, x, k, c);
    }
  }

  lemma BasinBeats(fmt: Format, n: Num, x: nat, k: nat, c: Num)
    requires InBasin(fmt, n, x, k) && IsNum(fmt, c) && c != n
    ensures Beats(x, Scaled(fmt, n, k), Scaled(fmt, c, k), n.Even())
  {
    if Less(c, n) {
      var p := Prev(fmt, n);
      ScaledIncreasing(fmt, p, n, k);
      if c != p {
        ScaledIncreasing(fmt, c, p, k);
      }
      BeatsBelow(x, Scaled(fmt, c, k), Scaled(fmt, p, k), Scaled(fmt, n, k), n.Even());
    } else {
      var s := Next(fmt, n);
      ScaledIncreasing(fmt, n, s, k);
      if c != s {
        ScaledIncreasing(fmt, s, c, k);
      }
      BeatsAbove(x, Scaled(fmt, c, k), Scaled(fmt, s, k), Scaled(fmt, n, k), n.Even());
    }
  }

  lemma NearestImpliesBasin(fmt: Format, n: Num, x: nat, k: nat)
    requires fmt.Valid() && Nearest(fmt, n, x, k)
    ensures InBasin(fmt, n, x, k)
  {
    if n != ZERO {
      var p := Prev(fmt, n);
      ScaledIncreasing(fmt, p, n, k);
      assert Beats(x, Scaled(fmt, n, k), Scaled(fmt, p, k), n.Even());
    }
    if n != Infinity(fmt) {
      var s := Next(fmt, n);
      ScaledIncreasing(fmt, n, s, k);
      assert Beats(x, Scaled(fmt, n, k), Scaled(fmt, s, k), n.Even());
    }
  }

  /** Being nearest is exactly lying between the two midpoints. */
  lemma BasinIsNearest(fmt: Format, n: Num, x: nat, k: nat)
    requires fmt.Valid()
    ensures InBasin(fmt, n, x, k) <==> Nearest(fmt, n, x, k)
  {
    if InBasin(fmt, n, x, k) {
      BasinImpliesNearest(fmt, n, x, k);
    }
    if Nearest(fmt, n, x, k) {
      NearestImpliesBasin(fmt, n, x, k);
    }
  }

  /** Rounding is monotone in the value, and so is a function of it. */
  lemma NearestMonotone(fmt: Format, m: Num, n: Num, x: nat, y: nat, k: nat)
    requires fmt.Valid() && Nearest(fmt, m, x, k) && Nearest(fmt, n, y, k) && x <= y
    ensures m == n || Less(m, n)
  {
    if Less(n, m) {
      // x is at least the midpoint below m, y at most the midpoint above n
      ScaledIncreasing(fmt, n, m, k);
      assert Beats(x, Scaled(fmt, m, k), Scaled(fmt, n, k), m.Even());
      assert Beats(y, Scaled(fmt, n, k), Scaled(fmt, m, k), n.Even());
      NearestNeighbours(fmt, n, m, x, k);
    }
  }

  /** Two distinct numbers that are both nearest to x are neighbours, so one of them is odd. */
  lemma NearestNeighbours(fmt: Format, n: Num, m: Num, x: nat, k: nat)
    requires fmt.Valid() && IsNum(fmt, n) && IsNum(fmt, m) && Less(n, m)
    requires Scaled(fmt, n, k) + Scaled(fmt, m, k) == 2 * x
    requires Nearest(fmt, m, x, k)
    ensures m == Next(fmt, n) && n.Even() != m.Even()
  {
    var s := Next(fmt, n);
    if m != s {
      ScaledIncreasing(fmt, n, s, k);
      ScaledIncreasing(fmt, s, m, k);
      assert false;
    }
    HiddenEven(fmt);
  }

  lemma HiddenEven(fmt: Format)
    requires fmt.Valid()
    ensures fmt.Hidden() % 2 == 0
  {
  }

  lemma NearestUnique(fmt: Format, m: Num, n: Num, x: nat, k: nat)
    requires fmt.Valid() && Nearest(fmt, m, x, k) && Nearest(fmt, n, x, k)
    ensures m == n
  {
    NearestMonotone(fmt, m, n, x, x, k);
    NearestMonotone(fmt, n, m, x, x, k);
  }

  /** Whatever rounds to n from below and from above rounds to n in between. */
  lemma NearestConvex(fmt: Format, n: Num, x: nat, y: nat, z: nat, k: nat)
    requires fmt.Valid() && Nearest(fmt, n, x, k) && Nearest(fmt, n, z, k) && x <= y <= z
    ensures Nearest(fmt, n, y, k)
  {
    BasinIsNearest(fmt, n, x, k);
    BasinIsNearest(fmt, n, z, k);
    BasinIsNearest(fmt, n, y, k);
  }
}
