/** What it means to round the decimal d * 10^e, for any exponent, and that it does not matter how the decimal is written. */
module Decimals {
  import opened Powers
  import opened Ieee
  import opened DigitComp

  /** n is the decimal d * 10^e, correctly rounded. */
  ghost predicate Rounds(fmt: Format, n: Num, d: nat, e: int)
    requires fmt.Valid()
  {
    if e >= 0 then Nearest(fmt, n, Units(fmt, Scale(d, Ten, e)), 0) else Nearest(fmt, n, Units(fmt, d), -e)
  }

  // ---- the value does not depend on how it is written ----

  lemma ScaledTen(fmt: Format, n: Num, k: nat, j: nat)
    ensures Scaled(fmt, n, k + j) == Scale(Scaled(fmt, n, k), Ten, j)
  {
    ScaleCompose(Magnitude(fmt, n), Ten, k, j);
  }

  /** Comparing twice x with a sum is the same after scaling everything by 10^j. */
  lemma MidScales(x: nat, a: nat, b: nat, j: nat)
    ensures 2 * Scale(x, Ten, j) < Scale(a, Ten, j) + Scale(b, Ten, j) <==> 2 * x < a + b
    ensures 2 * Scale(x, Ten, j) == Scale(a, Ten, j) + Scale(b, Ten, j) <==> 2 * x == a + b
  {
    ScaleSum(x, x, Ten, j);
    ScaleSum(a, b, Ten, j);
    ScaleOrder(x + x, a + b, Ten, j);
  }

  lemma NearestScale(fmt: Format, n: Num, x: nat, k: nat, j: nat)
    requires fmt.Valid()
    ensures Nearest(fmt, n, Scale(x, Ten, j), k + j) <==> Nearest(fmt, n, x, k)
  {
    BasinIsNearest(fmt, n, x, k);
    BasinIsNearest(fmt, n, Scale(x, Ten, j), k + j);
    ScaledTen(fmt, n, k, j);
    if n != ZERO {
      ScaledTen(fmt, Prev(fmt, n), k, j);
      MidScales(x, Scaled(fmt, Prev(fmt, n), k), Scaled(fmt, n, k), j);
    }
    ScaledTen(fmt, Next(fmt, n), k, j);
    MidScales(x, Scaled(fmt, n, k), Scaled(fmt, Next(fmt, n), k), j);
  }

  lemma NearestUnits(fmt: Format, n: Num, d: nat, k: nat, j: nat)
    requires fmt.Valid()
    ensures Nearest(fmt, n, Units(fmt, Scale(d, Ten, j)), k + j) <==> Nearest(fmt, n, Units(fmt, d), k)
  {
    ScaleSwap(d, Ten, j, Two, fmt.Bias() - 1);
    NearestScale(fmt, n, Units(fmt, d), k, j);
  }

  /** Moving j powers of ten between the digits and the exponent changes nothing. */
  lemma RoundsScale(fmt: Format, n: Num, d: nat, e: int, j: nat, e': int)
    requires fmt.Valid() && e' == e - j
    ensures Rounds(fmt, n, Scale(d, Ten, j), e') <==> Rounds(fmt, n, d, e)
  {
    if e' >= 0 {
      RoundsScaleWhole(fmt, n, d, e, j, e');
    } else if e >= 0 {
      RoundsScaleMixed(fmt, n, d, e, j, e', -e');
    } else {
      RoundsScalePart(fmt, n, d, e, -e, j, e');
    }
  }

  lemma RoundsScaleWhole(fmt: Format, n: Num, d: nat, e: nat, j: nat, e': nat)
    requires fmt.Valid() && e == j + e'
    ensures Rounds(fmt, n, Scale(d, Ten, j), e') <==> Rounds(fmt, n, d, e)
  {
    ScaleCompose(d, Ten, j, e');
    RoundsWhole(fmt, n, Scale(d, Ten, j), e');
    RoundsWhole(fmt, n, d, e);
  }

  lemma RoundsScaleMixed(fmt: Format, n: Num, d: nat, e: nat, j: nat, e': int, m: nat)
    requires fmt.Valid() && 0 < m && m == -e' && j == e + m
    ensures Rounds(fmt, n, Scale(d, Ten, j), e') <==> Rounds(fmt, n, d, e)
  {
    // d * 10^j over 10^m is d * 10^e
    var d' := Scale(d, Ten, e);
    ScaleCompose(d, Ten, e, m);
    RoundsPart(fmt, n, Scale(d', Ten, m), e', m);
    RoundsWhole(fmt, n, d, e);
    NearestUnits(fmt, n, d', 0, m);
  }

  lemma RoundsScalePart(fmt: Format, n: Num, d: nat, e: int, k: nat, j: nat, e': int)
    requires fmt.Valid() && 0 < k && k == -e && e' == e - j
    ensures Rounds(fmt, n, Scale(d, Ten, j), e') <==> Rounds(fmt, n, d, e)
  {
    RoundsPart(fmt, n, Scale(d, Ten, j), e', k + j);
    RoundsPart(fmt, n, d, e, k);
    NearestUnits(fmt, n, d, k, j);
  }

  lemma RoundsWhole(fmt: Format, n: Num, d: nat, e: nat)
    requires fmt.Valid()
    ensures Rounds(fmt, n, d, e) <==> Nearest(fmt, n, Units(fmt, Scale(d, Ten, e)), 0)
  {
  }

  lemma RoundsPart(fmt: Format, n: Num, d: nat, e: int, k: nat)
    requires fmt.Valid() && 0 < k && e == 0 - k
    ensures Rounds(fmt, n, d, e) <==> Nearest(fmt, n, Units(fmt, d), k)
  {
  }

  /** Rounding is convex in the digits. */
  lemma RoundsConvex(fmt: Format, n: Num, d1: nat, d: nat, d2: nat, e: int)
    requires fmt.Valid() && Rounds(fmt, n, d1, e) && Rounds(fmt, n, d2, e) && d1 <= d <= d2
    ensures Rounds(fmt, n, d, e)
  {
    var b := fmt.Bias() - 1;
    if e >= 0 {
      ScaleMonotone(d1, d, Ten, e);
      ScaleMonotone(d, d2, Ten, e);
      ScaleMonotone(Scale(d1, Ten, e), Scale(d, Ten, e), Two, b);
      ScaleMonotone(Scale(d, Ten, e), Scale(d2, Ten, e), Two, b);
      NearestConvex(fmt, n, Units(fmt, Scale(d1, Ten, e)), Units(fmt, Scale(d, Ten, e)), Units(fmt, Scale(d2, Ten, e)), 0);
    } else {
      ScaleMonotone(d1, d, Two, b);
      ScaleMonotone(d, d2, Two, b);
      NearestConvex(fmt, n, Units(fmt, d1), Units(fmt, d), Units(fmt, d2), -e);
    }
  }
}
