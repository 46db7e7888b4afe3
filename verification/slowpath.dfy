/** ffc_digit_comp: all digits of the text decide between the two numbers next to an approximation. */
module SlowPath {
  import opened Powers
  import opened Words
  import opened Limbs
  import opened BigInts
  import opened Digits
  import opened ParseNumber
  import opened Ieee
  import opened Rounding
  import opened DigitComp
  import opened Decimals
  import PM = ParseMantissa

  // ---- the scientific exponent ----

  /** ffc_scientific_exponent: the exponent of the leading digit. */
  method ScientificExponent(mantissa: U64, exponent: int) returns (r: int)
    ensures exponent <= r
    ensures mantissa != 0 ==> Scale(1, Ten, r - exponent) <= mantissa < Scale(1, Ten, r - exponent + 1)
  {
    var m: nat := mantissa;
    ghost var k: nat := 0;
    ghost var low: nat := 0;
    r := exponent;
    while m >= 10000
      invariant r == exponent + k && mantissa == Scale(m, Ten, k) + low && low < Scale(1, Ten, k)
      invariant mantissa != 0 ==> m != 0
    {
      low := DropDigits(mantissa, m, k, low, 4, 10000);
      m := m / 10000;
      r, k := r + 4, k + 4;
    }
    while m >= 100
      invariant r == exponent + k && mantissa == Scale(m, Ten, k) + low && low < Scale(1, Ten, k)
      invariant mantissa != 0 ==> m != 0
    {
      low := DropDigits(mantissa, m, k, low, 2, 100);
      m := m / 100;
      r, k := r + 2, k + 2;
    }
    while m >= 10
      invariant r == exponent + k && mantissa == Scale(m, Ten, k) + low && low < Scale(1, Ten, k)
      invariant mantissa != 0 ==> m != 0
    {
      low := DropDigits(mantissa, m, k, low, 1, 10);
      m := m / 10;
      r, k := r + 1, k + 1;
    }
    if mantissa != 0 {
      ScaleMonotone(1, m, Ten, k);
      ScaleSum(m, 1, Ten, k);
      ScaleMonotone(m + 1, 10, Ten, k);
      assert Scale(1, Ten, 1) == 10;
      ScaleCompose(1, Ten, 1, k);
    }
  }

  lemma DropDigits(v: nat, m: nat, k: nat, low: nat, j: nat, c: nat) returns (low': nat)
    requires v == Scale(m, Ten, k) + low && low < Scale(1, Ten, k)
    requires (j == 1 && c == 10) || (j == 2 && c == 100) || (j == 4 && c == 10000)
    ensures v == Scale(m / c, Ten, k + j) + low' && low' < Scale(1, Ten, k + j)
  {
    var q, r := m / c, m % c;
    low' := Scale(r, Ten, k) + low;
    assert Scale(q, Ten, j) == c * q by { SmallTen(q, j); }
    assert Scale(1, Ten, j) == c by { SmallTen(1, j); }
    ScaleSum(Scale(q, Ten, j), r, Ten, k);
    ScaleCompose(q, Ten, j, k);
    ScaleSum(r, 1, Ten, k);
    ScaleMonotone(r + 1, c, Ten, k);
    ScaleCompose(1, Ten, j, k);
  }

  lemma SmallTen(x: nat, j: nat)
    requires j == 1 || j == 2 || j == 4
    ensures Scale(x, Ten, j) == if j == 1 then 10 * x else if j == 2 then 100 * x else 10000 * x
  {
    assert Scale(x, Ten, j - 1) == if j == 1 then x else 10 * Scale(x, Ten, j - 2);
    if j == 4 {
      assert Scale(x, Ten, 1) == 10 * x;
      assert Scale(x, Ten, 2) == 100 * x;
      assert Scale(x, Ten, 3) == 1000 * x;
    }
  }

  // ---- the limits of a value kind ----

  /**
   * What the number of digits kept must satisfy: no midpoint has more significant digits, and the big integers have
   * room for the digits and a midpoint. KindsLimited shows that both kinds of numbers do.
   */
  ghost predicate Limits(fmt: Format, maxDigits: nat)
  {
    && fmt.Valid() && 19 <= maxDigits && -342 <= fmt.smallestPower && fmt.largestPower + 20 <= maxDigits
    && Scale(4 * fmt.Hidden(), Five, fmt.Bias()) <= Scale(1, Ten, maxDigits)
    && Scale(1, Ten, maxDigits + 342) < Capacity()
    && Scale(Scale(1, Ten, maxDigits + 2), Two, fmt.Bias()) < Capacity()
  }

  // ---- the sticky digit ----

  /** The midpoint above c, doubled and times 10^k. */
  ghost function Mid(fmt: Format, c: Num, k: nat): nat { Scaled(fmt, c, k) + Scaled(fmt, Next(fmt, c), k) }

  lemma MidScaled(fmt: Format, c: Num, k: nat, a: nat)
    ensures Mid(fmt, c, k + a) == Scale(Mid(fmt, c, k), Ten, a)
  {
    ScaledTen(fmt, c, k, a);
    ScaledTen(fmt, Next(fmt, c), k, a);
    ScaleSum(Scaled(fmt, c, k), Scaled(fmt, Next(fmt, c), k), Ten, a);
  }

  lemma MidFives(fmt: Format, c: Num, k: nat)
    requires c.f < fmt.Hidden()
    ensures Mid(fmt, c, k) == Scale(Scale(2 * Significand(fmt, c) + 1, Five, k), Two, EffectiveExponent(c) - 1 + k)
  {
    MidpointValue(fmt, c);
    ScaleSum(Magnitude(fmt, c), Magnitude(fmt, Next(fmt, c)), Ten, k);
    MidpointFives(2 * Significand(fmt, c) + 1, EffectiveExponent(c) - 1, k);
  }

  /** A midpoint y that is an integer at the scale of the digit p: more digits after p do not cross it. */
  lemma StickySide(p: nat, d: nat, j: nat, y: nat)
    requires Scale(p, Ten, j) < d < Scale(p + 1, Ten, j)
    ensures 10 * p + 1 < Scale(y, Ten, 1) <==> d < Scale(y, Ten, j)
    ensures 10 * p + 1 != Scale(y, Ten, 1) && d != Scale(y, Ten, j)
  {
    assert Scale(y, Ten, 1) == 10 * y;
    if y <= p {
      ScaleMonotone(y, p, Ten, j);
    } else {
      ScaleMonotone(p + 1, y, Ten, j);
    }
  }

  /** x compared with a midpoint y * 2^bias, after scaling the midpoint by 10^a. */
  lemma AgainstInteger(fmt: Format, x: nat, y: nat, a: nat)
    requires fmt.Valid()
    ensures 2 * Units(fmt, x) < Scale(Scale(y, Two, fmt.Bias()), Ten, a) <==> x < Scale(y, Ten, a)
    ensures 2 * Units(fmt, x) == Scale(Scale(y, Two, fmt.Bias()), Ten, a) <==> x == Scale(y, Ten, a)
  {
    ScaleSwap(y, Two, fmt.Bias(), Ten, a);
    assert 2 * Units(fmt, x) == Scale(x, Two, fmt.Bias());
    ScaleOrder(x, Scale(y, Ten, a), Two, fmt.Bias());
  }

  /** A midpoint with more fraction digits than p has is so small that p is above it. */
  lemma FinelyDivided(fmt: Format, t: nat, u: nat, k: nat, p: nat, maxDigits: nat)
    requires Limits(fmt, maxDigits) && t <= 4 * fmt.Hidden() && u + k < fmt.Bias() && Scale(1, Ten, maxDigits - 1) <= p
    ensures Scale(Scale(t, Five, k), Two, u + k) <= Scale(p, Two, fmt.Bias())
  {
    var bias := fmt.Bias();
    ScaleMonotone(t, 4 * fmt.Hidden(), Five, bias);
    ScaleGrows(t, Five, k + 1, bias);
    assert Scale(t, Five, k + 1) == 5 * Scale(t, Five, k);
    assert Scale(1, Ten, maxDigits) == 10 * Scale(1, Ten, maxDigits - 1);
    assert Scale(t, Five, k) <= 2 * p;
    ScaleMonotone(Scale(t, Five, k), 2 * p, Two, u + k);
    ScaleCompose(p, Two, 1, u + k);
    assert Scale(p, Two, 1) == 2 * p;
    ScaleGrows(p, Two, u + k + 1, bias);
  }

  /** The digits kept lie on the same side of a midpoint as all digits do. */
  lemma StickyMid(fmt: Format, c: Num, p: nat, d: nat, j: nat, k: nat, maxDigits: nat)
    requires Limits(fmt, maxDigits) && c.f < fmt.Hidden() && Scale(1, Ten, maxDigits - 1) <= p
    requires Scale(p, Ten, j) < d < Scale(p + 1, Ten, j)
    ensures 2 * Units(fmt, 10 * p + 1) < Mid(fmt, c, k + 1) <==> 2 * Units(fmt, d) < Mid(fmt, c, k + j)
    ensures 2 * Units(fmt, 10 * p + 1) != Mid(fmt, c, k + 1) && 2 * Units(fmt, d) != Mid(fmt, c, k + j)
  {
    var t, u, bias := 2 * Significand(fmt, c) + 1, EffectiveExponent(c) - 1, fmt.Bias();
    MidFives(fmt, c, k);
    MidScaled(fmt, c, k, 1);
    MidScaled(fmt, c, k, j);
    if bias <= u + k {
      var y := Scale(Scale(t, Five, k), Two, u + k - bias);
      ScaleCompose(Scale(t, Five, k), Two, u + k - bias, bias);
      AgainstInteger(fmt, 10 * p + 1, y, 1);
      AgainstInteger(fmt, d, y, j);
      StickySide(p, d, j, y);
    } else {
      FinelyDivided(fmt, t, u, k, p, maxDigits);
      AgainstInteger(fmt, 10 * p + 1, p, 1);
      AgainstInteger(fmt, d, p, j);
      StickySide(p, d, j, p);
      ScaleMonotone(Mid(fmt, c, k), Scale(p, Two, bias), Ten, 1);
      ScaleMonotone(Mid(fmt, c, k), Scale(p, Two, bias), Ten, j);
    }
  }

  /** The digits kept and the sticky one round to a number exactly when all digits do. */
  lemma StickyAgrees(fmt: Format, n: Num, p: nat, d: nat, j: nat, k: nat, maxDigits: nat)
    requires Limits(fmt, maxDigits) && 0 < k && Scale(1, Ten, maxDigits - 1) <= p
    requires Scale(p, Ten, j) < d < Scale(p + 1, Ten, j)
    ensures Nearest(fmt, n, Units(fmt, 10 * p + 1), k) <==> Nearest(fmt, n, Units(fmt, d), k - 1 + j)
  {
    BasinIsNearest(fmt, n, Units(fmt, 10 * p + 1), k);
    BasinIsNearest(fmt, n, Units(fmt, d), k - 1 + j);
    if IsNum(fmt, n) {
      StickyMid(fmt, n, p, d, j, k - 1, maxDigits);
      if n != ZERO {
        var prev := Prev(fmt, n);
        assert prev.f < fmt.Hidden() && Next(fmt, prev) == n;
        StickyMid(fmt, prev, p, d, j, k - 1, maxDigits);
      }
    }
  }

  // ---- the condensed digits ----

  /** What ffc_parse_mantissa kept: the digits up to trailing zeros, or a prefix p with a sticky 1. */
  ghost predicate Condensed(d: nat, total: nat, v: nat, count: nat, maxDigits: nat)
  {
    || (count <= total && count <= maxDigits && d == Scale(v, Ten, total - count))
    || (count == maxDigits + 1 && 0 < maxDigits < total && v == 10 * (v / 10) + 1 && Scale(1, Ten, maxDigits - 1) <= v / 10
        && Scale(v / 10, Ten, total - maxDigits) < d < Scale(v / 10 + 1, Ten, total - maxDigits))
  }

  lemma DigitCountUnique(d: nat, m: nat, n: nat)
    requires PM.HasDigits(d, m) && PM.HasDigits(d, n)
    ensures m == n
  {
    if m < n {
      ScaleGrows(1, Ten, m, n - 1);
    } else if n < m {
      ScaleGrows(1, Ten, n, m - 1);
    }
  }

  lemma CondensesTo(d: nat, total: nat, maxDigits: nat, v: nat, count: nat)
    requires PM.HasDigits(d, total) && 0 < d && 0 < maxDigits && PM.Condenses(d, maxDigits, v, count)
    ensures Condensed(d, total, v, count, maxDigits)
    ensures 0 < v < Scale(1, Ten, count)
    ensures total <= maxDigits ==> count == total
    ensures maxDigits < total ==> maxDigits <= count
  {
    var n: nat :| PM.HasDigits(d, n)
      && (n <= maxDigits ==> v == d && count == n)
      && (n > maxDigits ==>
            || (count == maxDigits && d == Scale(v, Ten, n - maxDigits))
            || (count == maxDigits + 1 && v % 10 == 1
                && Scale(v / 10, Ten, n - maxDigits) < d < Scale(v / 10 + 1, Ten, n - maxDigits)));
    DigitCountUnique(d, n, total);
    if total > maxDigits {
      var rest, p := total - maxDigits, if count == maxDigits then v else v / 10;
      ScaleCompose(1, Ten, maxDigits, rest);
      ScaleCompose(1, Ten, maxDigits - 1, rest);
      ScaleZero(Ten, rest);
      ScaleStrict(p, p + 1, Ten, rest);
      PrefixDigits(d, p, total, rest, maxDigits);
      assert Scale(1, Ten, maxDigits + 1) == 10 * Scale(1, Ten, maxDigits);
    }
  }

  lemma PrefixDigits(d: nat, p: nat, total: nat, rest: nat, maxDigits: nat)
    requires PM.HasDigits(d, total) && 0 < maxDigits && total == maxDigits + rest
    requires Scale(p, Ten, rest) <= d < Scale(p + 1, Ten, rest)
    ensures Scale(1, Ten, maxDigits - 1) <= p < Scale(1, Ten, maxDigits)
  {
    ScaleCompose(1, Ten, maxDigits, rest);
    ScaleCompose(1, Ten, maxDigits - 1, rest);
    ScaleOrder(p, Scale(1, Ten, maxDigits), Ten, rest);
    ScaleOrder(Scale(1, Ten, maxDigits - 1), p + 1, Ten, rest);
  }

  /** The digits kept round to a number exactly when all digits do. */
  lemma CondensedAgrees(fmt: Format, n: Num, d: nat, e0: int, v: nat, count: nat, maxDigits: nat, total: nat, exponent: int)
    requires Limits(fmt, maxDigits) && Condensed(d, total, v, count, maxDigits) && count <= total + 1
    requires exponent == e0 + total - count && (maxDigits < count ==> exponent < 0)
    ensures Rounds(fmt, n, v, exponent) <==> Rounds(fmt, n, d, e0)
  {
    if count <= maxDigits {
      RoundsScale(fmt, n, v, exponent, total - count, e0);
    } else {
      RoundsPart(fmt, n, v, exponent, -exponent);
      StickyAgrees(fmt, n, v / 10, d, total - maxDigits, -exponent, maxDigits);
      RoundsPart(fmt, n, d, e0, -e0);
    }
  }

  // ---- room in the big integer ----

  /** If a value rounds to b or the number after it, the midpoint above b is at most three times the value. */
  lemma MidpointNear(fmt: Format, b: Num, x: nat, k: nat)
    requires fmt.Valid() && IsNum(fmt, b) && b != ZERO
    requires Nearest(fmt, b, x, k) || Nearest(fmt, Next(fmt, b), x, k)
    ensures Mid(fmt, b, k) <= 6 * x
  {
    BasinIsNearest(fmt, b, x, k);
    BasinIsNearest(fmt, Next(fmt, b), x, k);
    assert Prev(fmt, Next(fmt, b)) == b;
    assert Scaled(fmt, b, k) <= 2 * x;
    DoublesAtMost(fmt, b);
    ScaleMonotone(Magnitude(fmt, Next(fmt, b)), 2 * Magnitude(fmt, b), Ten, k);
    ScaleSum(Magnitude(fmt, b), Magnitude(fmt, b), Ten, k);
  }

  lemma DoublesAtMost(fmt: Format, b: Num)
    requires b.f < fmt.Hidden() && b != ZERO
    ensures Magnitude(fmt, Next(fmt, b)) <= 2 * Magnitude(fmt, b)
  {
    MagnitudeStep(fmt, b);
    if b.e > 0 {
      ScaleMonotone(1, b.f + fmt.Hidden(), Two, b.e - 1);
    }
  }

  /** The comparison with the midpoint above b fits. */
  lemma MidpointFits(fmt: Format, b: Num, v: nat, k: nat, maxDigits: nat)
    requires Limits(fmt, maxDigits) && IsNum(fmt, b) && k <= maxDigits + 342 && v < Scale(1, Ten, maxDigits + 1)
    requires Nearest(fmt, b, Units(fmt, v), k) || Nearest(fmt, Next(fmt, b), Units(fmt, v), k)
    ensures ComparisonFits(fmt, b, v, k)
  {
    var t5, p, bias := Scale(2 * Significand(fmt, b) + 1, Five, k), ComparePower(fmt, b, k), fmt.Bias();
    assert Scale(1, Ten, maxDigits + 2) == 10 * Scale(1, Ten, maxDigits + 1);
    if b == ZERO {
      SmallestMidpointFits(fmt, v, k, maxDigits);
    } else {
      MidpointNear(fmt, b, Units(fmt, v), k);
      MidFives(fmt, b, k);
      BoundedSides(fmt, t5, p, v, EffectiveExponent(b) - 1 + k, maxDigits);
    }
  }

  lemma BoundedSides(fmt: Format, t5: nat, p: int, v: nat, c: nat, maxDigits: nat)
    requires Limits(fmt, maxDigits) && c == p + fmt.Bias() && 10 * v < Scale(1, Ten, maxDigits + 2)
    requires Scale(t5, Two, c) <= 6 * Units(fmt, v)
    ensures if p >= 0 then Scale(t5, Two, p) < Capacity() else t5 < Capacity() && Scale(v, Two, -p) < Capacity()
  {
    var bias := fmt.Bias();
    assert 6 * Units(fmt, v) == Scale(3 * v, Two, bias) by {
      ScaleMul(3, v, Two, bias);
    }
    Widest(fmt, 3 * v, maxDigits);
    Widest(fmt, v, maxDigits);
    if p >= 0 {
      ScaleCompose(t5, Two, p, bias);
      ScaleOrder(3 * v, Scale(t5, Two, p), Two, bias);
      ScaleGrows(3 * v, Two, 0, bias);
    } else {
      ScaleCompose(3 * v, Two, -p, c);
      ScaleOrder(Scale(3 * v, Two, -p), t5, Two, c);
      ScaleGrows(3 * v, Two, -p, bias);
      ScaleGrows(v, Two, -p, bias);
    }
  }

  lemma Widest(fmt: Format, x: nat, maxDigits: nat)
    requires Limits(fmt, maxDigits) && x < Scale(1, Ten, maxDigits + 2)
    ensures Scale(x, Two, fmt.Bias()) < Capacity()
  {
    ScaleStrict(x, Scale(1, Ten, maxDigits + 2), Two, fmt.Bias());
  }

  lemma SmallestMidpointFits(fmt: Format, v: nat, k: nat, maxDigits: nat)
    requires Limits(fmt, maxDigits) && k <= maxDigits + 342 && v < Scale(1, Ten, maxDigits + 2)
    ensures ComparisonFits(fmt, ZERO, v, k)
  {
    var f, p, bias := Scale(1, Five, k), k - fmt.Bias(), fmt.Bias();
    ScaleTen(1, k);
    ScaleGrows(1, Ten, k, maxDigits + 342);
    ScaleGrows(f, Two, 0, k);
    Widest(fmt, v, maxDigits);
    if p >= 0 {
      ScaleGrows(f, Two, p, k);
    } else {
      ScaleGrows(v, Two, -p, bias);
    }
  }

  // ---- all digits against the midpoint ----

  const INVALID_AM_BIAS: int := -0x8000

  /** The rounded-down significand m of a 64-bit mantissa. */
  ghost predicate Cuts(fmt: Format, mantissa: nat, power2: int, m: nat, low: nat)
    requires fmt.Valid()
  {
    && mantissa == Scale(m, Two, CoreShift(fmt, power2)) + low && low < Scale(1, Two, CoreShift(fmt, power2))
    && m < 2 * fmt.Hidden() && (m < fmt.Hidden() ==> CoreExponent(fmt, power2) == 1)
  }

  /** d * 10^e rounds to the number the approximation is cut down to, or to the one after it. */
  ghost predicate CutsNear(fmt: Format, mantissa: nat, power2: int, d: nat, e: int)
    requires fmt.Valid()
  {
    forall m, low | Cuts(fmt, mantissa, power2, m, low) ::
      var b := Cap(fmt, Pack(fmt, m, CoreExponent(fmt, power2)));
      Rounds(fmt, b, d, e) || Rounds(fmt, Next(fmt, b), d, e)
  }

  /** The mantissa and exponent parsed say how many digits there are before the exponent of the whole. */
  lemma TotalDigits(w: nat, q: int, d: nat, e0: int, sciExp: int) returns (total: nat)
    requires 0 < w && Keeps(d, e0, w, q, d >= TEN_19) && q <= sciExp
    requires Scale(1, Ten, sciExp - q) <= w < Scale(1, Ten, sciExp - q + 1)
    ensures total == sciExp + 1 - e0 && PM.HasDigits(d, total) && 0 < d
  {
    var a, j := sciExp - q, q - e0;
    total := a + 1 + j;
    ScaleCompose(1, Ten, a, j);
    ScaleCompose(1, Ten, a + 1, j);
    ScaleMonotone(Scale(1, Ten, a), w, Ten, j);
    ScaleMonotone(w + 1, Scale(1, Ten, a + 1), Ten, j);
  }

  lemma FewDigits(w: nat, a: nat)
    requires w < W64 && Scale(1, Ten, a) <= w
    ensures a <= 19
  {
    TenTo19(19);
    assert Scale(1, Ten, 20) == 10 * Scale(1, Ten, 19);
    ScaleExponentOrder(Ten, a, 20);
  }

  /**
   * ffc_digit_comp. Whatever the exponent, if the number written rounds to the approximation cut down or to the number
   * after it, then comparing all digits, as far as they are kept, finds the one it rounds to. Beyond the powers of ten
   * of its kind a number is zero or infinite and never comes here.
   */
  method DigitCompare(fmt: Format, maxDigits: nat, s: seq<Byte>, l: Layout, w: U64, q: int, am: AdjustedMantissa, ghost d: nat, ghost e0: int)
    returns (answer: AdjustedMantissa, ghost n: Num)
    requires Limits(fmt, maxDigits) && l.Fits(s) && fmt.smallestPower <= q <= fmt.largestPower && w != 0
    requires d == l.Mantissa(s) && Keeps(d, e0, w, q, d >= TEN_19)
    requires 0x8000_0000_0000_0000 <= am.mantissa && CutsNear(fmt, am.mantissa, am.power2 - INVALID_AM_BIAS, d, e0)
    ensures Represents(fmt, answer, n) && Rounds(fmt, n, d, e0)
  {
    var am' := AM(am.mantissa, am.power2 - INVALID_AM_BIAS);
    var sciExp := ScientificExponent(w, q);
    FewDigits(w, sciExp - q);
    ghost var total := TotalDigits(w, q, d, e0, sciExp);
    ScaleGrows(1, Ten, maxDigits + 1, maxDigits + 342);
    var big := new BigInt();
    var digits := PM.Parse(s, l, big, maxDigits);
    CondensesTo(d, total, maxDigits, big.Value(), digits);
    answer, n := CompareDigits(fmt, maxDigits, big, am', sciExp + 1 - digits, digits, total, d, e0);
  }

  /** Whole numbers are rounded exactly; otherwise the midpoint decides. */
  method CompareDigits(fmt: Format, maxDigits: nat, big: BigInt, am: AdjustedMantissa, exponent: int,
                       ghost digits: nat, ghost total: nat, ghost d: nat, ghost e0: int)
    returns (answer: AdjustedMantissa, ghost n: Num)
    requires Limits(fmt, maxDigits) && exponent == e0 + total - digits && -341 <= exponent + digits <= maxDigits
    requires 0x8000_0000_0000_0000 <= am.mantissa && CutsNear(fmt, am.mantissa, am.power2, d, e0)
    requires big.Valid() && big.IsNormalized() && 0 < big.Value() < Scale(1, Ten, digits)
    requires Condensed(d, total, big.Value(), digits, maxDigits)
    modifies big`len, big.data
    ensures Represents(fmt, answer, n) && Rounds(fmt, n, d, e0)
  {
    ghost var v := big.Value();
    if exponent >= 0 {
      WholeFits(v, exponent, digits, maxDigits);
      var ok;
      answer, ok, n := PositiveDigitComp(fmt, big, exponent);
      RoundsWhole(fmt, n, v, exponent);
    } else {
      answer, n := CompareMidpoint(fmt, maxDigits, big, am, -exponent, digits, total, d, e0);
      RoundsPart(fmt, n, v, exponent, -exponent);
    }
    CondensedAgrees(fmt, n, d, e0, v, digits, maxDigits, total, exponent);
  }

  lemma WholeFits(v: nat, exponent: nat, digits: nat, maxDigits: nat)
    requires v < Scale(1, Ten, digits) && exponent + digits <= maxDigits && Scale(1, Ten, maxDigits + 342) < Capacity()
    ensures Scale(v, Ten, exponent) < Capacity()
  {
    ScaleStrict(v, Scale(1, Ten, digits), Ten, exponent);
    ScaleCompose(1, Ten, digits, exponent);
    ScaleGrows(1, Ten, digits + exponent, maxDigits + 342);
  }

  /** The comparison with the midpoint, on the digits kept. */
  method CompareMidpoint(fmt: Format, maxDigits: nat, big: BigInt, am: AdjustedMantissa, k: nat,
                         ghost digits: nat, ghost total: nat, ghost d: nat, ghost e0: int)
    returns (answer: AdjustedMantissa, ghost n: Num)
    requires Limits(fmt, maxDigits) && 0 < k && 0 - k == e0 + total - digits && k <= digits + 341
    requires 0x8000_0000_0000_0000 <= am.mantissa && CutsNear(fmt, am.mantissa, am.power2, d, e0)
    requires big.Valid() && big.IsNormalized() && 0 < big.Value() < Scale(1, Ten, digits)
    requires Condensed(d, total, big.Value(), digits, maxDigits)
    modifies big`len, big.data
    ensures Represents(fmt, answer, n) && Nearest(fmt, n, Units(fmt, old(big.Value())), k)
  {
    ghost var v := big.Value();
    var ok;
    ghost var b, m, low;
    answer, ok, n, b, m, low := NegativeDigitComp(fmt, big, am, k);
    assert Cuts(fmt, am.mantissa, am.power2, m, low);
    NearOnKept(fmt, b, d, e0, v, digits, maxDigits, total, k);
    NearOnKept(fmt, Next(fmt, b), d, e0, v, digits, maxDigits, total, k);
    PackFacts(fmt, m, CoreExponent(fmt, am.power2));
    ScaleGrows(1, Ten, digits, maxDigits + 1);
    MidpointFits(fmt, b, v, k, maxDigits);
  }

  lemma NearOnKept(fmt: Format, n: Num, d: nat, e0: int, v: nat, count: nat, maxDigits: nat, total: nat, k: nat)
    requires Limits(fmt, maxDigits) && Condensed(d, total, v, count, maxDigits) && 0 < k && 0 - k == e0 + total - count
    ensures Nearest(fmt, n, Units(fmt, v), k) <==> Rounds(fmt, n, d, e0)
  {
    CondensedAgrees(fmt, n, d, e0, v, count, maxDigits, total, 0 - k);
    RoundsPart(fmt, n, v, 0 - k, k);
  }

  // ---- the limits of double and float ----

  const DOUBLE_MAX_DIGITS: nat := 769
  const FLOAT_MAX_DIGITS: nat := 114

  /** 10^(3j) is at most 2^(10j). */
  lemma {:induction false} ThousandsBelow(j: nat)
    ensures Scale(1, Ten, 3 * j) <= Scale(1, Two, 10 * j)
    decreases j
  {
    if j > 0 {
      ThousandsBelow(j - 1);
      var t, b := Scale(1, Ten, 3 * (j - 1)), Scale(1, Two, 10 * (j - 1));
      assert Scale(t, Ten, 3) == 1000 * t by { assert Scale(t, Ten, 2) == 100 * t; }
      assert Scale(b, Two, 10) == 1024 * b by {
        EightDoublings(b);
        assert Scale(b, Two, 9) == 2 * Scale(b, Two, 8);
      }
      ScaleCompose(1, Ten, 3 * (j - 1), 3);
      ScaleCompose(1, Two, 10 * (j - 1), 10);
    }
  }

  lemma DigitsFit(n: nat, j: nat)
    requires n <= 3 * j && 10 * j < 64 * LIMB_COUNT
    ensures Scale(1, Ten, n) < Capacity()
  {
    ScaleGrows(1, Ten, n, 3 * j);
    ThousandsBelow(j);
    ScaleExponentOrder(Two, 10 * j, 64 * LIMB_COUNT);
    ScaleLimb(1, LIMB_COUNT);
  }

  /** 5^(3j) is at most 2^(7j). */
  lemma {:induction false} FivesBelow(x: nat, j: nat)
    ensures Scale(x, Five, 3 * j) <= Scale(x, Two, 7 * j)
    decreases j
  {
    if j > 0 {
      FivesBelow(x, j - 1);
      var t, b := Scale(x, Five, 3 * (j - 1)), Scale(x, Two, 7 * (j - 1));
      assert Scale(t, Five, 3) == 125 * t by { assert Scale(t, Five, 2) == 25 * t; }
      assert Scale(b, Two, 7) == 128 * b by {
        EightDoublings(b);
        assert Scale(b, Two, 8) == 2 * Scale(b, Two, 7);
      }
      ScaleCompose(x, Five, 3 * (j - 1), 3);
      ScaleCompose(x, Two, 7 * (j - 1), 7);
    }
  }

  /** Enough digits: the finest midpoint of a kind is a multiple of 10^-bias with at most maxDigits digits. */
  lemma EnoughDigits(fmt: Format, maxDigits: nat, j: nat)
    requires fmt.Valid() && maxDigits <= fmt.Bias() == maxDigits + 3 * j && fmt.mantissaBits + 2 + 7 * j <= maxDigits
    ensures Scale(4 * fmt.Hidden(), Five, fmt.Bias()) <= Scale(1, Ten, maxDigits)
  {
    var h := 4 * fmt.Hidden();
    ScaleCompose(h, Five, 3 * j, maxDigits);
    FivesBelow(h, j);
    ScaleCompose(1, Two, fmt.mantissaBits, 2);
    assert Scale(fmt.Hidden(), Two, 2) == h by { assert Scale(fmt.Hidden(), Two, 1) == 2 * fmt.Hidden(); }
    ScaleCompose(1, Two, fmt.mantissaBits + 2, 7 * j);
    ScaleGrows(1, Two, fmt.mantissaBits + 2 + 7 * j, maxDigits);
    ScaleMonotone(Scale(h, Five, 3 * j), Scale(1, Two, maxDigits), Five, maxDigits);
    ScaleSwap(1, Two, maxDigits, Five, maxDigits);
    ScaleTen(1, maxDigits);
  }

  lemma RoomFor(fmt: Format, maxDigits: nat, i: nat, j: nat)
    requires fmt.Valid() && maxDigits + 342 <= 3 * i && 10 * i < 64 * LIMB_COUNT
    requires maxDigits + 2 <= 3 * j && 10 * j + fmt.Bias() < 64 * LIMB_COUNT
    ensures Scale(1, Ten, maxDigits + 342) < Capacity()
    ensures Scale(Scale(1, Ten, maxDigits + 2), Two, fmt.Bias()) < Capacity()
  {
    DigitsFit(maxDigits + 342, i);
    ScaleGrows(1, Ten, maxDigits + 2, 3 * j);
    ThousandsBelow(j);
    ScaleMonotone(Scale(1, Ten, maxDigits + 2), Scale(1, Two, 10 * j), Two, fmt.Bias());
    ScaleCompose(1, Two, 10 * j, fmt.Bias());
    ScaleExponentOrder(Two, 10 * j + fmt.Bias(), 64 * LIMB_COUNT);
    ScaleLimb(1, LIMB_COUNT);
  }

  lemma WithinLimits(fmt: Format, maxDigits: nat, a: nat, i: nat, j: nat)
    requires fmt.Valid() && -342 <= fmt.smallestPower && fmt.largestPower + 20 <= maxDigits
    requires 19 <= maxDigits <= fmt.Bias() == maxDigits + 3 * a && fmt.mantissaBits + 2 + 7 * a <= maxDigits
    requires maxDigits + 342 <= 3 * i && 10 * i < 64 * LIMB_COUNT
    requires maxDigits + 2 <= 3 * j && 10 * j + fmt.Bias() < 64 * LIMB_COUNT
    ensures Limits(fmt, maxDigits)
  {
    EnoughDigits(fmt, maxDigits, a);
    RoomFor(fmt, maxDigits, i, j);
  }

  /** 769 and 114 digits are enough for double and float, and there is room for them. */
  lemma KindsLimited()
    ensures Limits(DOUBLE, DOUBLE_MAX_DIGITS) && Limits(FLOAT, FLOAT_MAX_DIGITS)
  {
    WithinLimits(DOUBLE, DOUBLE_MAX_DIGITS, 102, 371, 257);
    WithinLimits(FLOAT, FLOAT_MAX_DIGITS, 12, 152, 39);
  }
}
