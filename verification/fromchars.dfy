/** ffc_from_chars_advanced without the machine-float shortcuts, wherever the exact part of the power table reaches. */
module FromChars {
  import opened Powers
  import opened Words
  import opened Limbs
  import opened BigInts
  import opened Digits
  import opened ParseNumber
  import opened Ieee
  import opened Rounding
  import opened DigitComp
  import opened ComputeFloat
  import opened Decimals
  import opened SlowPath

  // ---- the number just below an approximation ----

  /** b is the largest number not above x. */
  ghost predicate Floors(fmt: Format, b: Num, x: nat)
  {
    IsNum(fmt, b) && Magnitude(fmt, b) <= x && (b != Infinity(fmt) ==> x < Magnitude(fmt, Next(fmt, b)))
  }

  /** What the constants of a value kind must satisfy; KindsSupported shows that both kinds do. */
  ghost predicate Supported(fmt: Format, maxTie: nat, maxDigits: nat)
  {
    && fmt.Valid() && CoversTies(fmt, maxTie) && PowerLimits(fmt)
    && 4 * fmt.Hidden() <= TEN_18
    && fmt.Bias() <= 0x4000
    && 47 <= maxDigits && Limits(fmt, maxDigits)
  }

  /** ffc_compute_error: the top bits of w * 10^q, cut off instead of rounded, with a marked exponent. */
  method ComputeError(fmt: Format, q: nat, w: U64) returns (answer: AdjustedMantissa)
    requires fmt.Valid() && fmt.Bias() <= 0x4000 && q <= 27 && w != 0
    ensures answer.power2 < 0 && 0x8000_0000_0000_0000 <= answer.mantissa
    ensures CutsToFloor(fmt, answer.mantissa, answer.power2 - INVALID_AM_BIAS, Units(fmt, Scale(w, Ten, q)))
  {
    var lz := CountLeadingZeroes(w);
    var w' := Shl64(w, lz);
    ModSmall(Scale(w, Two, lz), W64);
    var product := ProductApproximation(fmt, q, w');
    ghost var p := product.high * W64 + product.low;
    ProductValue(w, w', lz, q, p);
    TopWord(product.high, product.low, p);
    answer := ComputeErrorScaled(fmt, q, product.high, lz, w, product.low);
  }

  /** Rounding the approximation down gives the largest number not above x. */
  ghost predicate CutsToFloor(fmt: Format, mantissa: nat, power2: int, x: nat)
    requires fmt.Valid()
  {
    forall m, low | Cuts(fmt, mantissa, power2, m, low) :: Floors(fmt, Cap(fmt, Pack(fmt, m, CoreExponent(fmt, power2))), x)
  }

  /** ffc_compute_error_scaled. */
  method ComputeErrorScaled(fmt: Format, q: nat, high: U64, lz: nat, ghost w: nat, ghost productLow: U64) returns (answer: AdjustedMantissa)
    requires fmt.Valid() && fmt.Bias() <= 0x4000 && q <= 27 && lz < 64 && 0 <= Log2Pow5(q) <= 62
    requires 0x4000_0000_0000_0000 <= high
    requires high * W64 + productLow == Scale(Scale(w, Five, q), Two, lz + 63 - Log2Pow5(q))
    ensures answer.power2 < 0 && 0x8000_0000_0000_0000 <= answer.mantissa
    ensures CutsToFloor(fmt, answer.mantissa, answer.power2 - INVALID_AM_BIAS, Units(fmt, Scale(w, Ten, q)))
  {
    var hilz := if high / 0x8000_0000_0000_0000 == 1 then 0 else 1;
    var mantissa := if hilz == 1 then 2 * high else high;
    var power2 := Log2Pow10(q) + 63 + fmt.Bias() - hilz - lz - 62;
    answer := AM(mantissa, power2 + INVALID_AM_BIAS);
    forall m, low | Cuts(fmt, mantissa, power2, m, low)
      ensures Floors(fmt, Cap(fmt, Pack(fmt, m, CoreExponent(fmt, power2))), Units(fmt, Scale(w, Ten, q)))
    {
      CutFloors(fmt, q, w, lz, high, productLow, hilz, power2, m, low);
    }
  }

  /** Undoing the normalizing shift leaves the same significand. */
  lemma UndoShift(high: nat, hilz: nat, m: nat, s: nat, low: nat) returns (hl: nat)
    requires hilz <= 1 && 0 < s && low < Scale(1, Two, s)
    requires (if hilz == 1 then 2 * high else high) == Scale(m, Two, s) + low
    ensures high == Scale(m, Two, s - hilz) + hl && hl < Scale(1, Two, s - hilz)
  {
    hl := if hilz == 1 then low / 2 else low;
    if hilz == 1 {
      assert Scale(m, Two, s) == 2 * Scale(m, Two, s - 1);
    }
  }

  lemma CutFloors(fmt: Format, q: nat, w: nat, lz: nat, high: U64, productLow: U64, hilz: nat, power2: int, m: nat, low: nat)
    requires fmt.Valid() && q <= 27 && lz < 64 && 0 <= Log2Pow5(q) <= 62 && hilz <= 1
    requires high * W64 + productLow == Scale(Scale(w, Five, q), Two, lz + 63 - Log2Pow5(q))
    requires power2 == Log2Pow10(q) + 1 + fmt.Bias() - hilz - lz
    requires Cuts(fmt, if hilz == 1 then 2 * high else high, power2, m, low)
    ensures Floors(fmt, Cap(fmt, Pack(fmt, m, CoreExponent(fmt, power2))), Units(fmt, Scale(w, Ten, q)))
  {
    var s, e, a := MantissaShift(fmt), CoreExponent(fmt, power2), lz + 63 - Log2Pow5(q);
    var hl := UndoShift(high, hilz, m, s, low);
    var p := high * W64 + productLow;
    ProductSplit(high, productLow, m, hl, s - hilz, p);
    ShiftedFloors(fmt, w, q, a, p, m, hl * W64 + productLow, s - hilz + 64, e);
  }

  lemma ShiftedFloors(fmt: Format, w: nat, q: nat, a: nat, p: nat, m: nat, r: nat, k: nat, e: nat)
    requires fmt.Valid() && 1 <= e && m < 2 * fmt.Hidden() && (m < fmt.Hidden() ==> e == 1)
    requires p == Scale(Scale(w, Five, q), Two, a) && p == Scale(m, Two, k) + r && r < Scale(1, Two, k)
    requires e + a == k + q + fmt.Bias()
    ensures Floors(fmt, Cap(fmt, Pack(fmt, m, e)), Units(fmt, Scale(w, Ten, q)))
  {
    var c, x := q + fmt.Bias() - 1, Units(fmt, Scale(w, Ten, q));
    AlignUnits(fmt, w, q, a);
    ShiftedBracket(x, a, p, c, m, r, k, e - 1);
    PackFloors(fmt, m, e, x);
  }

  lemma ShiftedBracket(x: nat, a: nat, p: nat, c: nat, m: nat, r: nat, k: nat, u: nat)
    requires Scale(x, Two, a) == Scale(p, Two, c) && p == Scale(m, Two, k) + r && r < Scale(1, Two, k) && u + a == k + c
    ensures Scale(m, Two, u) <= x < Scale(m + 1, Two, u)
  {
    ScaleSum(Scale(m, Two, k), r, Two, c);
    ScaleCompose(m, Two, k, c);
    ScaleStrict(r, Scale(1, Two, k), Two, c);
    ScaleCompose(1, Two, k, c);
    RemainderBracket(x, a, m, u, Scale(r, Two, c));
  }

  lemma PackFloors(fmt: Format, m: nat, e: nat, x: nat)
    requires fmt.Valid() && 1 <= e && m < 2 * fmt.Hidden() && (m < fmt.Hidden() ==> e == 1)
    requires Scale(m, Two, e - 1) <= x < Scale(m + 1, Two, e - 1)
    ensures Floors(fmt, Cap(fmt, Pack(fmt, m, e)), x)
  {
    var n := Pack(fmt, m, e);
    PackFacts(fmt, m, e);
    PackMagnitude(fmt, m, e);
    PackMagnitude(fmt, m + 1, e);
    if n.e >= fmt.infinitePower && n != Infinity(fmt) {
      MagnitudeIncreasing(fmt, Infinity(fmt), n);
    }
  }

  // ---- nineteen digits leave only two candidates ----

  /** One unit of w is delta. */
  lemma UnitsOf(fmt: Format, w: nat, q: nat)
    requires fmt.Valid()
    ensures var delta := Units(fmt, Scale(1, Ten, q));
            && Units(fmt, Scale(w, Ten, q)) == w * delta
            && Units(fmt, Scale(w + 1, Ten, q)) == Units(fmt, Scale(w, Ten, q)) + delta
  {
    var t, b := Scale(1, Ten, q), fmt.Bias() - 1;
    ScaleMul(w, 1, Ten, q);
    ScaleMul(w, t, Two, b);
    ScaleSum(w, 1, Ten, q);
    ScaleSum(Scale(w, Ten, q), t, Two, b);
  }

  /** The next number is at most 2 * Hidden units in the last place. */
  lemma NextBound(fmt: Format, b: Num)
    requires fmt.Valid() && b.f < fmt.Hidden()
    ensures var u := EffectiveExponent(b) - 1;
            && Magnitude(fmt, Next(fmt, b)) == Magnitude(fmt, b) + Scale(1, Two, u)
            && Magnitude(fmt, Next(fmt, b)) <= Scale(Scale(2, Two, u), Two, fmt.mantissaBits)
  {
    var u, h := EffectiveExponent(b) - 1, fmt.Hidden();
    MagnitudeStep(fmt, b);
    ScaleSum(Significand(fmt, b), 1, Two, u);
    ScaleMonotone(Significand(fmt, b) + 1, 2 * h, Two, u);
    ScaleMul(2, 1, Two, fmt.mantissaBits);
    ScaleSwap(2, Two, fmt.mantissaBits, Two, u);
  }

  /** delta times 4 * Hidden does not exceed w * delta. */
  lemma DeltaBound(fmt: Format, w: nat, delta: nat)
    requires 4 * fmt.Hidden() <= TEN_18 <= w
    ensures Scale(4 * delta, Two, fmt.mantissaBits) <= w * delta
  {
    ScaleMul(4 * delta, 1, Two, fmt.mantissaBits);
    MulMonotone(4 * fmt.Hidden(), w, delta);
  }

  /** The uncertainty after 19 digits is at most half a unit in the last place. */
  lemma HalfUnit(fmt: Format, b: Num, w: nat, q: nat)
    requires fmt.Valid() && 4 * fmt.Hidden() <= TEN_18 <= w && b != Infinity(fmt)
    requires Floors(fmt, b, Units(fmt, Scale(w, Ten, q)))
    ensures 2 * Units(fmt, Scale(1, Ten, q)) < Scale(1, Two, EffectiveExponent(b) - 1)
  {
    var delta, u := Units(fmt, Scale(1, Ten, q)), EffectiveExponent(b) - 1;
    UnitsOf(fmt, w, q);
    NextBound(fmt, b);
    DeltaBound(fmt, w, delta);
    ScaleOrder(4 * delta, Scale(2, Two, u), Two, fmt.mantissaBits);
    ScaleSum(1, 1, Two, u);
  }

  /** A value between w * 10^q and (w + 1) * 10^q rounds to b or to the number after b. */
  lemma TwoCandidates(fmt: Format, b: Num, w: nat, q: nat, d: nat, k: nat)
    requires fmt.Valid() && 4 * fmt.Hidden() <= TEN_18 <= w
    requires Floors(fmt, b, Units(fmt, Scale(w, Ten, q)))
    requires Scale(w, Ten, q + k) <= d < Scale(w + 1, Ten, q + k)
    ensures Nearest(fmt, b, Units(fmt, d), k) || Nearest(fmt, Next(fmt, b), Units(fmt, d), k)
  {
    var x := Units(fmt, d);
    Widen(fmt, w, q, d, k);
    ScaleMonotone(Magnitude(fmt, b), Units(fmt, Scale(w, Ten, q)), Ten, k);
    if b == Infinity(fmt) {
      AtLeastInfinity(fmt, x, k);
    } else if x < Scaled(fmt, Next(fmt, b), k) {
      BracketedIsNear(fmt, b, x, k);
    } else if Next(fmt, b) == Infinity(fmt) {
      AtLeastInfinity(fmt, x, k);
    } else {
      BelowNextMidpoint(fmt, b, w, q, x, k);
      NearLower(fmt, Next(fmt, b), x, k);
    }
  }

  lemma Widen(fmt: Format, w: nat, q: nat, d: nat, k: nat)
    requires fmt.Valid() && Scale(w, Ten, q + k) <= d < Scale(w + 1, Ten, q + k)
    ensures Scale(Units(fmt, Scale(w, Ten, q)), Ten, k) <= Units(fmt, d) < Scale(Units(fmt, Scale(w + 1, Ten, q)), Ten, k)
  {
    WidenOne(fmt, w, q, k);
    WidenOne(fmt, w + 1, q, k);
    ScaleMonotone(Scale(w, Ten, q + k), d, Two, fmt.Bias() - 1);
    ScaleStrict(d, Scale(w + 1, Ten, q + k), Two, fmt.Bias() - 1);
  }

  lemma WidenOne(fmt: Format, w: nat, q: nat, k: nat)
    requires fmt.Valid()
    ensures Scale(Units(fmt, Scale(w, Ten, q)), Ten, k) == Units(fmt, Scale(w, Ten, q + k))
  {
    ScaleSwap(Scale(w, Ten, q), Two, fmt.Bias() - 1, Ten, k);
    ScaleCompose(w, Ten, q, k);
  }

  lemma BelowNextMidpoint(fmt: Format, b: Num, w: nat, q: nat, x: nat, k: nat)
    requires fmt.Valid() && 4 * fmt.Hidden() <= TEN_18 <= w && b != Infinity(fmt) && Next(fmt, b) != Infinity(fmt)
    requires Floors(fmt, b, Units(fmt, Scale(w, Ten, q)))
    requires x < Scale(Units(fmt, Scale(w + 1, Ten, q)), Ten, k)
    ensures 2 * x < Scaled(fmt, Next(fmt, b), k) + Scaled(fmt, Next(fmt, Next(fmt, b)), k)
  {
    var s := Next(fmt, b);
    var y, m, m' := Units(fmt, Scale(w + 1, Ten, q)), Magnitude(fmt, s), Magnitude(fmt, Next(fmt, s));
    UnitsOf(fmt, w, q);
    HalfUnit(fmt, b, w, q);
    NextBound(fmt, s);
    ScaleGrows(1, Two, EffectiveExponent(b) - 1, EffectiveExponent(s) - 1);
    assert 2 * y < m + m';
    ScaleSum(y, y, Ten, k);
    ScaleSum(m, m', Ten, k);
    ScaleStrict(2 * y, m + m', Ten, k);
  }

  /** Nineteen digits are near enough for the comparison of all digits. */
  lemma FloorIsNear(fmt: Format, mantissa: nat, power2: int, w: nat, q: nat, d: nat, e0: int)
    requires fmt.Valid() && 4 * fmt.Hidden() <= TEN_18 <= w && CutsToFloor(fmt, mantissa, power2, Units(fmt, Scale(w, Ten, q)))
    requires e0 <= q && Scale(w, Ten, q - e0) <= d < Scale(w + 1, Ten, q - e0)
    ensures CutsNear(fmt, mantissa, power2, d, e0)
  {
    forall m, low | Cuts(fmt, mantissa, power2, m, low)
      ensures var b := Cap(fmt, Pack(fmt, m, CoreExponent(fmt, power2))); Rounds(fmt, b, d, e0) || Rounds(fmt, Next(fmt, b), d, e0)
    {
      RoundsToOneOf(fmt, Cap(fmt, Pack(fmt, m, CoreExponent(fmt, power2))), w, q, d, e0);
    }
  }

  lemma RoundsToOneOf(fmt: Format, b: Num, w: nat, q: nat, d: nat, e0: int)
    requires fmt.Valid() && 4 * fmt.Hidden() <= TEN_18 <= w && Floors(fmt, b, Units(fmt, Scale(w, Ten, q)))
    requires e0 <= q && Scale(w, Ten, q - e0) <= d < Scale(w + 1, Ten, q - e0)
    ensures Rounds(fmt, b, d, e0) || Rounds(fmt, Next(fmt, b), d, e0)
  {
    if e0 >= 0 {
      ScaleCompose(w, Ten, q - e0, e0);
      ScaleCompose(w + 1, Ten, q - e0, e0);
      ScaleMonotone(Scale(w, Ten, q - e0), d, Ten, e0);
      ScaleStrict(d, Scale(w + 1, Ten, q - e0), Ten, e0);
      TwoCandidates(fmt, b, w, q, Scale(d, Ten, e0), 0);
    } else {
      TwoCandidates(fmt, b, w, q, d, -e0);
    }
  }

  // ---- text to number ----

  datatype Result = Result(number: Num, negative: bool, outOfRange: bool, last: nat)

  /** The leading 19 digits are enough when they and their successor round alike; otherwise all digits are compared. */
  method RoundParsed(fmt: Format, maxTie: nat, maxDigits: nat, s: seq<Byte>, pns: Parsed, ghost d: nat, ghost e0: int)
    returns (am: AdjustedMantissa, ghost n: Num)
    requires Supported(fmt, maxTie, maxDigits)
    requires pns.Valid? && pns.layout.Fits(s) && Reachable(fmt, pns.mantissa, pns.exponent)
    requires d == pns.layout.Mantissa(s) && Keeps(d, e0, pns.mantissa, pns.exponent, pns.tooManyDigits)
    ensures Represents(fmt, am, n) && Rounds(fmt, n, d, e0)
  {
    var w, q := pns.mantissa, pns.exponent;
    am, n := Compute(fmt, maxTie, q, w);
    if pns.tooManyDigits && am.power2 >= 0 {
      var amPlusOne;
      ghost var n1;
      amPlusOne, n1 := Compute(fmt, maxTie, q, w + 1);
      var equal := am.mantissa == amPlusOne.mantissa && am.power2 == amPlusOne.power2;
      if !equal {
        am := ComputeError(fmt, q, w);
      } else {
        SamePrefix(fmt, n, w, q, d, e0);
      }
    }
    if am.power2 < 0 {
      FloorIsNear(fmt, am.mantissa, am.power2 - INVALID_AM_BIAS, w, q, d, e0);
      am, n := DigitCompare(fmt, maxDigits, s, pns.layout, w, q, am, d, e0);
    }
  }

  lemma SamePrefix(fmt: Format, n: Num, w: nat, q: int, d: nat, e0: int)
    requires fmt.Valid() && Rounds(fmt, n, w, q) && Rounds(fmt, n, w + 1, q)
    requires e0 < q && Scale(w, Ten, q - e0) <= d < Scale(w + 1, Ten, q - e0)
    ensures Rounds(fmt, n, d, e0)
  {
    RoundsScale(fmt, n, w, q, q - e0, e0);
    RoundsScale(fmt, n, w + 1, q, q - e0, e0);
    RoundsConvex(fmt, n, Scale(w, Ten, q - e0), d, Scale(w + 1, Ten, q - e0), e0);
  }

  /**
   * ffc_from_chars_advanced without the machine-float shortcuts: wherever the exact part of the table reaches, the text
   * is converted to the number nearest to the decimal written, whatever its length.
   */
  method FromCharsAdvanced(fmt: Format, maxTie: nat, maxDigits: nat, s: seq<Byte>, pns: Parsed) returns (r: Result)
    requires Supported(fmt, maxTie, maxDigits)
    requires pns.Valid? && pns.layout.Fits(s) && Reachable(fmt, pns.mantissa, pns.exponent)
    requires Keeps(pns.layout.Mantissa(s), pns.layout.exponent - pns.layout.FractionLength(), pns.mantissa, pns.exponent, pns.tooManyDigits)
    ensures Rounds(fmt, r.number, pns.layout.Mantissa(s), pns.layout.exponent - pns.layout.FractionLength())
    ensures r.negative == pns.layout.negative && r.last == pns.layout.last
    ensures r.outOfRange <==> (r.number == ZERO && pns.layout.Mantissa(s) != 0) || r.number == Infinity(fmt)
  {
    ghost var d, e0 := pns.layout.Mantissa(s), pns.layout.exponent - pns.layout.FractionLength();
    var am;
    ghost var n;
    am, n := RoundParsed(fmt, maxTie, maxDigits, s, pns, d, e0);
    RoundsIsNum(fmt, n, d, e0);
    var negative, number := AmToFloat(fmt, pns.layout.negative, am, n);
    var outOfRange := (pns.mantissa != 0 && am.mantissa == 0 && am.power2 == 0) || am.power2 == fmt.infinitePower;
    r := Result(number, negative, outOfRange, pns.layout.last);
  }

  lemma RoundsIsNum(fmt: Format, n: Num, d: nat, e: int)
    requires fmt.Valid() && Rounds(fmt, n, d, e)
    ensures IsNum(fmt, n)
  {
  }

  datatype Conversion = Rejected | BeyondTable(exponent: int) | Converted(result: Result)

  /**
   * ffc_from_chars: text in, nearest number out, as far as the exact part of the power table reaches; l is where the
   * parts of the number lie in the text.
   */
  method Convert(fmt: Format, maxTie: nat, maxDigits: nat, s: seq<Byte>, o: Options) returns (c: Conversion, ghost l: Layout)
    requires Supported(fmt, maxTie, maxDigits) && o.Valid()
    ensures c.Rejected? ==> ShowsNone(s, o)
    ensures !c.Rejected? ==> s != [] && Shows(s, o, l)
    ensures c.Converted? ==>
              && Rounds(fmt, c.result.number, l.Mantissa(s), l.exponent - l.FractionLength())
              && (c.result.negative <==> s[0] == MINUS) && c.result.last == l.last
              && (c.result.outOfRange <==> (c.result.number == ZERO && l.Mantissa(s) != 0) || c.result.number == Infinity(fmt))
    ensures c.BeyondTable? ==>
              && (fmt.smallestPower <= c.exponent < 0 || 27 < c.exponent <= fmt.largestPower)
              && (l.Mantissa(s) < TEN_19 ==> c.exponent == l.exponent - l.FractionLength())
  {
    l := Layout(false, 0, 0, false, 0, 0, 0, 0);
    if |s| == 0 {
      c := Rejected;
      return;
    }
    var pns := ParseNumber.Parse(s, o);
    if pns.Invalid? {
      c := Rejected;
      return;
    }
    l := pns.layout;
    c := ConvertParsed(fmt, maxTie, maxDigits, s, pns);
  }

  method ConvertParsed(fmt: Format, maxTie: nat, maxDigits: nat, s: seq<Byte>, pns: Parsed) returns (c: Conversion)
    requires Supported(fmt, maxTie, maxDigits) && pns.Valid? && pns.layout.Fits(s)
    requires Keeps(pns.layout.Mantissa(s), pns.layout.exponent - pns.layout.FractionLength(), pns.mantissa, pns.exponent, pns.tooManyDigits)
    ensures !c.Rejected?
    ensures c.Converted? ==>
              var l := pns.layout;
              && Rounds(fmt, c.result.number, l.Mantissa(s), l.exponent - l.FractionLength())
              && c.result.negative == l.negative && c.result.last == l.last
              && (c.result.outOfRange <==> (c.result.number == ZERO && l.Mantissa(s) != 0) || c.result.number == Infinity(fmt))
    ensures c.BeyondTable? ==>
              && (fmt.smallestPower <= c.exponent < 0 || 27 < c.exponent <= fmt.largestPower)
              && (pns.layout.Mantissa(s) < TEN_19 ==> c.exponent == pns.layout.exponent - pns.layout.FractionLength())
  {
    if !Reachable(fmt, pns.mantissa, pns.exponent) {
      return BeyondTable(pns.exponent);
    }
    var r := FromCharsAdvanced(fmt, maxTie, maxDigits, s, pns);
    c := Converted(r);
  }

  // ---- the constants of the two kinds ----

  const DOUBLE_MAX_TIE: nat := 23
  const FLOAT_MAX_TIE: nat := 10

  lemma FewPowers(c: nat, b: nat)
    requires FastPow(2, c) <= FastPow(10, b)
    ensures Pow(2, c) <= Pow(10, b)
  {
    FastPowIsPow(2, c);
    FastPowIsPow(10, b);
  }

  lemma FewTens(x: nat, c: nat, b: nat)
    requires FastPow(2, c) <= FastPow(10, b)
    ensures Scale(x, Two, c) <= Scale(x, Ten, b)
  {
    FewPowers(c, b);
    Products(x, c, b, Pow(2, c), Pow(10, b));
  }

  lemma Products(x: nat, c: nat, b: nat, p: nat, q: nat)
    requires p == Pow(2, c) && q == Pow(10, b) && p <= q
    ensures Scale(x, Two, c) <= Scale(x, Ten, b)
  {
    ScaleIsProduct(x, Two, c);
    ScaleIsProduct(x, Ten, b);
    MulMonotone(p, q, x);
  }

  /** 10^28 is just above 2^93. */
  lemma {:induction false} ManyTens(x: nat, a: nat)
    requires FastPow(2, 93) <= FastPow(10, 28)
    ensures Scale(x, Two, 93 * a) <= Scale(x, Ten, 28 * a)
    decreases a
  {
    if a > 0 {
      ManyTens(x, a - 1);
      FewTens(Scale(x, Ten, 28 * (a - 1)), 93, 28);
      ScaleMonotone(Scale(x, Two, 93 * (a - 1)), Scale(x, Ten, 28 * (a - 1)), Two, 93);
      ScaleCompose(x, Two, 93 * (a - 1), 93);
      ScaleCompose(x, Ten, 28 * (a - 1), 28);
    }
  }

  /** 10^(28a + b) is above 2^(93a + c) if 10^b is above 2^c. */
  ghost predicate TensReach(a: nat, b: nat, c: nat) { FastPow(2, c) <= FastPow(10, b) && FastPow(2, 93) <= FastPow(10, 28) }

  lemma TenAbove(m: nat, n: nat, a: nat, b: nat, c: nat)
    requires n == 28 * a + b && m <= 93 * a + c && TensReach(a, b, c)
    ensures Scale(1, Two, m) <= Scale(1, Ten, n)
  {
    ManyTens(1, a);
    FewTens(Scale(1, Ten, 28 * a), c, b);
    ScaleMonotone(Scale(1, Two, 93 * a), Scale(1, Ten, 28 * a), Two, c);
    ScaleCompose(1, Two, 93 * a, c);
    ScaleCompose(1, Ten, 28 * a, b);
    ScaleGrows(1, Two, m, 93 * a + c);
  }

  lemma BoundedBelow(fmt: Format, n: nat, a: nat, b: nat, c: nat)
    requires fmt.Valid() && n == 1 - fmt.smallestPower && n == 28 * a + b && 64 + fmt.Bias() <= 93 * a + c && TensReach(a, b, c)
    ensures Scale(W64, Two, fmt.Bias()) <= Scale(1, Ten, n)
  {
    PowersOfTwo();
    ScaleCompose(1, Two, 64, fmt.Bias());
    TenAbove(64 + fmt.Bias(), n, a, b, c);
  }

  lemma BoundedAbove(fmt: Format, n: nat, m: nat, a: nat, b: nat, c: nat)
    requires fmt.Valid() && n == fmt.largestPower + 1 && n == 28 * a + b && m <= 93 * a + c && TensReach(a, b, c)
    requires fmt.mantissaBits + fmt.infinitePower <= m + fmt.Bias()
    ensures Magnitude(fmt, Infinity(fmt)) <= Units(fmt, Scale(1, Ten, n))
  {
    var mb, inf, bias := fmt.mantissaBits, fmt.infinitePower, fmt.Bias();
    TenAbove(m, n, a, b, c);
    ScaleMonotone(Scale(1, Two, m), Scale(1, Ten, n), Two, bias - 1);
    ScaleCompose(1, Two, m, bias - 1);
    ScaleCompose(1, Two, mb, inf - 1);
    ScaleGrows(1, Two, mb + inf - 1, m + bias - 1);
  }

  lemma SmallTens()
    ensures TensReach(12, 7, 23) && TensReach(11, 1, 3) && TensReach(2, 9, 29) && TensReach(1, 11, 36)
  {
    assert FastPow(2, 93) == 9903520314283042199192993792;
    assert FastPow(10, 28) == 10000000000000000000000000000;
    assert FastPow(2, 23) == 8388608 && FastPow(2, 29) == 536870912 && FastPow(2, 36) == 68719476736;
    assert FastPow(10, 7) == 10000000 && FastPow(10, 9) == 1000000000 && FastPow(10, 11) == 100000000000;
  }

  /** Where the powers of ten of double and float end. */
  lemma KindsBounded()
    ensures PowerLimits(DOUBLE) && PowerLimits(FLOAT)
  {
    SmallTens();
    BoundedBelow(DOUBLE, 343, 12, 7, 23);
    BoundedAbove(DOUBLE, 309, 1026, 11, 1, 3);
    BoundedBelow(FLOAT, 65, 2, 9, 29);
    BoundedAbove(FLOAT, 39, 129, 1, 11, 36);
  }

  /** One and a half is the number with the biased exponent of 2^0 and the top fraction bit. */
  lemma OneAndAHalf(fmt: Format, bias: nat)
    requires fmt.Valid() && bias + 1 < fmt.infinitePower && bias + fmt.mantissaBits == fmt.Bias() && 0 < bias
    ensures Rounds(fmt, Num(bias, fmt.Hidden() / 2), 15, -1)
  {
    var h, n, b := fmt.Hidden(), Num(bias, fmt.Hidden() / 2), fmt.Bias() - 1;
    HiddenEven(fmt);
    var x := Units(fmt, 15);
    assert Magnitude(fmt, n) == Scale(h + h / 2, Two, bias - 1);
    ScaleCompose(1, Two, fmt.mantissaBits, bias - 1);
    var one := Scale(1, Two, b);
    HalfMore(h, bias - 1, one);
    ScaleMul(15, 1, Two, b);
    assert Scaled(fmt, n, 1) == x;
    ExactlyNearest(fmt, n, x, 1);
  }

  lemma HalfMore(h: nat, k: nat, one: nat)
    requires h % 2 == 0 && Scale(h, Two, k) == one
    ensures 2 * Scale(h + h / 2, Two, k) == 3 * one
  {
    ScaleSum(h, h / 2, Two, k);
    ScaleSum(h / 2, h / 2, Two, k);
  }

  lemma ExactlyNearest(fmt: Format, n: Num, x: nat, k: nat)
    requires fmt.Valid() && IsNum(fmt, n) && n != ZERO && n != Infinity(fmt) && Scaled(fmt, n, k) == x
    ensures Nearest(fmt, n, x, k)
  {
    ScaledIncreasing(fmt, Prev(fmt, n), n, k);
    ScaledIncreasing(fmt, n, Next(fmt, n), k);
    BasinIsNearest(fmt, n, x, k);
  }

  /** Where the exponents of double and float begin: 1.5 has the biased exponents 1023 and 127. */
  lemma KindsBiased()
    ensures Rounds(DOUBLE, Num(1023, DOUBLE.Hidden() / 2), 15, -1) && Rounds(FLOAT, Num(127, FLOAT.Hidden() / 2), 15, -1)
  {
    OneAndAHalf(DOUBLE, 1023);
    OneAndAHalf(FLOAT, 127);
  }

  /** The constants of double and float meet every condition used above. */
  lemma KindsSupported()
    ensures Supported(DOUBLE, DOUBLE_MAX_TIE, DOUBLE_MAX_DIGITS) && Supported(FLOAT, FLOAT_MAX_TIE, FLOAT_MAX_DIGITS)
  {
    KindsCoverTies();
    KindsLimited();
    KindsBounded();
    HiddenOfDouble(DOUBLE.mantissaBits);
    HiddenOfFloat(FLOAT.mantissaBits);
  }
}
