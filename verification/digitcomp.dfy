/** Exact rounding by big-integer comparison: ffc_positive_digit_comp and ffc_negative_digit_comp. */
module DigitComp {
  import opened Powers
  import opened Words
  import opened Limbs
  import opened BigInts
  import opened Ieee
  import opened Rounding

  // ---- which neighbour is nearest ----

  lemma AtLeastInfinity(fmt: Format, x: nat, k: nat)
    requires fmt.Valid() && Scaled(fmt, Infinity(fmt), k) <= x
    ensures Nearest(fmt, Infinity(fmt), x, k)
  {
    var i := Infinity(fmt);
    ScaledIncreasing(fmt, Prev(fmt, i), i, k);
    BasinIsNearest(fmt, i, x, k);
  }

  /** Comparing with the midpoint picks the right one whenever the nearest number is one of the two. */
  lemma MidpointDecides(fmt: Format, n: Num, x: nat, k: nat, up: bool)
    requires fmt.Valid() && IsNum(fmt, n) && n != Infinity(fmt)
    requires var mid := Scaled(fmt, n, k) + Scaled(fmt, Next(fmt, n), k);
             up <==> 2 * x > mid || (2 * x == mid && !n.Even())
    requires Nearest(fmt, n, x, k) || Nearest(fmt, Next(fmt, n), x, k)
    ensures Nearest(fmt, if up then Next(fmt, n) else n, x, k)
  {
    var s := Next(fmt, n);
    HiddenEven(fmt);
    BasinIsNearest(fmt, n, x, k);
    BasinIsNearest(fmt, s, x, k);
    assert Prev(fmt, s) == n;
  }

  /** A value between two neighbours rounds to one of them. */
  lemma BracketedIsNear(fmt: Format, n: Num, x: nat, k: nat)
    requires fmt.Valid() && IsNum(fmt, n) && n != Infinity(fmt)
    requires Scaled(fmt, n, k) <= x < Scaled(fmt, Next(fmt, n), k)
    ensures Nearest(fmt, n, x, k) || Nearest(fmt, Next(fmt, n), x, k)
  {
    var s := Next(fmt, n);
    var mid := Scaled(fmt, n, k) + Scaled(fmt, s, k);
    if 2 * x < mid || (2 * x == mid && n.Even()) {
      NearLower(fmt, n, x, k);
    } else {
      NearUpper(fmt, n, x, k);
    }
  }

  lemma NearLower(fmt: Format, n: Num, x: nat, k: nat)
    requires fmt.Valid() && IsNum(fmt, n) && n != Infinity(fmt) && Scaled(fmt, n, k) <= x
    requires var mid := Scaled(fmt, n, k) + Scaled(fmt, Next(fmt, n), k);
             2 * x < mid || (2 * x == mid && n.Even())
    ensures Nearest(fmt, n, x, k)
  {
    if n != ZERO {
      ScaledIncreasing(fmt, Prev(fmt, n), n, k);
    }
    BasinIsNearest(fmt, n, x, k);
  }

  lemma NearUpper(fmt: Format, n: Num, x: nat, k: nat)
    requires fmt.Valid() && IsNum(fmt, n) && n != Infinity(fmt) && x < Scaled(fmt, Next(fmt, n), k)
    requires var mid := Scaled(fmt, n, k) + Scaled(fmt, Next(fmt, n), k);
             mid < 2 * x || (2 * x == mid && !n.Even())
    ensures Nearest(fmt, Next(fmt, n), x, k)
  {
    var s := Next(fmt, n);
    HiddenEven(fmt);
    assert Prev(fmt, s) == n;
    if s != Infinity(fmt) {
      ScaledIncreasing(fmt, s, Next(fmt, s), k);
    }
    BasinIsNearest(fmt, s, x, k);
  }

  // ---- large values: the top 64 bits and a sticky flag ----

  /** x is q units of 2^(e - 1) and a remainder; both sides are shifted by t so that nothing is fractional. */
  lemma RemainderDecides(fmt: Format, x: nat, t: nat, q: nat, e: nat, rest: nat, up: bool)
    requires fmt.Valid() && 1 <= e && q < 2 * fmt.Hidden() && (q < fmt.Hidden() ==> e == 1)
    requires Scale(x, Two, t) == Scale(q, Two, e - 1 + t) + rest && rest < Scale(1, Two, e - 1 + t)
    requires up <==> 2 * rest > Scale(1, Two, e - 1 + t) || (2 * rest == Scale(1, Two, e - 1 + t) && q % 2 == 1)
    ensures Nearest(fmt, Cap(fmt, Pack(fmt, q + if up then 1 else 0, e)), x, 0)
  {
    var n, s := Pack(fmt, q, e), Pack(fmt, q + 1, e);
    PackFacts(fmt, q, e);
    PackMagnitude(fmt, q, e);
    PackMagnitude(fmt, q + 1, e);
    RemainderBracket(x, t, q, e - 1, rest);
    if n.e >= fmt.infinitePower {
      if n != Infinity(fmt) {
        MagnitudeIncreasing(fmt, Infinity(fmt), n);
      }
      AtLeastInfinity(fmt, x, 0);
    } else {
      BracketedIsNear(fmt, n, x, 0);
      MidpointDecides(fmt, n, x, 0, up);
    }
  }

  /** The remainder places x between q and q + 1 units, and against their midpoint. */
  lemma RemainderBracket(x: nat, t: nat, q: nat, u: nat, rest: nat)
    requires Scale(x, Two, t) == Scale(q, Two, u + t) + rest && rest < Scale(1, Two, u + t)
    ensures Scale(q, Two, u) <= x < Scale(q + 1, Two, u)
    ensures 2 * x < Scale(q, Two, u) + Scale(q + 1, Two, u) <==> 2 * rest < Scale(1, Two, u + t)
    ensures 2 * x == Scale(q, Two, u) + Scale(q + 1, Two, u) <==> 2 * rest == Scale(1, Two, u + t)
  {
    var a, b := Scale(q, Two, u), Scale(q + 1, Two, u);
    ScaleCompose(q, Two, u, t);
    ScaleCompose(q + 1, Two, u, t);
    ScaleSum(q, 1, Two, u + t);
    ScaleOrder(x, a, Two, t);
    ScaleOrder(x, b, Two, t);
    ScaleSum(x, x, Two, t);
    ScaleSum(a, b, Two, t);
    ScaleOrder(2 * x, a + b, Two, t);
  }

  /** The dropped mantissa bits and the sticky flag stand for the exact remainder. */
  lemma StickyRemainder(low: nat, s: nat, c: nat, sticky: nat, q: nat, truncated: bool)
    requires 0 < s && low < Scale(1, Two, s) && sticky < Scale(1, Two, c) && (truncated <==> sticky != 0)
    ensures var rest := Scale(low, Two, c) + sticky;
            && rest < Scale(1, Two, s + c)
            && (RoundsUp(q, low, s, truncated) <==>
                  2 * rest > Scale(1, Two, s + c) || (2 * rest == Scale(1, Two, s + c) && q % 2 == 1))
  {
    var half := Scale(1, Two, s - 1);
    ScaleCompose(1, Two, s, c);
    ScaleSum(half, half, Two, c);
    ScaleSum(low, 1, Two, c);
    ScaleMonotone(low + 1, Scale(1, Two, s), Two, c);
    ScaleOrder(low, half, Two, c);
    if low < half {
      ScaleMonotone(low + 1, half, Two, c);
    } else if half < low {
      ScaleStrict(half, low, Two, c);
    }
  }

  /** The shifted value, split at the mantissa and at the sticky bits. */
  lemma SplitTopBits(v: nat, shl: nat, bits: nat, l: nat, rest: nat, q: nat, low: nat, s: nat, b: nat)
    requires Scale(v, Two, shl) == Scale(bits, Limb, l) + rest && rest < Scale(1, Limb, l)
    requires bits == Scale(q, Two, s) + low
    ensures var c := 64 * l + b;
            && Scale(Scale(v, Two, b), Two, shl) == Scale(q, Two, s + c) + (Scale(low, Two, c) + Scale(rest, Two, b))
            && Scale(rest, Two, b) < Scale(1, Two, c)
            && (Scale(rest, Two, b) != 0 <==> rest != 0)
  {
    var c := 64 * l + b;
    ScaleSwap(v, Two, b, Two, shl);
    ScaleLimb(bits, l);
    ScaleLimb(1, l);
    ScaleSum(Scale(bits, Two, 64 * l), rest, Two, b);
    ScaleCompose(bits, Two, 64 * l, b);
    ScaleSum(Scale(q, Two, s), low, Two, c);
    ScaleCompose(q, Two, s, c);
    ScaleStrict(rest, Scale(1, Two, 64 * l), Two, b);
    ScaleCompose(1, Two, 64 * l, b);
    ScaleZero(Two, b);
    if rest != 0 {
      ScalePositive(rest, Two, b);
    }
  }

  /** The decimal d * 10^e for e >= 0, in units of the smallest subnormal. */
  function Units(fmt: Format, d: nat): nat
    requires fmt.Valid()
  {
    Scale(d, Two, fmt.Bias() - 1)
  }

  /**
   * ffc_positive_digit_comp: bigmant * 10^exponent is computed exactly, and its top bits and sticky flag
   * round to the nearest number, or to infinity. It fails only when the big integer has no room.
   */
  method PositiveDigitComp(fmt: Format, bigmant: BigInt, exponent: nat)
    returns (answer: AdjustedMantissa, ok: bool, ghost n: Num)
    requires fmt.Valid() && bigmant.Valid() && bigmant.IsNormalized() && bigmant.Value() != 0
    modifies bigmant`len, bigmant.data
    ensures ok <==> Scale(old(bigmant.Value()), Ten, exponent) < Capacity()
    ensures ok ==> Represents(fmt, answer, n)
    ensures ok ==> Nearest(fmt, n, Units(fmt, Scale(old(bigmant.Value()), Ten, exponent)), 0)
  {
    ghost var d := bigmant.Value();
    ok := bigmant.Pow10(exponent);
    if !ok {
      answer, n := AM(0, 0), ZERO;
      return;
    }
    ghost var v := bigmant.Value();
    ScalePositive(d, Ten, exponent);
    assert bigmant.len > 0;
    var bits, truncated;
    ghost var shl, rest;
    bits, truncated, shl, rest := bigmant.Hi64();
    var length, lz := bigmant.BitLength();
    LeadingZeroesUnique(bigmant.data[bigmant.len - 1], shl, lz);
    var am := AM(bits, length - 64 + fmt.Bias());
    ghost var q, low;
    answer, q, low := RoundTieEvenTruncated(fmt, am, truncated);
    n := PositiveRound(fmt, v, shl, bits, bigmant.len - 1, rest, q, low, am.power2, truncated);
  }

  lemma LeadingZeroesUnique(x: U64, m: nat, n: nat)
    requires 0x8000_0000_0000_0000 <= Scale(x, Two, m) < W64 && 0x8000_0000_0000_0000 <= Scale(x, Two, n) < W64
    ensures m == n
  {
    if m < n {
      AtLeastDoubled(x, m, n);
    } else if n < m {
      AtLeastDoubled(x, n, m);
    }
  }

  lemma AtLeastDoubled(x: nat, m: nat, n: nat)
    requires m < n
    ensures 2 * Scale(x, Two, m) <= Scale(x, Two, n)
  {
    ScaleGrows(x, Two, m, n - 1);
  }

  lemma PositiveRound(fmt: Format, v: nat, shl: nat, bits: nat, l: nat, rest: nat, q: nat, low: nat, power2: int, truncated: bool)
    returns (n: Num)
    requires fmt.Valid() && shl < 64 && power2 == 64 * l - shl + fmt.Bias()
    requires Scale(v, Two, shl) == Scale(bits, Limb, l) + rest && rest < Scale(1, Limb, l) && (truncated <==> rest != 0)
    requires bits == Scale(q, Two, CoreShift(fmt, power2)) + low && low < Scale(1, Two, CoreShift(fmt, power2))
    requires q < 2 * fmt.Hidden() && (q < fmt.Hidden() ==> CoreExponent(fmt, power2) == 1)
    ensures var q' := q + if RoundsUp(q, low, CoreShift(fmt, power2), truncated) then 1 else 0;
            n == Cap(fmt, Pack(fmt, q', CoreExponent(fmt, power2)))
    ensures Nearest(fmt, n, Units(fmt, v), 0)
  {
    var s, e, b := MantissaShift(fmt), CoreExponent(fmt, power2), fmt.Bias() - 1;
    var c := 64 * l + b;
    SplitTopBits(v, shl, bits, l, rest, q, low, s, b);
    StickyRemainder(low, s, c, Scale(rest, Two, b), q, truncated);
    assert e - 1 + shl == s + c;
    var up := RoundsUp(q, low, s, truncated);
    RemainderDecides(fmt, Units(fmt, v), shl, q, e, Scale(low, Two, c) + Scale(rest, Two, b), up);
    n := Cap(fmt, Pack(fmt, q + if up then 1 else 0, e));
  }

  // ---- small values: compare with the midpoint above the rounded-down number ----

  /** ffc_to_extended: significand and power of two of a packed number. */
  function Significand(fmt: Format, b: Num): nat { if b.e == 0 then b.f else b.f + fmt.Hidden() }

  function EffectiveExponent(b: Num): nat { if b.e == 0 then 1 else b.e }

  /** The midpoint between b and the next number has significand 2s + 1 and one more fraction bit. */
  lemma MidpointValue(fmt: Format, b: Num)
    requires b.f < fmt.Hidden()
    ensures Magnitude(fmt, b) + Magnitude(fmt, Next(fmt, b)) == Scale(2 * Significand(fmt, b) + 1, Two, EffectiveExponent(b) - 1)
  {
    var s, u := Significand(fmt, b), EffectiveExponent(b) - 1;
    MagnitudeStep(fmt, b);
    ScaleSum(s, s + 1, Two, u);
    ScaleSum(s, 1, Two, u);
  }

  /** ffc_to_extended_halfway. */
  method ToExtendedHalfway(fmt: Format, b: Num) returns (am: AdjustedMantissa)
    requires fmt.Valid() && IsNum(fmt, b)
    ensures am.mantissa == 2 * Significand(fmt, b) + 1
    ensures am.power2 == EffectiveExponent(b) - fmt.Bias() - 1
  {
    var m, p;
    if b.e == 0 {
      m, p := b.f, 1 - fmt.Bias();
    } else {
      OrDisjoint(1, b.f, fmt.mantissaBits);
      m, p := Or(b.f, fmt.Hidden()), b.e - fmt.Bias();
    }
    HiddenFits(fmt);
    am := AM(2 * m + 1, p - 1);
  }

  lemma HiddenFits(fmt: Format)
    requires fmt.Valid()
    ensures 4 * fmt.Hidden() <= 0x4000_0000_0000_0000
  {
    ScaleGrows(1, Two, fmt.mantissaBits + 2, 62);
    PowersOfTwo();
  }

  /** The exponent by which the two sides of the comparison differ after cancelling powers of five. */
  function ComparePower(fmt: Format, b: Num, k: nat): int
    requires fmt.Valid()
  {
    EffectiveExponent(b) - fmt.Bias() - 1 + k
  }

  /** The big-integer comparison is the comparison of the decimal d / 10^k with the midpoint above b. */
  lemma ComparesWithMidpoint(fmt: Format, b: Num, d: nat, k: nat, actual: nat, theor: nat)
    requires fmt.Valid() && b.f < fmt.Hidden()
    requires var t5, p := Scale(2 * Significand(fmt, b) + 1, Five, k), ComparePower(fmt, b, k);
             if p >= 0 then actual == d && theor == Scale(t5, Two, p) else actual == Scale(d, Two, -p) && theor == t5
    ensures var mid := Scaled(fmt, b, k) + Scaled(fmt, Next(fmt, b), k);
            && (actual < theor <==> 2 * Units(fmt, d) < mid)
            && (actual == theor <==> 2 * Units(fmt, d) == mid)
  {
    var t, u, p := 2 * Significand(fmt, b) + 1, EffectiveExponent(b) - 1, ComparePower(fmt, b, k);
    var t5 := Scale(t, Five, k);
    MidpointValue(fmt, b);
    ScaleSum(Magnitude(fmt, b), Magnitude(fmt, Next(fmt, b)), Ten, k);
    MidpointFives(t, u, k);
    var bias := fmt.Bias();
    assert 2 * Units(fmt, d) == Scale(d, Two, bias);
    if p >= 0 {
      ScaleCompose(t5, Two, p, bias);
      ScaleOrder(d, theor, Two, bias);
    } else {
      ScaleCompose(d, Two, -p, u + k);
      ScaleOrder(actual, t5, Two, u + k);
    }
  }

  /** t * 2^u * 10^k is t * 5^k * 2^(u + k). */
  lemma MidpointFives(t: nat, u: nat, k: nat)
    ensures Scale(Scale(t, Two, u), Ten, k) == Scale(Scale(t, Five, k), Two, u + k)
  {
    ScaleTen(Scale(t, Two, u), k);
    ScaleSwap(t, Two, u, Five, k);
    ScaleCompose(Scale(t, Five, k), Two, u, k);
  }

  /** The comparison fits the big integers. */
  ghost predicate ComparisonFits(fmt: Format, b: Num, d: nat, k: nat)
    requires fmt.Valid()
  {
    var t5, p := Scale(2 * Significand(fmt, b) + 1, Five, k), ComparePower(fmt, b, k);
    if p >= 0 then Scale(t5, Two, p) < Capacity() else t5 < Capacity() && Scale(d, Two, -p) < Capacity()
  }

  /** The scaling and comparison of ffc_negative_digit_comp. */
  method CompareWithHalfway(fmt: Format, bigmant: BigInt, b: Num, k: nat) returns (ord: int, ok: bool)
    requires fmt.Valid() && IsNum(fmt, b) && 0 < k
    requires bigmant.Valid() && bigmant.IsNormalized() && bigmant.Value() != 0
    modifies bigmant`len, bigmant.data
    ensures ok <==> ComparisonFits(fmt, b, old(bigmant.Value()), k)
    ensures ok ==> var mid, x := Scaled(fmt, b, k) + Scaled(fmt, Next(fmt, b), k), Units(fmt, old(bigmant.Value()));
              (ord < 0 <==> 2 * x < mid) && (ord > 0 <==> 2 * x > mid)
  {
    ghost var d := bigmant.Value();
    var theor := ToExtendedHalfway(fmt, b);
    ghost var actual, scaled;
    ord, ok, actual, scaled := ScaledCompare(bigmant, theor.mantissa, theor.power2 + k, k);
    if ok {
      ComparesWithMidpoint(fmt, b, d, k, actual, scaled);
    }
  }

  /** Compares bigmant with t * 5^k * 2^pow2. */
  method ScaledCompare(bigmant: BigInt, t: U64, pow2: int, k: nat)
    returns (ord: int, ok: bool, ghost actual: nat, ghost scaled: nat)
    requires bigmant.Valid() && bigmant.IsNormalized() && bigmant.Value() != 0 && 0 < t
    modifies bigmant`len, bigmant.data
    ensures var t5 := Scale(t, Five, k);
            ok <==> if pow2 >= 0 then Scale(t5, Two, pow2) < Capacity() else t5 < Capacity() && Scale(old(bigmant.Value()), Two, -pow2) < Capacity()
    ensures pow2 >= 0 ==> actual == old(bigmant.Value()) && scaled == Scale(Scale(t, Five, k), Two, pow2)
    ensures pow2 < 0 ==> actual == Scale(old(bigmant.Value()), Two, -pow2) && scaled == Scale(t, Five, k)
    ensures ok ==> (ord < 0 <==> actual < scaled) && (ord > 0 <==> actual > scaled)
  {
    ghost var d, t5 := bigmant.Value(), Scale(t, Five, k);
    actual := if pow2 >= 0 then d else Scale(d, Two, -pow2);
    scaled := if pow2 >= 0 then Scale(t5, Two, pow2) else t5;
    var digits := new BigInt.Make(t);
    ScalePositive(t, Five, k);
    ScaleGrows(t5, Two, 0, if pow2 > 0 then pow2 else 0);
    ok := digits.Pow5(k);
    ord := 0;
    if ok {
      ok := Align(bigmant, digits, pow2);
    }
    if ok {
      ord := bigmant.Compare(digits);
    }
  }

  /** Multiplies whichever side is short of factors of two. */
  method Align(bigmant: BigInt, digits: BigInt, pow2: int) returns (ok: bool)
    requires bigmant.Valid() && bigmant.IsNormalized() && bigmant.Value() != 0
    requires digits.Valid() && digits.IsNormalized() && digits.Value() != 0
    requires bigmant != digits && bigmant.data != digits.data
    modifies bigmant`len, bigmant.data, digits`len, digits.data
    ensures bigmant.Valid() && digits.Valid()
    ensures pow2 >= 0 ==> (ok <==> Scale(old(digits.Value()), Two, pow2) < Capacity())
    ensures pow2 < 0 ==> (ok <==> Scale(old(bigmant.Value()), Two, -pow2) < Capacity())
    ensures ok ==> bigmant.IsNormalized() && digits.IsNormalized()
    ensures ok && pow2 >= 0 ==> bigmant.Value() == old(bigmant.Value()) && digits.Value() == Scale(old(digits.Value()), Two, pow2)
    ensures ok && pow2 < 0 ==> bigmant.Value() == Scale(old(bigmant.Value()), Two, -pow2) && digits.Value() == old(digits.Value())
  {
    ok := true;
    if pow2 > 0 {
      ok := digits.Shl(pow2);
    } else if pow2 < 0 {
      ok := bigmant.Shl(-pow2);
    } else {
      FitsIffSmall(digits.Contents(), LIMB_COUNT);
    }
  }

  /**
   * ffc_negative_digit_comp for the decimal bigmant / 10^k. The approximation am fixes a number b by rounding down;
   * if the nearest number is b or the one after it, the exact comparison returns the nearest number.
   */
  method NegativeDigitComp(fmt: Format, bigmant: BigInt, am: AdjustedMantissa, k: nat)
    returns (answer: AdjustedMantissa, ok: bool, ghost n: Num, ghost b: Num, ghost q: nat, ghost low: nat)
    requires fmt.Valid() && 0 < k && 0x8000_0000_0000_0000 <= am.mantissa
    requires bigmant.Valid() && bigmant.IsNormalized() && bigmant.Value() != 0
    modifies bigmant`len, bigmant.data
    ensures am.mantissa == Scale(q, Two, CoreShift(fmt, am.power2)) + low && low < Scale(1, Two, CoreShift(fmt, am.power2))
    ensures q < 2 * fmt.Hidden() && (q < fmt.Hidden() ==> CoreExponent(fmt, am.power2) == 1)
    ensures b == Cap(fmt, Pack(fmt, q, CoreExponent(fmt, am.power2)))
    ensures ok <==> ComparisonFits(fmt, b, old(bigmant.Value()), k)
    ensures ok ==> Represents(fmt, answer, n) && (n == b || n == Next(fmt, b))
    ensures var x := Units(fmt, old(bigmant.Value()));
            ok && (Nearest(fmt, b, x, k) || Nearest(fmt, Next(fmt, b), x, k)) ==> Nearest(fmt, n, x, k)
  {
    ghost var x := Units(fmt, bigmant.Value());
    var down;
    down, q, low := RoundDown(fmt, am);
    ghost var e := CoreExponent(fmt, am.power2);
    b := Cap(fmt, Pack(fmt, q, e));
    PackFacts(fmt, q, e);
    var sign, value := AmToFloat(fmt, false, down, b);
    var ord;
    ord, ok := CompareWithHalfway(fmt, bigmant, value, k);
    ghost var q2, low2;
    answer, q2, low2 := RoundTieEvenCmp(fmt, am, ord);
    ShiftUnique(am.mantissa, q, low, CoreShift(fmt, am.power2));
    ShiftUnique(am.mantissa, q2, low2, CoreShift(fmt, am.power2));
    ghost var up := ord > 0 || (ord == 0 && q % 2 == 1);
    n := Cap(fmt, Pack(fmt, q + if up then 1 else 0, e));
    if ok {
      NegativeRound(fmt, q, e, x, k, up);
    }
  }

  lemma NegativeRound(fmt: Format, q: nat, e: nat, x: nat, k: nat, up: bool)
    requires fmt.Valid() && 1 <= e && q < 2 * fmt.Hidden() && (q < fmt.Hidden() ==> e == 1)
    requires var b := Cap(fmt, Pack(fmt, q, e));
             var mid := Scaled(fmt, b, k) + Scaled(fmt, Next(fmt, b), k);
             up <==> 2 * x > mid || (2 * x == mid && q % 2 == 1)
    ensures var b, n := Cap(fmt, Pack(fmt, q, e)), Cap(fmt, Pack(fmt, q + if up then 1 else 0, e));
            && (n == b || n == Next(fmt, b))
            && (Nearest(fmt, b, x, k) || Nearest(fmt, Next(fmt, b), x, k) ==> Nearest(fmt, n, x, k))
  {
    var b := Cap(fmt, Pack(fmt, q, e));
    PackFacts(fmt, q, e);
    if b != Infinity(fmt) {
      if Nearest(fmt, b, x, k) || Nearest(fmt, Next(fmt, b), x, k) {
        MidpointDecides(fmt, b, x, k, up);
      }
    }
  }
}
