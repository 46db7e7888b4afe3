/** ffc_compute_float where its table is exact: w * 10^q for 0 <= q <= 27. */
module ComputeFloat {
  import opened Powers
  import opened Words
  import opened Fives
  import opened Ieee
  import opened Rounding
  import opened DigitComp
  import opened Decimals

  /** The high words of FFC_POWERS_OF_FIVE for q = 0..27; the low words are zero. */
  const TABLE: seq<U64> := [
    0x8000000000000000, 0xa000000000000000, 0xc800000000000000, 0xfa00000000000000, 0x9c40000000000000,
    0xc350000000000000, 0xf424000000000000, 0x9896800000000000, 0xbebc200000000000, 0xee6b280000000000,
    0x9502f90000000000, 0xba43b74000000000, 0xe8d4a51000000000, 0x9184e72a00000000, 0xb5e620f480000000,
    0xe35fa931a0000000, 0x8e1bc9bf04000000, 0xb1a2bc2ec5000000, 0xde0b6b3a76400000, 0x8ac7230489e80000,
    0xad78ebc5ac620000, 0xd8d726b7177a8000, 0x878678326eac9000, 0xa968163f0a57b400, 0xd3c21bcecceda100,
    0x84595161401484a0, 0xa56fa5b99019a5c8, 0xcecb8f27f4200f3a]

  const TABLE_LOW: U64 := 0

  /** ffc_b10_to_b2 without its constant: q plus the binary logarithm of 5^q, rounded down. */
  function Log2Pow10(q: nat): nat { (152170 + 65536) * q / 65536 }

  /** The position of the top bit of 5^q. */
  function Log2Pow5(q: nat): int { Log2Pow10(q) - q }

  lemma TableStep(q: nat)
    requires q < 27
    ensures Log2Pow5(q + 1) == Log2Pow5(q) + 2 ==> 5 * (TABLE[q] as int) == 4 * (TABLE[q + 1] as int)
    ensures Log2Pow5(q + 1) == Log2Pow5(q) + 3 ==> 5 * (TABLE[q] as int) == 8 * (TABLE[q + 1] as int)
    ensures Log2Pow5(q + 1) == Log2Pow5(q) + 2 || Log2Pow5(q + 1) == Log2Pow5(q) + 3
    ensures 0x8000_0000_0000_0000 <= TABLE[q + 1]
  {
    if q < 9 {
      assert q in {0, 1, 2, 3, 4, 5, 6, 7, 8};
    } else if q < 18 {
      assert q in {9, 10, 11, 12, 13, 14, 15, 16, 17};
    } else {
      assert q in {18, 19, 20, 21, 22, 23, 24, 25, 26};
    }
  }

  lemma {:induction false} Log2Range(q: nat)
    requires q <= 27
    ensures 0 <= Log2Pow5(q) <= 62
  {
  }

  /** The table holds 5^q shifted until its top bit is bit 63. */
  lemma {:induction false} TableValue(q: nat)
    requires q <= 27
    ensures 0 <= Log2Pow5(q) <= 62
    ensures TABLE[q] == Scale(Scale(1, Five, q), Two, 63 - Log2Pow5(q)) && 0x8000_0000_0000_0000 <= TABLE[q]
  {
    Log2Range(q);
    if q == 0 {
      TopBit(63 - Log2Pow5(q));
    } else {
      TableValue(q - 1);
      TableStep(q - 1);
      var d := Log2Pow5(q) - Log2Pow5(q - 1);
      TableAdvance(Scale(1, Five, q - 1), Log2Pow5(q - 1), d, TABLE[q - 1], TABLE[q]);
    }
  }

  lemma TableAdvance(p: nat, l: nat, d: nat, t: nat, t': nat)
    requires (d == 2 && 5 * t == 4 * t') || (d == 3 && 5 * t == 8 * t')
    requires l + d <= 63 && t == Scale(p, Two, 63 - l)
    ensures t' == Scale(5 * p, Two, 63 - l - d)
  {
    var y := Scale(5 * p, Two, 63 - l - d);
    ScaleCompose(5 * p, Two, 63 - l - d, d);
    ScaleStep(p, Two, 63 - l, Five);
    assert Scale(y, Two, d) == 5 * t;
    assert Scale(y, Two, d) == if d == 2 then 4 * y else 8 * y by { SmallShift(y, d); }
  }

  lemma SmallShift(y: nat, d: nat)
    requires d == 2 || d == 3
    ensures Scale(y, Two, d) == if d == 2 then 4 * y else 8 * y
  {
    assert Scale(y, Two, d - 2) == if d == 2 then y else 2 * y;
    assert Scale(y, Two, d - 1) == 2 * Scale(y, Two, d - 2);
  }

  /** ffc_mul_u64: the portable 64 x 64 -> 128 bit product. */
  method MulU64(a: U64, b: U64) returns (r: U128)
    ensures r.high * W64 + r.low == a * b
  {
    var a0, a1, b0, b1 := a % W32, a / W32, b % W32, b / W32;
    Umul128Bounds(a1, a0, b1, b0);
    CrossProducts(a1, a0, b1, b0);
    var high, low := MulWords(a0 * b0, a1 * b0, a0 * b1, a1 * b1, a * b);
    r := U128(low, high);
  }

  /** Adds the four partial products; p is the full product they make up. */
  method MulWords(p00: nat, p10: nat, p01: nat, p11: nat, p: nat) returns (high: U64, low: U64)
    requires p00 <= 0xFFFF_FFFE_0000_0001 && p10 <= 0xFFFF_FFFE_0000_0001
    requires p01 <= 0xFFFF_FFFE_0000_0001 && p11 <= 0xFFFF_FFFE_0000_0001
    requires p == p11 * W64 + (p10 + p01) * W32 + p00
    ensures high * W64 + low == p
  {
    var w0: U64 := p00;
    var t: U64 := p10 + w0 / W32;
    var w1: U64 := t % W32;
    var w2 := t / W32;
    w1 := w1 + p01;
    low := p % W64;
    high := p11 + w2 + w1 / W32;
  }

  /** ffc_compute_product_approximation: with a zero low table word the first product is the whole product. */
  method ProductApproximation(fmt: Format, q: nat, w: U64) returns (product: U128)
    requires fmt.Valid() && q <= 27
    ensures product.high * W64 + product.low == w * TABLE[q]
  {
    var precisionMask := Shr(0xFFFF_FFFF_FFFF_FFFF, fmt.mantissaBits + 3);
    var first := MulU64(w, TABLE[q]);
    product := first;
    if And(first.high, precisionMask) == precisionMask {
      var second := MulU64(w, TABLE_LOW);
      var low := Add64(first.low, second.high);
      var high := if second.high > low then first.high + 1 else first.high;
      product := U128(low, high);
    }
  }

  // ---- ties ----

  lemma {:induction false} FivesAreOdd(z: nat, q: nat)
    ensures Scale(z, Five, q) % 2 == z % 2
    decreases q
  {
    if q > 0 {
      FivesAreOdd(z, q - 1);
      FiveIsOdd(Scale(z, Five, q - 1));
    }
  }

  lemma FiveIsOdd(y: nat)
    ensures (5 * y) % 2 == y % 2
  {
    ModShift(y, 2, 2 * y);
  }

  /** A multiple of 5^q that is m * 2^j has m itself a multiple of 5^q. */
  lemma {:induction false} FivesInOddPart(z: nat, q: nat, m: nat, j: nat) returns (z': nat)
    requires Scale(z, Five, q) == Scale(m, Two, j)
    ensures Scale(z', Five, q) == m
    decreases j
  {
    if j == 0 {
      z' := z;
    } else {
      HalveFives(z, q, Scale(m, Two, j - 1));
      z' := FivesInOddPart(z / 2, q, m, j - 1);
    }
  }

  lemma HalveFives(z: nat, q: nat, y: nat)
    requires Scale(z, Five, q) == 2 * y
    ensures Scale(z / 2, Five, q) == y
  {
    FivesAreOdd(z, q);
    var half := z / 2;
    assert z == half + half;
    ScaleSum(half, half, Five, q);
  }

  /** If w * 5^q * 2^a is m * 2^b then 5^q <= m: exact ties need a small power of five. */
  lemma TieNeedsSmallPower(w: nat, q: nat, a: nat, m: nat, b: nat)
    requires 0 < w && Scale(Scale(w, Five, q), Two, a) == Scale(m, Two, b) && 0 < m
    ensures Scale(1, Five, q) <= m
  {
    var z := w;
    if a >= b {
      z := Scale(w, Two, a - b);
      ScaleSwap(w, Five, q, Two, a - b);
      ScaleCompose(Scale(w, Five, q), Two, a - b, b);
      ScaleOrder(Scale(z, Five, q), m, Two, b);
      ScalePositive(w, Two, a - b);
    } else {
      ScaleCompose(m, Two, b - a, a);
      ScaleOrder(Scale(w, Five, q), Scale(m, Two, b - a), Two, a);
      z := FivesInOddPart(w, q, m, b - a);
      ScaleZero(Five, q);
    }
    ScaleMonotone(1, z, Five, q);
  }

  // ---- the conversion ----

  /** The constant FFC_*_MAX_EXPONENT_ROUND_TO_EVEN is large enough to cover every tie. */
  predicate CoversTies(fmt: Format, maxTie: nat)
  {
    4 * fmt.Hidden() <= Scale(1, Five, maxTie + 1)
  }

  /** Both kinds: 23 for doubles, 10 for floats. */
  lemma KindsCoverTies()
    ensures DOUBLE.Valid() && FLOAT.Valid() && CoversTies(DOUBLE, 23) && CoversTies(FLOAT, 10)
  {
    TiesCovered(DOUBLE, 23, 24);
    TiesCovered(FLOAT, 10, 11);
  }

  lemma TiesCovered(fmt: Format, maxTie: nat, k: nat)
    requires (fmt == DOUBLE && maxTie == 23) || (fmt == FLOAT && maxTie == 10)
    requires k == maxTie + 1
    ensures CoversTies(fmt, maxTie)
  {
    SmallPowerValue(k);
    if fmt == DOUBLE {
      HiddenOfDouble(fmt.mantissaBits);
    } else {
      HiddenOfFloat(fmt.mantissaBits);
    }
  }

  lemma HiddenOfDouble(k: nat)
    requires k == 52
    ensures Scale(1, Two, k) == 0x10_0000_0000_0000
  {
    ThirtyTwoDoublings(1);
    SixteenDoublings(0x1_0000_0000);
    FourDoublings(0x1_0000_0000_0000);
    ScaleCompose(1, Two, 32, 16);
    ScaleCompose(1, Two, 48, 4);
  }

  lemma HiddenOfFloat(k: nat)
    requires k == 23
    ensures Scale(1, Two, k) == 0x80_0000
  {
    SixteenDoublings(1);
    FourDoublings(0x1_0000);
    ScaleCompose(1, Two, 16, 4);
    SmallShift(0x10_0000, 3);
    ScaleCompose(1, Two, 20, 3);
  }

  /** Below the smallest power every 64-bit mantissa is nearer to zero than to a number, above the largest none is finite. */
  ghost predicate PowerLimits(fmt: Format)
    requires fmt.Valid()
  {
    && fmt.smallestPower < 0 && 27 < fmt.largestPower
    && Scale(W64, Two, fmt.Bias()) <= Scale(1, Ten, 1 - fmt.smallestPower)
    && Magnitude(fmt, Infinity(fmt)) <= Units(fmt, Scale(1, Ten, fmt.largestPower + 1))
  }

  /** The result is decided without the rounded entries of the power table. */
  predicate Reachable(fmt: Format, w: nat, q: int)
  {
    w == 0 || q < fmt.smallestPower || 0 <= q <= 27 || fmt.largestPower < q
  }

  /**
   * ffc_compute_float for a 64-bit w, wherever the exact part of the table reaches: the result is the nearest number to
   * w * 10^q, ties, zero and infinity included.
   */
  method Compute(fmt: Format, maxTie: nat, q: int, w: U64) returns (answer: AdjustedMantissa, ghost n: Num)
    requires fmt.Valid() && CoversTies(fmt, maxTie) && PowerLimits(fmt) && Reachable(fmt, w, q)
    ensures Represents(fmt, answer, n) && Rounds(fmt, n, w, q)
    ensures q < fmt.smallestPower ==> answer == AM(0, 0)
    ensures fmt.largestPower < q && w != 0 ==> answer == AM(0, fmt.infinitePower)
  {
    if w == 0 || q < fmt.smallestPower {
      UnderflowIsNearest(fmt, w, q);
      return AM(0, 0), ZERO;
    }
    if q > fmt.largestPower {
      OverflowIsNearest(fmt, w, q);
      return AM(0, fmt.infinitePower), Infinity(fmt);
    }
    answer, n := ComputeInTable(fmt, maxTie, q, w);
    RoundsWhole(fmt, n, w, q);
  }

  lemma UnderflowIsNearest(fmt: Format, w: U64, q: int)
    requires fmt.Valid() && PowerLimits(fmt) && (w == 0 || q < fmt.smallestPower)
    ensures Rounds(fmt, ZERO, w, q)
  {
    if w == 0 {
      if q >= 0 {
        ZeroIsNearest(fmt, q, 0);
      } else {
        ZeroIsNearest(fmt, 0, -q);
      }
    } else {
      ScaleStrict(w, W64, Two, fmt.Bias());
      ScaleGrows(1, Ten, 1 - fmt.smallestPower, -q);
      assert Magnitude(fmt, Next(fmt, ZERO)) == 1;
      ScaleZero(Ten, -q);
      BasinIsNearest(fmt, ZERO, Units(fmt, w), -q);
    }
  }

  lemma OverflowIsNearest(fmt: Format, w: nat, q: nat)
    requires fmt.Valid() && PowerLimits(fmt) && 0 < w && fmt.largestPower < q
    ensures Rounds(fmt, Infinity(fmt), w, q)
  {
    ScaleGrows(1, Ten, fmt.largestPower + 1, q);
    ScaleMonotone(1, w, Ten, q);
    ScaleMonotone(Scale(1, Ten, fmt.largestPower + 1), Scale(w, Ten, q), Two, fmt.Bias() - 1);
    AtLeastInfinity(fmt, Units(fmt, Scale(w, Ten, q)), 0);
  }

  method ComputeInTable(fmt: Format, maxTie: nat, q: nat, w: U64) returns (answer: AdjustedMantissa, ghost n: Num)
    requires fmt.Valid() && CoversTies(fmt, maxTie) && q <= 27 && w != 0
    ensures Represents(fmt, answer, n)
    ensures Nearest(fmt, n, Units(fmt, Scale(w, Ten, q)), 0)
  {
    var lz := CountLeadingZeroes(w);
    var w' := Shl64(w, lz);
    ModSmall(Scale(w, Two, lz), W64);
    var product := ProductApproximation(fmt, q, w');
    ghost var p := product.high * W64 + product.low;
    ProductValue(w, w', lz, q, p);
    TopWord(product.high, product.low, p);
    answer, n := RoundProduct(fmt, maxTie, q, w, lz, product);
  }

  lemma ZeroIsNearest(fmt: Format, q: nat, k: nat)
    requires fmt.Valid()
    ensures Nearest(fmt, ZERO, Units(fmt, Scale(0, Ten, q)), k)
  {
    ScaleZero(Ten, q);
    ScaleZero(Two, fmt.Bias() - 1);
    ScaledIncreasing(fmt, ZERO, Next(fmt, ZERO), k);
    BasinIsNearest(fmt, ZERO, 0, k);
  }

  /** The rounding half of ffc_compute_float, on the exact 128-bit product. */
  method RoundProduct(fmt: Format, maxTie: nat, q: nat, ghost w: nat, lz: nat, product: U128)
    returns (answer: AdjustedMantissa, ghost n: Num)
    requires fmt.Valid() && CoversTies(fmt, maxTie) && q <= 27 && w != 0 && lz < 64 && 0 <= Log2Pow5(q) <= 62
    requires product.high * W64 + product.low == Scale(Scale(w, Five, q), Two, lz + 63 - Log2Pow5(q))
    requires 0x4000_0000_0000_0000 <= product.high && product.low % 2 == 0
    ensures Represents(fmt, answer, n)
    ensures Nearest(fmt, n, Units(fmt, Scale(w, Ten, q)), 0)
  {
    var upperbit := product.high / 0x8000_0000_0000_0000;
    var shift := upperbit + 61 - fmt.mantissaBits;
    var m: U64;
    ghost var hl;
    m, hl := ShiftDown(product.high, shift);
    var power2 := Log2Pow10(q) + 63 + upperbit - lz - fmt.minimumExponent;
    MantissaRange(fmt, product.high, upperbit, shift, m, hl);
    ghost var p, a, r0 := product.high * W64 + product.low, lz + 63 - Log2Pow5(q), hl * W64 + product.low;
    ProductSplit(product.high, product.low, m, hl, shift, p);
    TieTest(fmt, maxTie, w, q, a, m, hl, product.low, shift, p);
    HiddenFits(fmt);
    var mantissa := DropExtraBit(maxTie, q, product, m, shift, hl);
    FloatDecides(fmt, w, q, a, p, m, r0, shift, power2, m % 2 == 1 && (r0 != 0 || (m / 2) % 2 == 1));
    answer := RoundFinish(fmt, AM(mantissa, power2));
    n := Cap(fmt, Pack(fmt, mantissa, power2));
  }

  /** Rounds the extra bit away: up when it is set, except where the tie test clears it first. */
  method DropExtraBit(maxTie: nat, q: nat, product: U128, m: U64, shift: nat, ghost hl: nat) returns (mantissa: U64)
    requires m < 0x8000_0000_0000_0000 && product.high == Scale(m, Two, shift) + hl
    requires product.low <= 1 && q <= maxTie && hl == 0 <==> hl * W64 + product.low == 0
    ensures mantissa == m / 2 + if m % 2 == 1 && (hl * W64 + product.low != 0 || (m / 2) % 2 == 1) then 1 else 0
  {
    mantissa := m;
    Shl64Exact(m, shift, product.high, hl);
    if product.low <= 1 && q <= maxTie && m % 4 == 1 && Shl64(m, shift) == product.high {
      mantissa := mantissa - 1;
    }
    ExtraBit(m, hl * W64 + product.low == 0);
    mantissa := mantissa + mantissa % 2;
    mantissa := mantissa / 2;
  }

  /** Clearing a lone extra bit at a tie and then rounding up rounds to even. */
  lemma ExtraBit(m: nat, tie: bool)
    ensures var m' := if tie && m % 4 == 1 then m - 1 else m;
            (m' + m' % 2) / 2 == m / 2 + if m % 2 == 1 && (!tie || (m / 2) % 2 == 1) then 1 else 0
  {
    var k, r := m / 4, m % 4;
    assert m == 4 * k + r;
    DivModUnique(m, 2, 2 * k + r / 2, r % 2);
    DivModUnique(2 * k + r / 2, 2, k, r / 2);
    if r == 1 {
      DivModUnique(4 * k, 2, 2 * k, 0);
    }
  }

  lemma ProductValue(w: U64, w': nat, lz: nat, q: nat, p: nat)
    requires q <= 27 && w' == Scale(w, Two, lz) && 0x8000_0000_0000_0000 <= w' < W64
    requires p == w' * TABLE[q]
    ensures 0 <= Log2Pow5(q) <= 62
    ensures p == Scale(Scale(w, Five, q), Two, lz + 63 - Log2Pow5(q))
    ensures 0x4000_0000_0000_0000_0000_0000_0000_0000 <= p
    ensures p % 2 == 0
  {
    TableValue(q);
    var k := 63 - Log2Pow5(q);
    ProductExact(w, w', lz, q, k, TABLE[q], p);
    BothHalves(w', TABLE[q], p);
    assert Scale(Scale(w, Five, q), Two, lz + k) == 2 * Scale(Scale(w, Five, q), Two, lz + k - 1);
  }

  lemma TopWord(high: nat, low: U64, p: nat)
    requires p == high * W64 + low && 0x4000_0000_0000_0000_0000_0000_0000_0000 <= p && p % 2 == 0
    ensures 0x4000_0000_0000_0000 <= high && low % 2 == 0
  {
  }

  lemma BothHalves(x: nat, y: nat, p: nat)
    requires 0x8000_0000_0000_0000 <= x && 0x8000_0000_0000_0000 <= y && p == x * y
    ensures 0x4000_0000_0000_0000_0000_0000_0000_0000 <= p
  {
    MulMonotone(0x8000_0000_0000_0000, x, y);
  }

  lemma ProductExact(w: nat, w': nat, lz: nat, q: nat, k: nat, t: nat, p: nat)
    requires w' == Scale(w, Two, lz) && t == Scale(Scale(1, Five, q), Two, k) && p == w' * t
    ensures p == Scale(Scale(w, Five, q), Two, lz + k)
  {
    ScaleMul(w', Scale(1, Five, q), Two, k);
    ScaleMul(w', 1, Five, q);
    ScaleSwap(w, Two, lz, Five, q);
    ScaleCompose(Scale(w, Five, q), Two, lz, k);
  }

  lemma MantissaRange(fmt: Format, high: U64, upperbit: nat, shift: nat, m: nat, hl: nat)
    requires fmt.Valid() && 0x4000_0000_0000_0000 <= high && upperbit == high / 0x8000_0000_0000_0000
    requires shift == upperbit + 61 - fmt.mantissaBits
    requires high == Scale(m, Two, shift) + hl && hl < Scale(1, Two, shift)
    ensures 2 * fmt.Hidden() <= m < 4 * fmt.Hidden()
  {
    var mb := fmt.mantissaBits;
    // high lies in [2^(62 + upperbit), 2^(63 + upperbit))
    TwoToThe62(62 + upperbit);
    TwoToThe62(63 + upperbit);
    PowScale(mb + 1, shift);
    PowScale(mb + 2, shift);
    ScaleSum(m, 1, Two, shift);
    if m < Scale(1, Two, mb + 1) {
      ScaleMonotone(m + 1, Scale(1, Two, mb + 1), Two, shift);
    }
    if Scale(1, Two, mb + 2) <= m {
      ScaleMonotone(Scale(1, Two, mb + 2), m, Two, shift);
    }
  }

  lemma TwoToThe62(k: nat)
    requires 62 <= k <= 64
    ensures Scale(1, Two, k) == if k == 62 then 0x4000_0000_0000_0000 else if k == 63 then 0x8000_0000_0000_0000 else W64
  {
    PowersOfTwo();
  }

  /** The full product, split below the 64-bit mantissa. */
  lemma ProductSplit(high: nat, low: nat, m: nat, hl: nat, shift: nat, p: nat)
    requires p == high * W64 + low && low < W64 && high == Scale(m, Two, shift) + hl && hl < Scale(1, Two, shift)
    ensures p == Scale(m, Two, shift + 64) + (hl * W64 + low)
    ensures hl * W64 + low < Scale(1, Two, shift + 64)
  {
    SixtyFourDoublings(Scale(m, Two, shift));
    ScaleCompose(m, Two, shift, 64);
    SixtyFourDoublings(Scale(1, Two, shift));
    ScaleCompose(1, Two, shift, 64);
  }

  /** The code's three conditions hold exactly at a tie. */
  lemma TieTest(fmt: Format, maxTie: nat, w: nat, q: nat, a: nat, m: nat, hl: nat, low: nat, shift: nat, p: nat)
    requires CoversTies(fmt, maxTie) && 0 < w && 2 * fmt.Hidden() <= m < 4 * fmt.Hidden()
    requires p == Scale(Scale(w, Five, q), Two, a) && low % 2 == 0
    requires p == Scale(m, Two, shift + 64) + (hl * W64 + low)
    ensures low <= 1 && q <= maxTie && hl == 0 <==> hl * W64 + low == 0
  {
    if hl * W64 + low == 0 {
      TieNeedsSmallPower(w, q, a, m, shift + 64);
      if maxTie < q {
        ScaleGrows(1, Five, maxTie + 1, q);
      }
    }
  }

  /** (mantissa << shift) == high exactly when the shift dropped only zeros. */
  lemma Shl64Exact(m: nat, shift: nat, high: U64, hl: nat)
    requires high == Scale(m, Two, shift) + hl
    ensures Shl64(m, shift) == high <==> hl == 0
  {
    ModSmall(Scale(m, Two, shift), W64);
  }

  /** Rounding the two extra bits to even rounds the decimal to nearest. */
  lemma FloatDecides(fmt: Format, w: nat, q: nat, a: nat, p: nat, m: nat, r0: nat, shift: nat, e: nat, up: bool)
    requires fmt.Valid() && 2 * fmt.Hidden() <= m < 4 * fmt.Hidden() && 1 <= e
    requires p == Scale(Scale(w, Five, q), Two, a)
    requires p == Scale(m, Two, shift + 64) + r0 && r0 < Scale(1, Two, shift + 64)
    requires e + a == shift + 65 + q + fmt.Bias()
    requires up <==> m % 2 == 1 && (r0 != 0 || (m / 2) % 2 == 1)
    ensures Nearest(fmt, Cap(fmt, Pack(fmt, m / 2 + if up then 1 else 0, e)), Units(fmt, Scale(w, Ten, q)), 0)
  {
    var c, k := q + fmt.Bias() - 1, shift + 64;
    var sig, x := m / 2, Units(fmt, Scale(w, Ten, q));
    var r := r0 + if m % 2 == 1 then Scale(1, Two, k) else 0;
    HalveMantissa(p, m, r0, k);
    assert Scale(x, Two, a) == Scale(p, Two, c) by { AlignUnits(fmt, w, q, a); }
    ScaleSum(Scale(sig, Two, k + 1), r, Two, c);
    ScaleCompose(sig, Two, k + 1, c);
    ScaleStrict(r, Scale(1, Two, k + 1), Two, c);
    ScaleCompose(1, Two, k + 1, c);
    ScaleSum(r, r, Two, c);
    ScaleOrder(2 * r, Scale(1, Two, k + 1), Two, c);
    assert e - 1 + a == k + 1 + c;
    RemainderDecides(fmt, x, a, sig, e, Scale(r, Two, c), up);
  }

  lemma HalveMantissa(p: nat, m: nat, r0: nat, k: nat)
    requires p == Scale(m, Two, k) + r0 && r0 < Scale(1, Two, k)
    ensures var r := r0 + if m % 2 == 1 then Scale(1, Two, k) else 0;
            && p == Scale(m / 2, Two, k + 1) + r
            && r < Scale(1, Two, k + 1)
            && (2 * r > Scale(1, Two, k + 1) <==> m % 2 == 1 && r0 > 0)
            && (2 * r == Scale(1, Two, k + 1) <==> m % 2 == 1 && r0 == 0)
  {
    ScaleSum(m / 2, m / 2, Two, k);
    if m % 2 == 1 {
      ScaleSum(m / 2 + m / 2, 1, Two, k);
    }
  }

  lemma AlignUnits(fmt: Format, w: nat, q: nat, a: nat)
    requires fmt.Valid()
    ensures Scale(Units(fmt, Scale(w, Ten, q)), Two, a) == Scale(Scale(Scale(w, Five, q), Two, a), Two, q + fmt.Bias() - 1)
  {
    var w5, b := Scale(w, Five, q), fmt.Bias() - 1;
    ScaleTen(w, q);
    ScaleCompose(w5, Two, q, b);
    ScaleCompose(w5, Two, q + b, a);
    ScaleCompose(w5, Two, a, q + b);
  }
}
