/** From a 64-bit mantissa to a packed number: ffc_round_* and ffc_am_to_float. */
module Rounding {
  import opened Powers
  import opened Words
  import opened Ieee

  /** ffc_adjusted_mantissa: the number mantissa * 2^(power2 - bias). */
  datatype AdjustedMantissa = AM(mantissa: U64, power2: int)

  /** What a rounded mantissa with its exponent packs to. */
  predicate Represents(fmt: Format, am: AdjustedMantissa, n: Num)
  {
    || (am.mantissa < fmt.Hidden() && n == Num(n.e, am.mantissa) && n.e == am.power2)
    || (am.mantissa == fmt.Hidden() && am.power2 == 1 && n == Num(1, 0))
  }

  /** ffc_am_to_float: mantissa, shifted exponent and sign or'ed into a word, read back as fields. */
  method AmToFloat(fmt: Format, negative: bool, am: AdjustedMantissa, ghost n: Num) returns (sign: bool, r: Num)
    requires fmt.Valid() && IsNum(fmt, n) && Represents(fmt, am, n)
    ensures sign == negative && r == n
  {
    var mb, si := fmt.mantissaBits, fmt.signIndex;
    var unsigned;
    unsigned, r := PackFields(fmt, am, n);
    BelowSign(fmt, n);
    var bit := if negative then 1 else 0;
    OrDisjoint(bit, unsigned, si);
    var word := Or(unsigned, Scale(bit, Two, si));
    ShiftUnique(word, bit, unsigned, si);
    sign := Shr(word, si) == 1;
    r := Num(Shr(LowBits(word, si), mb), LowBits(LowBits(word, si), mb));
  }

  /** The fields of a number leave the sign bit free. */
  lemma BelowSign(fmt: Format, n: Num)
    requires fmt.Valid() && IsNum(fmt, n)
    ensures Scale(n.e, Two, fmt.mantissaBits) + n.f < Scale(1, Two, fmt.signIndex)
  {
    var mb := fmt.mantissaBits;
    ScaleSum(n.e, 1, Two, mb);
    ScaleMonotone(n.e + 1, Scale(1, Two, fmt.signIndex - mb), Two, mb);
    ScaleCompose(1, Two, fmt.signIndex - mb, mb);
  }

  /** The mantissa or'ed with the shifted exponent. */
  method PackFields(fmt: Format, am: AdjustedMantissa, ghost n: Num) returns (word: nat, r: Num)
    requires fmt.Valid() && Represents(fmt, am, n)
    ensures word == Scale(n.e, Two, fmt.mantissaBits) + n.f && r == n
    ensures r == Num(Shr(word, fmt.mantissaBits), LowBits(word, fmt.mantissaBits))
  {
    var mb := fmt.mantissaBits;
    word := Or(am.mantissa, Scale(am.power2, Two, mb));
    if am.mantissa < fmt.Hidden() {
      OrDisjoint(am.power2, am.mantissa, mb);
      ShiftUnique(word, am.power2, am.mantissa, mb);
    } else {
      OrSame(am.mantissa);
      ShiftUnique(word, 1, 0, mb);
    }
    r := Num(Shr(word, mb), LowBits(word, mb));
  }

  lemma {:induction false} OrSame(x: nat)
    ensures Or(x, x) == x
    decreases x
  {
    if x > 0 {
      OrSame(x / 2);
    }
  }

  /** The number q * 2^(e - 1) smallest subnormals, for a significand q that may have just carried out. */
  function Pack(fmt: Format, q: nat, e: nat): Num
    requires 1 <= e && q <= 2 * fmt.Hidden() && (q < fmt.Hidden() ==> e == 1)
  {
    var h := fmt.Hidden();
    if q < h then Num(0, q) else if q < 2 * h then Num(e, q - h) else Num(e + 1, 0)
  }

  lemma PackMagnitude(fmt: Format, q: nat, e: nat)
    requires 1 <= e && q <= 2 * fmt.Hidden() && (q < fmt.Hidden() ==> e == 1)
    ensures Magnitude(fmt, Pack(fmt, q, e)) == Scale(q, Two, e - 1)
  {
    if q == 2 * fmt.Hidden() {
      BinadeStart(fmt.Hidden(), e);
    }
  }

  lemma PackFacts(fmt: Format, q: nat, e: nat)
    requires fmt.Valid() && 1 <= e && q < 2 * fmt.Hidden() && (q < fmt.Hidden() ==> e == 1)
    ensures Pack(fmt, q, e).f < fmt.Hidden()
    ensures Next(fmt, Pack(fmt, q, e)) == Pack(fmt, q + 1, e)
    ensures Pack(fmt, q, e).Even() <==> q % 2 == 0
  {
    HiddenEven(fmt);
  }

  /** Overflow goes to infinity. */
  function Cap(fmt: Format, n: Num): Num
  {
    if n.e >= fmt.infinitePower then Infinity(fmt) else n
  }

  // ---- the shifting steps ----

  /** mantissa >> shift, with the width-64 shift the code special-cases. */
  method ShiftDown(m: U64, shift: nat) returns (q: U64, ghost low: nat)
    requires shift <= 64
    ensures m == Scale(q, Two, shift) + low && low < Scale(1, Two, shift) && low == LowBits(m, shift)
    ensures q < Scale(1, Two, 64 - shift)
  {
    ShiftSplit(m, shift);
    QuotientBound(m, shift);
    low := LowBits(m, shift);
    if shift == 64 {
      q := 0;
    } else {
      q := Shr(m, shift);
    }
  }

  lemma QuotientBound(m: U64, shift: nat)
    requires shift <= 64
    ensures Shr(m, shift) < Scale(1, Two, 64 - shift) && Shr(m, shift) <= m
    ensures shift == 64 ==> Shr(m, shift) == 0
  {
    PowersOfTwo();
    ShrBelow(m, 64 - shift, shift);
    ShiftSplit(m, shift);
    ScaleGrows(Shr(m, shift), Two, 0, shift);
  }

  /** Round up when the dropped part is above half, or at half with more below it, or at half with q odd. */
  predicate RoundsUp(q: nat, low: nat, shift: nat, truncated: bool)
    requires 0 < shift
  {
    var half := Scale(1, Two, shift - 1);
    low > half || (low == half && (truncated || q % 2 == 1))
  }

  /** ffc_round_nearest_tie_even_truncated. */
  method RoundNearestTieEvenTruncated(am: AdjustedMantissa, shift: nat, truncated: bool)
    returns (r: AdjustedMantissa, ghost q: nat, ghost low: nat)
    requires 1 <= shift <= 64
    ensures am.mantissa == Scale(q, Two, shift) + low && low < Scale(1, Two, shift) && q < Scale(1, Two, 64 - shift)
    ensures r.mantissa == q + if RoundsUp(q, low, shift, truncated) then 1 else 0
    ensures r.power2 == am.power2 + shift
  {
    PowersOfTwo();
    ScalePositive(1, Two, shift);
    var mask := if shift == 64 then 0xFFFF_FFFF_FFFF_FFFF else Scale(1, Two, shift) - 1;
    var halfway := Scale(1, Two, shift - 1);
    AndMask(am.mantissa, shift);
    var truncatedBits := And(am.mantissa, mask);
    var isAbove := truncatedBits > halfway;
    var isHalfway := truncatedBits == halfway;
    var m: U64;
    m, low := ShiftDown(am.mantissa, shift);
    q := m;
    HalfRange(64 - shift);
    var isOdd := m % 2 == 1;
    r := AM(m + if isAbove || (isHalfway && truncated) || (isOdd && isHalfway) then 1 else 0, am.power2 + shift);
  }

  lemma HalfRange(k: nat)
    requires k < 64
    ensures Scale(1, Two, k) < W64
  {
    PowersOfTwo();
    ScaleExponentOrder(Two, k, 64);
  }

  /** ffc_round_nearest_tie_even_cmp: the caller already compared with the midpoint. */
  method RoundNearestTieEvenCmp(am: AdjustedMantissa, shift: nat, ord: int)
    returns (r: AdjustedMantissa, ghost q: nat, ghost low: nat)
    requires 1 <= shift <= 64
    ensures am.mantissa == Scale(q, Two, shift) + low && low < Scale(1, Two, shift) && q < Scale(1, Two, 64 - shift)
    ensures r.mantissa == q + if ord > 0 || (ord == 0 && q % 2 == 1) then 1 else 0
    ensures r.power2 == am.power2 + shift
  {
    var m: U64;
    m, low := ShiftDown(am.mantissa, shift);
    q := m;
    HalfRange(64 - shift);
    var isOdd := m % 2 == 1;
    r := AM(m + if ord > 0 || (ord == 0 && isOdd) then 1 else 0, am.power2 + shift);
  }

  /** ffc_round_down_impl. */
  method RoundDownImpl(am: AdjustedMantissa, shift: nat) returns (r: AdjustedMantissa, ghost low: nat)
    requires 1 <= shift <= 64
    ensures am.mantissa == Scale(r.mantissa, Two, shift) + low && low < Scale(1, Two, shift)
    ensures r.mantissa < Scale(1, Two, 64 - shift)
    ensures r.power2 == am.power2 + shift
  {
    var m: U64;
    m, low := ShiftDown(am.mantissa, shift);
    r := AM(m, am.power2 + shift);
  }

  /** ffc_round_finish: absorb the carry, drop the hidden bit, saturate to infinity. */
  method RoundFinish(fmt: Format, am: AdjustedMantissa) returns (r: AdjustedMantissa)
    requires fmt.Valid() && fmt.Hidden() <= am.mantissa <= 2 * fmt.Hidden() && 1 <= am.power2
    ensures Represents(fmt, r, Cap(fmt, Pack(fmt, am.mantissa, am.power2)))
  {
    var h := fmt.Hidden();
    var m, p := am.mantissa, am.power2;
    if m >= 2 * h {
      m, p := h, p + 1;
    }
    ClearHidden(m, fmt.mantissaBits, h);
    m := And(m, 0xFFFF_FFFF_FFFF_FFFF - h);
    if p >= fmt.infinitePower {
      m, p := 0, fmt.infinitePower;
    }
    r := AM(m, p);
  }

  /** Masking with the complement of a set bit subtracts it. */
  lemma ClearHidden(m: U64, k: nat, h: nat)
    requires k < 63 && h == Scale(1, Two, k) && h <= m < 2 * h
    ensures h < W64 && And(m, 0xFFFF_FFFF_FFFF_FFFF - h) == m - h
  {
    var l, rest := m - h, Scale(1, Two, 64 - k);
    HalfRange(k);
    ComplementMask(k, h, rest);
    assert And(l, h - 1) == l by {
      AndMask(l, k);
      ScaleZero(Two, k);
      ShiftUnique(l, 0, l, k);
    }
    assert And(1, rest - 2) == 0 by {
      AndStep(1, rest - 2);
      assert (rest - 2) % 2 == 0;
    }
    ScaleZero(Two, k);
    AndSplit(l, 1, h - 1, rest - 2, k);
  }

  lemma ComplementMask(k: nat, h: nat, rest: nat)
    requires k < 63 && h == Scale(1, Two, k) && rest == Scale(1, Two, 64 - k)
    ensures 2 <= rest && 1 <= h && rest % 2 == 0
    ensures 0xFFFF_FFFF_FFFF_FFFF - h == h - 1 + Scale(rest - 2, Two, k)
  {
    PowScale(64 - k, k);
    PowersOfTwo();
    ScalePositive(1, Two, k);
    ScalePositive(1, Two, 63 - k);
    ScaleSum(rest - 2, 2, Two, k);
    ScaleSum(1, 1, Two, k);
  }

  /** The tail of the subnormal path: a full significand becomes the smallest normal number. */
  method SubnormalFinish(fmt: Format, am: AdjustedMantissa) returns (r: AdjustedMantissa)
    requires fmt.Valid() && am.mantissa <= fmt.Hidden()
    ensures Represents(fmt, r, Cap(fmt, Pack(fmt, am.mantissa, 1)))
  {
    r := AM(am.mantissa, if am.mantissa < fmt.Hidden() then 0 else 1);
  }

  // ---- ffc_round_core and its three users ----

  function MantissaShift(fmt: Format): (s: nat)
    requires fmt.Valid()
    ensures 1 <= s <= 62
  {
    63 - fmt.mantissaBits
  }

  /** How far ffc_round_core shifts: to the mantissa width, or further for subnormals. */
  function CoreShift(fmt: Format, power2: int): (s: nat)
    requires fmt.Valid()
    ensures 1 <= s <= 64
  {
    if -power2 >= MantissaShift(fmt) then (if 1 - power2 > 64 then 64 else 1 - power2) else MantissaShift(fmt)
  }

  /** The biased exponent that goes with the shifted significand. */
  function CoreExponent(fmt: Format, power2: int): (e: nat)
    requires fmt.Valid()
    ensures 1 <= e
  {
    if -power2 >= MantissaShift(fmt) then 1 else power2 + MantissaShift(fmt)
  }

  /** The shifted significand fills the mantissa exactly in the normal case and is below the hidden bit otherwise. */
  lemma CoreSignificand(fmt: Format, m: U64, power2: int, q: nat, low: nat)
    requires fmt.Valid() && 0x8000_0000_0000_0000 <= m
    requires var s := CoreShift(fmt, power2);
             m == Scale(q, Two, s) + low && low < Scale(1, Two, s) && q < Scale(1, Two, 64 - s)
    ensures -power2 >= MantissaShift(fmt) ==> q < fmt.Hidden()
    ensures -power2 < MantissaShift(fmt) ==> fmt.Hidden() <= q < 2 * fmt.Hidden()
  {
    var s, mb := CoreShift(fmt, power2), fmt.mantissaBits;
    if -power2 >= MantissaShift(fmt) {
      ScaleGrows(1, Two, 64 - s, mb);
    } else {
      assert 64 - s == mb + 1;
      if q < fmt.Hidden() {
        ScaleMonotone(q + 1, fmt.Hidden(), Two, s);
        ScaleSum(q, 1, Two, s);
        PowScale(mb, s);
        TopBit(mb + s);
        assert false;
      }
    }
  }

  lemma TopBit(k: nat)
    requires k == 63
    ensures Scale(1, Two, k) == 0x8000_0000_0000_0000
  {
    PowersOfTwo();
  }

  /** ffc_round_down. */
  method RoundDown(fmt: Format, am: AdjustedMantissa) returns (r: AdjustedMantissa, ghost q: nat, ghost low: nat)
    requires fmt.Valid() && 0x8000_0000_0000_0000 <= am.mantissa
    ensures am.mantissa == Scale(q, Two, CoreShift(fmt, am.power2)) + low && low < Scale(1, Two, CoreShift(fmt, am.power2))
    ensures q < 2 * fmt.Hidden() && (q < fmt.Hidden() ==> CoreExponent(fmt, am.power2) == 1)
    ensures Represents(fmt, r, Cap(fmt, Pack(fmt, q, CoreExponent(fmt, am.power2))))
  {
    r, low := RoundDownImpl(am, CoreShift(fmt, am.power2));
    q := r.mantissa;
    CoreSignificand(fmt, am.mantissa, am.power2, q, low);
    if -am.power2 >= MantissaShift(fmt) {
      r := SubnormalFinish(fmt, r);
    } else {
      r := RoundFinish(fmt, r);
    }
  }

  /** ffc_round_tie_even_truncated. */
  method RoundTieEvenTruncated(fmt: Format, am: AdjustedMantissa, truncated: bool)
    returns (r: AdjustedMantissa, ghost q: nat, ghost low: nat)
    requires fmt.Valid() && 0x8000_0000_0000_0000 <= am.mantissa
    ensures am.mantissa == Scale(q, Two, CoreShift(fmt, am.power2)) + low && low < Scale(1, Two, CoreShift(fmt, am.power2))
    ensures q < 2 * fmt.Hidden() && (q < fmt.Hidden() ==> CoreExponent(fmt, am.power2) == 1)
    ensures var q' := q + if RoundsUp(q, low, CoreShift(fmt, am.power2), truncated) then 1 else 0;
            Represents(fmt, r, Cap(fmt, Pack(fmt, q', CoreExponent(fmt, am.power2))))
  {
    r, q, low := RoundNearestTieEvenTruncated(am, CoreShift(fmt, am.power2), truncated);
    CoreSignificand(fmt, am.mantissa, am.power2, q, low);
    if -am.power2 >= MantissaShift(fmt) {
      r := SubnormalFinish(fmt, r);
    } else {
      r := RoundFinish(fmt, r);
    }
  }

  /** ffc_round_double_tie_even_cmp. */
  method RoundTieEvenCmp(fmt: Format, am: AdjustedMantissa, ord: int)
    returns (r: AdjustedMantissa, ghost q: nat, ghost low: nat)
    requires fmt.Valid() && 0x8000_0000_0000_0000 <= am.mantissa
    ensures am.mantissa == Scale(q, Two, CoreShift(fmt, am.power2)) + low && low < Scale(1, Two, CoreShift(fmt, am.power2))
    ensures q < 2 * fmt.Hidden() && (q < fmt.Hidden() ==> CoreExponent(fmt, am.power2) == 1)
    ensures var q' := q + if ord > 0 || (ord == 0 && q % 2 == 1) then 1 else 0;
            Represents(fmt, r, Cap(fmt, Pack(fmt, q', CoreExponent(fmt, am.power2))))
  {
    r, q, low := RoundNearestTieEvenCmp(am, CoreShift(fmt, am.power2), ord);
    CoreSignificand(fmt, am.mantissa, am.power2, q, low);
    if -am.power2 >= MantissaShift(fmt) {
      r := SubnormalFinish(fmt, r);
    } else {
      r := RoundFinish(fmt, r);
    }
  }
}
