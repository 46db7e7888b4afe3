/** ffc_parse_mantissa: all significant digits as a big integer, with a sticky last digit when there are too many. */
module ParseMantissa {
  import opened Powers
  import opened Words
  import opened Limbs
  import opened BigInts
  import opened Digits
  import opened Swar
  import opened ParseNumber

  /** ffc_powers_of_ten_uint64. */
  const POWERS_OF_TEN: seq<U64> := [
    1, 10, 100, 1000, 10000, 100000, 1000000, 10000000, 100000000, 1000000000, 10000000000, 100000000000,
    1000000000000, 10000000000000, 100000000000000, 1000000000000000, 10000000000000000, 100000000000000000,
    1000000000000000000, 10000000000000000000]

  const STEP: nat := 19

  lemma {:induction false} PowerOfTenValue(e: nat)
    requires e <= STEP
    ensures e < |POWERS_OF_TEN| && POWERS_OF_TEN[e] == Scale(1, Ten, e)
  {
    if e > 0 {
      PowerOfTenValue(e - 1);
      PowerOfTenStep(e);
    }
  }

  lemma PowerOfTenStep(e: nat)
    requires 0 < e <= STEP
    ensures e < |POWERS_OF_TEN| && POWERS_OF_TEN[e] == 10 * POWERS_OF_TEN[e - 1]
  {
    assert e in {1, 2, 3, 4, 5, 6, 7, 8, 9, 10, 11, 12, 13, 14, 15, 16, 17, 18, 19};
  }

  // ---- runs of zeros, eight at a time ----

  /** Comparing eight bytes with eight zeros is one word comparison. */
  lemma {:induction false} ZeroWord(s: seq<Byte>, p: nat, n: nat)
    requires p + n <= |s|
    ensures ReadWord(s, p, n) == Repeat(0x30, n) <==> forall i :: p <= i < p + n ==> s[i] == CHAR_0
    decreases n
  {
    if n > 0 {
      ZeroWord(s, p + 1, n - 1);
      FirstByte(s[p], ReadWord(s, p + 1, n - 1), Repeat(0x30, n - 1));
    }
  }

  lemma FirstByte(b: Byte, x: nat, y: nat)
    ensures b + 256 * x == 0x30 + 256 * y <==> b == 0x30 && x == y
  {
  }

  /** ffc_skip_zeros. */
  method SkipZeros(s: seq<Byte>, first: nat, last: nat) returns (p: nat)
    requires first <= last <= |s|
    ensures first <= p <= last && (forall i :: first <= i < p ==> s[i] == CHAR_0)
    ensures p < last ==> s[p] != CHAR_0
  {
    p := first;
    EightByteConstants(8);
    while last - p >= 8
      invariant first <= p <= last && forall i :: first <= i < p ==> s[i] == CHAR_0
    {
      ZeroWord(s, p, 8);
      if ReadWord(s, p, 8) != 0x3030303030303030 {
        break;
      }
      p := p + 8;
    }
    while p != last
      invariant first <= p <= last && forall i :: first <= i < p ==> s[i] == CHAR_0
    {
      if s[p] != CHAR_0 {
        break;
      }
      p := p + 1;
    }
  }

  /** ffc_is_truncated: does any digit that is left out differ from zero? */
  method IsTruncated(s: seq<Byte>, first: nat, last: nat) returns (b: bool)
    requires first <= last <= |s|
    ensures b <==> exists i :: first <= i < last && s[i] != CHAR_0
  {
    var p := first;
    EightByteConstants(8);
    while last - p >= 8
      invariant first <= p <= last && forall i :: first <= i < p ==> s[i] == CHAR_0
    {
      ZeroWord(s, p, 8);
      if ReadWord(s, p, 8) != 0x3030303030303030 {
        return true;
      }
      p := p + 8;
    }
    while p != last
      invariant first <= p <= last && forall i :: first <= i < p ==> s[i] == CHAR_0
    {
      if s[p] != CHAR_0 {
        return true;
      }
      p := p + 1;
    }
    return false;
  }

  // ---- one chunk ----

  /** Up to 19 digits, eight at a time and then one at a time, stopping at the digit limit. */
  method ReadChunk(s: seq<Byte>, p0: nat, pend: nat, room: nat) returns (p: nat, value: U64)
    requires p0 < pend <= |s| && AllDigits(s, p0, pend) && 0 < room
    ensures p0 < p <= pend && p - p0 <= STEP && p - p0 <= room
    ensures p - p0 < STEP && p - p0 < room ==> p == pend
    ensures value == Dec(s, p0, p)
  {
    p, value := p0, 0;
    while pend - p >= 8 && STEP - (p - p0) >= 8 && room - (p - p0) >= 8
      invariant p0 <= p <= pend && p - p0 <= STEP && p - p0 <= room
      invariant value == Dec(s, p0, p)
    {
      var v := ParseEightDigits(s, p);
      DecSplit(s, p0, p, p + 8);
      ScaleMul(value, 1, Ten, 8);
      TenPowers(8);
      ChunkFits(s, p0, p + 8);
      value := value * 100000000 + v;
      p := p + 8;
    }
    while p - p0 < STEP && p != pend && p - p0 < room
      invariant p0 <= p <= pend && p - p0 <= STEP && p - p0 <= room
      invariant value == Dec(s, p0, p)
    {
      ChunkFits(s, p0, p + 1);
      value := value * 10 + (s[p] - 48);
      p := p + 1;
    }
  }

  lemma ChunkFits(s: seq<Byte>, a: nat, b: nat)
    requires a <= b <= |s| && AllDigits(s, a, b) && b - a <= STEP
    ensures Dec(s, a, b) < W64
  {
    DecBound(s, a, b);
    ScaleGrows(1, Ten, b - a, STEP);
    PowerOfTenValue(STEP);
  }

  /** ffc_add_native: big * 10^n + value. */
  method AddNative(big: BigInt, power: U64, value: U64)
    requires big.Valid() && big.IsNormalized() && 0 < power && big.Value() * power + value < Capacity()
    modifies big`len, big.data
    ensures big.Valid() && big.IsNormalized() && big.Value() == old(big.Value()) * power + value
  {
    var ok := big.MulLimb(power);
    ok := big.AddLimb(value);
  }

  /** The digits [p0, pend) of the text are the digits of ds from k0 on. */
  ghost predicate Mirrors(s: seq<Byte>, p0: nat, pend: nat, ds: seq<Byte>, k0: nat)
  {
    && p0 <= pend <= |s| && k0 + (pend - p0) <= |ds| && AllDigits(ds, 0, |ds|)
    && forall j :: p0 <= j < pend ==> s[j] == ds[k0 + (j - p0)]
  }

  /** One of the two digit loops: chunks of 19 digits until the part or the digit limit is used up. */
  method ReadPart(s: seq<Byte>, p0: nat, pend: nat, big: BigInt, maxDigits: nat, digits0: nat, ghost ds: seq<Byte>, ghost k0: nat)
    returns (p: nat, digits: nat)
    requires Mirrors(s, p0, pend, ds, k0) && digits0 < maxDigits && Scale(1, Ten, maxDigits) < Capacity()
    requires big.Valid() && big.IsNormalized() && big.Value() == Dec(ds, 0, k0) < Scale(1, Ten, digits0)
    modifies big`len, big.data
    ensures big.Valid() && big.IsNormalized()
    ensures p0 <= p <= pend && digits == digits0 + (p - p0) <= maxDigits && (digits < maxDigits ==> p == pend)
    ensures big.Value() == Dec(ds, 0, k0 + (p - p0)) < Scale(1, Ten, digits)
  {
    p, digits := p0, digits0;
    while p != pend && digits != maxDigits
      invariant p0 <= p <= pend && digits == digits0 + (p - p0) <= maxDigits
      invariant big.Valid() && big.IsNormalized()
      invariant big.Value() == Dec(ds, 0, k0 + (p - p0)) < Scale(1, Ten, digits)
      decreases pend - p
    {
      var q := AddChunk(s, p0, pend, big, maxDigits, digits, ds, k0, p);
      p, digits := q, digits + (q - p);
    }
  }

  /** One chunk of digits goes into the big integer. */
  method AddChunk(s: seq<Byte>, ghost p0: nat, pend: nat, big: BigInt, maxDigits: nat, digits: nat, ghost ds: seq<Byte>, ghost k0: nat, p: nat)
    returns (q: nat)
    requires Mirrors(s, p0, pend, ds, k0) && p0 <= p < pend && digits < maxDigits && Scale(1, Ten, maxDigits) < Capacity()
    requires big.Valid() && big.IsNormalized() && big.Value() == Dec(ds, 0, k0 + (p - p0)) < Scale(1, Ten, digits)
    modifies big`len, big.data
    ensures big.Valid() && big.IsNormalized() && p < q <= pend && digits + (q - p) <= maxDigits
    ensures q < pend && digits + (q - p) < maxDigits ==> q - p == STEP
    ensures big.Value() == Dec(ds, 0, k0 + (q - p0)) < Scale(1, Ten, digits + (q - p))
  {
    MirrorsDigits(s, p0, pend, ds, k0);
    var value;
    q, value := ReadChunk(s, p, pend, maxDigits - digits);
    ChunkJoins(s, p0, pend, ds, k0, p, q, digits, maxDigits);
    AddNative(big, POWERS_OF_TEN[q - p], value);
  }

  lemma MirrorsDigits(s: seq<Byte>, p0: nat, pend: nat, ds: seq<Byte>, k0: nat)
    requires Mirrors(s, p0, pend, ds, k0)
    ensures AllDigits(s, p0, pend)
  {
  }

  /** Appending the chunk [p, q) keeps the value and its bound. */
  lemma ChunkJoins(s: seq<Byte>, p0: nat, pend: nat, ds: seq<Byte>, k0: nat, p: nat, q: nat, digits: nat, maxDigits: nat)
    requires Mirrors(s, p0, pend, ds, k0) && AllDigits(s, p0, pend) && p0 <= p <= q <= pend && q - p <= STEP
    requires digits + (q - p) <= maxDigits && Scale(1, Ten, maxDigits) < Capacity()
    requires Dec(ds, 0, k0 + (p - p0)) < Scale(1, Ten, digits)
    ensures q - p < |POWERS_OF_TEN| && 0 < POWERS_OF_TEN[q - p]
    ensures Dec(ds, 0, k0 + (p - p0)) * POWERS_OF_TEN[q - p] + Dec(s, p, q) == Dec(ds, 0, k0 + (q - p0))
    ensures Dec(ds, 0, k0 + (q - p0)) < Scale(1, Ten, digits + (q - p)) < Capacity()
  {
    MirroredChunk(s, p0, pend, ds, k0, p, q);
    DecBound(s, p, q);
    DigitsJoin(ds, k0 + (p - p0), k0 + (q - p0), q - p, digits, maxDigits);
  }

  lemma DigitsJoin(ds: seq<Byte>, k: nat, k': nat, c: nat, digits: nat, maxDigits: nat)
    requires k <= k' <= |ds| && c == k' - k <= STEP && AllDigits(ds, 0, |ds|)
    requires digits + c <= maxDigits && Scale(1, Ten, maxDigits) < Capacity() && Dec(ds, 0, k) < Scale(1, Ten, digits)
    ensures c < |POWERS_OF_TEN| && 0 < POWERS_OF_TEN[c]
    ensures Dec(ds, 0, k) * POWERS_OF_TEN[c] + Dec(ds, k, k') == Dec(ds, 0, k')
    ensures Dec(ds, 0, k') < Scale(1, Ten, digits + c) < Capacity()
  {
    PowerOfTenValue(c);
    ScalePositive(1, Ten, c);
    DecSplit(ds, 0, k, k');
    ScaleMul(Dec(ds, 0, k), 1, Ten, c);
    DecBound(ds, k, k');
    ChunkBound(Dec(ds, 0, k), Dec(ds, k, k'), digits, c);
    ScaleGrows(1, Ten, digits + c, maxDigits);
  }

  lemma MirroredChunk(s: seq<Byte>, p0: nat, pend: nat, ds: seq<Byte>, k0: nat, p: nat, q: nat)
    requires Mirrors(s, p0, pend, ds, k0) && AllDigits(s, p0, pend) && p0 <= p <= q <= pend
    ensures Dec(ds, k0 + (p - p0), k0 + (q - p0)) == Dec(s, p, q)
  {
    var k := k0 + (p - p0);
    forall i | p <= i < q
      ensures ds[k + (i - p)] == s[i]
    {
      assert s[i] == ds[k0 + (i - p0)];
    }
    DecSlice(s, ds, p, q, k);
  }

  lemma ChunkBound(x: nat, v: nat, digits: nat, c: nat)
    requires x < Scale(1, Ten, digits) && v < Scale(1, Ten, c)
    ensures Scale(x, Ten, c) + v < Scale(1, Ten, digits + c)
  {
    ScaleSum(x, 1, Ten, c);
    ScaleMonotone(x + 1, Scale(1, Ten, digits), Ten, c);
    ScaleCompose(1, Ten, digits, c);
  }

  // ---- the whole mantissa ----

  /** d has n decimal digits; zero has none. */
  predicate HasDigits(d: nat, n: nat)
  {
    d < Scale(1, Ten, n) && (n > 0 ==> Scale(1, Ten, n - 1) <= d)
  }

  /**
   * value is d when d has at most maxDigits digits, and otherwise the first maxDigits digits of d,
   * followed by a 1 exactly when a dropped digit is not zero. count is the number of digits of value.
   */
  ghost predicate Condenses(d: nat, maxDigits: nat, value: nat, count: nat)
  {
    exists n: nat ::
      && HasDigits(d, n)
      && (n <= maxDigits ==> value == d && count == n)
      && (n > maxDigits ==>
            || (count == maxDigits && d == Scale(value, Ten, n - maxDigits))
            || (count == maxDigits + 1 && value % 10 == 1
                && Scale(value / 10, Ten, n - maxDigits) < d < Scale(value / 10 + 1, Ten, n - maxDigits)))
  }

  lemma DigitsOf(ds: seq<Byte>, z: nat)
    requires z <= |ds| && AllDigits(ds, 0, |ds|) && (forall i :: 0 <= i < z ==> ds[i] == CHAR_0)
    requires z < |ds| ==> ds[z] != CHAR_0
    ensures HasDigits(Dec(ds, 0, |ds|), |ds| - z)
  {
    DecSkipZeros(ds, 0, z, |ds|);
    DecBound(ds, z, |ds|);
    if z < |ds| {
      DecLeading(ds, z, |ds|);
    }
  }

  /** The digits read so far are ds[z..k), after z zeros; whatever is left decides the sticky digit. */
  lemma ReadAll(ds: seq<Byte>, z: nat, k: nat, maxDigits: nat)
    requires z <= k <= |ds| && AllDigits(ds, 0, |ds|) && (forall i :: 0 <= i < z ==> ds[i] == CHAR_0)
    requires z < |ds| ==> ds[z] != CHAR_0
    requires k - z < maxDigits ==> k == |ds|
    requires k - z <= maxDigits
    ensures var d, rest := Dec(ds, 0, |ds|), exists i :: k <= i < |ds| && ds[i] != CHAR_0;
            && (!rest ==> Condenses(d, maxDigits, Dec(ds, 0, k), k - z))
            && (rest ==> k - z == maxDigits && Condenses(d, maxDigits, 10 * Dec(ds, 0, k) + 1, maxDigits + 1))
  {
    var d, n := Dec(ds, 0, |ds|), |ds| - z;
    DigitsOf(ds, z);
    DecSplit(ds, 0, k, |ds|);
    DecZero(ds, k, |ds|);
    DecBound(ds, k, |ds|);
    ScaleSum(Dec(ds, 0, k), 1, Ten, |ds| - k);
    var v := Dec(ds, 0, k);
    assert (10 * v + 1) / 10 == v && (10 * v + 1) % 10 == 1;
    if k - z == maxDigits {
      assert |ds| - k == n - maxDigits;
    }
  }

  /** ffc_parse_mantissa. */
  method Parse(s: seq<Byte>, l: Layout, big: BigInt, maxDigits: nat) returns (digits: nat)
    requires l.Fits(s) && 0 < maxDigits && Scale(1, Ten, maxDigits + 1) < Capacity()
    requires big.Valid() && big.Contents() == []
    modifies big`len, big.data
    ensures big.Valid() && big.IsNormalized()
    ensures Condenses(l.Mantissa(s), maxDigits, big.Value(), digits)
  {
    ghost var ds := l.Written(s);
    ScaleGrows(1, Ten, maxDigits, maxDigits + 1);
    var p, truncated;
    ghost var z, k;
    p, digits, z := ReadInteger(s, l, big, maxDigits, ds);
    k := z + digits;
    if digits == maxDigits {
      truncated := AnyLeft(s, l, p, ds);
    } else {
      digits, truncated, z, k := ReadFraction(s, l, big, maxDigits, digits, ds, z);
    }
    digits := Finish(big, maxDigits, digits, truncated, ds, z, k);
  }

  /** The integer digits after their leading zeros. */
  method ReadInteger(s: seq<Byte>, l: Layout, big: BigInt, maxDigits: nat, ghost ds: seq<Byte>)
    returns (p: nat, digits: nat, ghost z: nat)
    requires l.Fits(s) && ds == l.Written(s) && 0 < maxDigits && Scale(1, Ten, maxDigits) < Capacity()
    requires big.Valid() && big.Contents() == []
    modifies big`len, big.data
    ensures big.Valid() && big.IsNormalized() && l.intStart <= p <= l.intEnd && p == l.intStart + z + digits
    ensures digits <= maxDigits && (digits < maxDigits ==> p == l.intEnd)
    ensures (forall i :: 0 <= i < z ==> ds[i] == CHAR_0) && (digits > 0 ==> ds[z] != CHAR_0)
    ensures big.Value() == Dec(ds, 0, z + digits) < Scale(1, Ten, digits)
  {
    p := SkipZeros(s, l.intStart, l.intEnd);
    z := p - l.intStart;
    ZeroPrefix(ds, z);
    IntegerMirrors(s, l, ds, p);
    p, digits := ReadPart(s, p, l.intEnd, big, maxDigits, 0, ds, z);
  }

  /** The sticky digit, if anything was dropped. */
  method Finish(big: BigInt, maxDigits: nat, digits0: nat, truncated: bool, ghost ds: seq<Byte>, ghost z: nat, ghost k: nat)
    returns (digits: nat)
    requires z <= k <= |ds| && AllDigits(ds, 0, |ds|) && (forall i :: 0 <= i < z ==> ds[i] == CHAR_0)
    requires z < |ds| ==> ds[z] != CHAR_0
    requires digits0 == k - z <= maxDigits && (digits0 < maxDigits ==> k == |ds|)
    requires truncated <==> exists i :: k <= i < |ds| && ds[i] != CHAR_0
    requires big.Valid() && big.IsNormalized() && big.Value() == Dec(ds, 0, k) < Scale(1, Ten, digits0)
    requires Scale(1, Ten, maxDigits + 1) < Capacity()
    modifies big`len, big.data
    ensures big.Valid() && big.IsNormalized()
    ensures Condenses(Dec(ds, 0, |ds|), maxDigits, big.Value(), digits)
  {
    ReadAll(ds, z, k, maxDigits);
    digits := digits0;
    if truncated {
      AddNativeFits(big.Value(), digits);
      AddNative(big, 10, 1);
      digits := digits + 1;
    }
  }

  /** After the digit limit was reached at p in the integer part: is anything that follows not a zero? */
  method AnyLeft(s: seq<Byte>, l: Layout, p: nat, ghost ds: seq<Byte>) returns (truncated: bool)
    requires l.Fits(s) && ds == l.Written(s) && l.intStart <= p <= l.intEnd
    ensures truncated <==> exists i :: p - l.intStart <= i < |ds| && ds[i] != CHAR_0
  {
    truncated := IsTruncated(s, p, l.intEnd);
    if l.hasFraction {
      var t := IsTruncated(s, l.fracStart, l.fracEnd);
      truncated := truncated || t;
    }
    TruncatedInInteger(s, l, ds, p, truncated);
  }

  /** The fraction digits; leading zeros are skipped when the integer part had no significant digit. */
  method ReadFraction(s: seq<Byte>, l: Layout, big: BigInt, maxDigits: nat, digits0: nat, ghost ds: seq<Byte>, ghost z0: nat)
    returns (digits: nat, truncated: bool, ghost z: nat, ghost k: nat)
    requires l.Fits(s) && ds == l.Written(s) && digits0 < maxDigits && Scale(1, Ten, maxDigits) < Capacity()
    requires z0 + digits0 == l.intEnd - l.intStart && (forall i :: 0 <= i < z0 ==> ds[i] == CHAR_0)
    requires digits0 > 0 ==> ds[z0] != CHAR_0
    requires big.Valid() && big.IsNormalized() && big.Value() == Dec(ds, 0, z0 + digits0) < Scale(1, Ten, digits0)
    modifies big`len, big.data
    ensures z <= k <= |ds| && digits == k - z <= maxDigits && (digits < maxDigits ==> k == |ds|)
    ensures big.Valid() && big.IsNormalized() && big.Value() == Dec(ds, 0, k) < Scale(1, Ten, digits)
    ensures (forall i :: 0 <= i < z ==> ds[i] == CHAR_0) && (z < |ds| ==> ds[z] != CHAR_0)
    ensures truncated <==> exists i :: k <= i < |ds| && ds[i] != CHAR_0
  {
    ghost var n := l.intEnd - l.intStart;
    var p;
    p, z := FractionStart(s, l, digits0, ds, z0);
    p, digits := ReadPart(s, p, l.fracEnd, big, maxDigits, digits0, ds, n + (p - l.fracStart));
    k := n + (p - l.fracStart);
    truncated := IsTruncated(s, p, l.fracEnd);
    TruncatedInFraction(s, l, ds, p, truncated);
  }

  /** Where the digits of the fraction begin to count: after its leading zeros if none has counted yet. */
  method FractionStart(s: seq<Byte>, l: Layout, digits0: nat, ghost ds: seq<Byte>, ghost z0: nat) returns (p: nat, ghost z: nat)
    requires l.Fits(s) && ds == l.Written(s) && z0 + digits0 == l.intEnd - l.intStart && (forall i :: 0 <= i < z0 ==> ds[i] == CHAR_0)
    requires digits0 > 0 ==> ds[z0] != CHAR_0
    ensures l.fracStart <= p <= l.fracEnd && z + digits0 == l.intEnd - l.intStart + (p - l.fracStart)
    ensures (forall i :: 0 <= i < z ==> ds[i] == CHAR_0) && (z < |ds| ==> ds[z] != CHAR_0)
    ensures Mirrors(s, p, l.fracEnd, ds, l.intEnd - l.intStart + (p - l.fracStart)) && Dec(ds, 0, z + digits0) == Dec(ds, 0, z0 + digits0)
  {
    p, z := l.fracStart, z0;
    if digits0 == 0 {
      p := SkipZeros(s, l.fracStart, l.fracEnd);
      z := l.intEnd - l.intStart + (p - l.fracStart);
      AllZeroSoFar(s, l, ds, p);
      ZeroPrefix(ds, z);
      ZeroPrefix(ds, z0);
    }
    FractionMirrors(s, l, ds, p);
  }

  lemma IntegerMirrors(s: seq<Byte>, l: Layout, ds: seq<Byte>, p: nat)
    requires l.Fits(s) && ds == l.Written(s) && l.intStart <= p <= l.intEnd
    ensures Mirrors(s, p, l.intEnd, ds, p - l.intStart)
  {
  }

  lemma FractionMirrors(s: seq<Byte>, l: Layout, ds: seq<Byte>, p: nat)
    requires l.Fits(s) && ds == l.Written(s) && l.fracStart <= p <= l.fracEnd
    ensures Mirrors(s, p, l.fracEnd, ds, l.intEnd - l.intStart + (p - l.fracStart))
    ensures p < l.fracEnd ==> ds[l.intEnd - l.intStart + (p - l.fracStart)] == s[p]
  {
  }

  lemma ZeroPrefix(ds: seq<Byte>, z: nat)
    requires z <= |ds| && AllDigits(ds, 0, |ds|) && (forall i :: 0 <= i < z ==> ds[i] == CHAR_0)
    ensures Dec(ds, 0, z) == 0
  {
    DecZero(ds, 0, z);
  }

  lemma AddNativeFits(v: nat, digits: nat)
    requires v < Scale(1, Ten, digits) && Scale(1, Ten, digits + 1) < Capacity()
    ensures v * 10 + 1 < Capacity()
  {
  }

  lemma TruncatedInInteger(s: seq<Byte>, l: Layout, ds: seq<Byte>, p: nat, truncated: bool)
    requires l.Fits(s) && ds == l.Written(s) && l.intStart <= p <= l.intEnd
    requires truncated <==> (exists i :: p <= i < l.intEnd && s[i] != CHAR_0) || (l.hasFraction && exists i :: l.fracStart <= i < l.fracEnd && s[i] != CHAR_0)
    ensures truncated <==> exists i :: p - l.intStart <= i < |ds| && ds[i] != CHAR_0
  {
    var n := l.intEnd - l.intStart;
    if truncated {
      if i :| p <= i < l.intEnd && s[i] != CHAR_0 {
        assert ds[i - l.intStart] == s[i];
      } else {
        var i :| l.fracStart <= i < l.fracEnd && s[i] != CHAR_0;
        assert ds[n + (i - l.fracStart)] == s[i];
      }
    } else {
      forall i | p - l.intStart <= i < |ds|
        ensures ds[i] == CHAR_0
      {
        WrittenAt(s, l, i);
      }
    }
  }

  lemma TruncatedInFraction(s: seq<Byte>, l: Layout, ds: seq<Byte>, p: nat, truncated: bool)
    requires l.Fits(s) && ds == l.Written(s) && l.fracStart <= p <= l.fracEnd
    requires truncated <==> exists i :: p <= i < l.fracEnd && s[i] != CHAR_0
    ensures truncated <==> exists i :: l.intEnd - l.intStart + (p - l.fracStart) <= i < |ds| && ds[i] != CHAR_0
  {
    var n := l.intEnd - l.intStart;
    if truncated {
      var i :| p <= i < l.fracEnd && s[i] != CHAR_0;
      assert ds[n + (i - l.fracStart)] == s[i];
    } else {
      forall i | n + (p - l.fracStart) <= i < |ds|
        ensures ds[i] == CHAR_0
      {
        WrittenAt(s, l, i);
      }
    }
  }

  lemma AllZeroSoFar(s: seq<Byte>, l: Layout, ds: seq<Byte>, p: nat)
    requires l.Fits(s) && ds == l.Written(s) && l.fracStart <= p <= l.fracEnd
    requires (forall i :: 0 <= i < l.intEnd - l.intStart ==> ds[i] == CHAR_0) && (forall i :: l.fracStart <= i < p ==> s[i] == CHAR_0)
    ensures forall i :: 0 <= i < l.intEnd - l.intStart + (p - l.fracStart) ==> ds[i] == CHAR_0
  {
    forall i | 0 <= i < l.intEnd - l.intStart + (p - l.fracStart)
      ensures ds[i] == CHAR_0
    {
      WrittenAt(s, l, i);
    }
  }
}
