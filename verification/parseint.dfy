/** ffc_parse_int_string: integers in bases 2 to 36, accumulated modulo 2^64 and range-checked afterwards. */
module ParseInt {
  import opened Powers
  import opened Words
  import opened Digits
  import opened Swar

  datatype Kind = Int64 | Uint64 | Int32 | Uint32
  {
    predicate Signed() { this in {Int64, Int32} }

    /** ffc_int_value_max. */
    function Max(): nat
    {
      match this
      case Int64 => 0x7FFF_FFFF_FFFF_FFFF
      case Uint64 => 0xFFFF_FFFF_FFFF_FFFF
      case Int32 => 0x7FFF_FFFF
      case Uint32 => 0xFFFF_FFFF
    }

    /** The largest magnitude: one more below zero. */
    function Limit(negative: bool): nat { Max() + if negative then 1 else 0 }
  }

  datatype Options = Options(skipWhiteSpace: bool, leadingPlus: bool)

  datatype Result = InvalidInput(at: nat) | OutOfRange(at: nat) | Ok(value: int, at: nat)

  const MINUS: Byte := '-' as int
  const PLUS: Byte := '+' as int
  const CHAR_0: Byte := '0' as int

  predicate IsSpace(c: Byte) { 9 <= c <= 13 || c == 32 }

  /** FFC_CHAR_TO_DIGIT_LUT. */
  function CharToDigit(c: Byte): nat
  {
    if 48 <= c <= 57 then c - 48 else if 65 <= c <= 90 then c - 55 else if 97 <= c <= 122 then c - 87 else 255
  }

  const LOWER := "0123456789abcdefghijklmnopqrstuvwxyz"
  const UPPER := "0123456789ABCDEFGHIJKLMNOPQRSTUVWXYZ"

  /** The digits are the 36 letters in their order, in both cases, and nothing else. */
  lemma DigitLetters(c: Byte, k: nat)
    requires k < 36
    ensures CharToDigit(c) == k <==> c == LOWER[k] as int || c == UPPER[k] as int
    ensures CharToDigit(c) < 36 || CharToDigit(c) == 255
  {
    assert k < 10 ==> LOWER[k] as int == 48 + k == UPPER[k] as int;
    assert k >= 10 ==> LOWER[k] as int == 87 + k && UPPER[k] as int == 55 + k;
  }

  // ---- the number written ----

  predicate InBase(s: seq<Byte>, a: nat, b: nat, base: nat)
    requires a <= b <= |s|
  {
    forall i :: a <= i < b ==> CharToDigit(s[i]) < base
  }

  /** The number the digits [a, b) stand for. */
  function Value(s: seq<Byte>, a: nat, b: nat, base: nat): nat
    requires a <= b <= |s|
    decreases b - a
  {
    if a == b then 0 else Value(s, a, b - 1, base) * base + CharToDigit(s[b - 1])
  }

  function RunEnd(s: seq<Byte>, p: nat, base: nat): (e: nat)
    requires p <= |s|
    ensures p <= e <= |s| && InBase(s, p, e, base) && (e < |s| ==> CharToDigit(s[e]) >= base)
    decreases |s| - p
  {
    if p < |s| && CharToDigit(s[p]) < base then RunEnd(s, p + 1, base) else p
  }

  lemma RunEndUnique(s: seq<Byte>, p: nat, e: nat, base: nat)
    requires p <= e <= |s| && InBase(s, p, e, base) && (e < |s| ==> CharToDigit(s[e]) >= base)
    ensures e == RunEnd(s, p, base)
  {
    if RunEnd(s, p, base) != e {
      assert false;
    }
  }

  lemma {:induction false} ValueBelow(s: seq<Byte>, a: nat, b: nat, base: nat)
    requires a <= b <= |s| && InBase(s, a, b, base)
    ensures Value(s, a, b, base) < Pow(base, b - a)
    decreases b - a
  {
    if a < b {
      ValueBelow(s, a, b - 1, base);
      MulMonotone(Value(s, a, b - 1, base) + 1, Pow(base, b - 1 - a), base);
      MulDistributes(Value(s, a, b - 1, base), 1, base);
    }
  }

  lemma {:induction false} ValueLeading(s: seq<Byte>, a: nat, b: nat, base: nat)
    requires a < b <= |s| && s[a] != CHAR_0
    ensures Pow(base, b - a - 1) <= Value(s, a, b, base)
    decreases b - a
  {
    if a + 1 < b {
      ValueLeading(s, a, b - 1, base);
      MulMonotone(Pow(base, b - 1 - a - 1), Value(s, a, b - 1, base), base);
    } else {
      assert Value(s, a, a, base) == 0;
    }
  }

  lemma {:induction false} ValueSkipZeros(s: seq<Byte>, a: nat, m: nat, b: nat, base: nat)
    requires a <= m <= b <= |s| && forall i :: a <= i < m ==> s[i] == CHAR_0
    ensures Value(s, a, b, base) == Value(s, m, b, base)
    decreases b - a
  {
    if m < b {
      ValueSkipZeros(s, a, m, b - 1, base);
    } else if a < m {
      ValueSkipZeros(s, a, m - 1, b - 1, base);
    }
  }

  lemma {:induction false} ValueIsDecimal(s: seq<Byte>, a: nat, b: nat)
    requires a <= b <= |s| && AllDigits(s, a, b)
    ensures Value(s, a, b, 10) == Dec(s, a, b) && InBase(s, a, b, 10)
    decreases b - a
  {
    if a < b {
      ValueIsDecimal(s, a, b - 1);
    }
  }

  // ---- the text ----

  /** first is where the text begins after the blanks that are skipped. */
  predicate AfterBlanks(s: seq<Byte>, o: Options, first: nat)
  {
    && first <= |s| && (forall i :: 0 <= i < first ==> IsSpace(s[i]))
    && (if o.skipWhiteSpace then first < |s| ==> !IsSpace(s[first]) else first == 0)
  }

  predicate HasSign(s: seq<Byte>, o: Options, first: nat)
  {
    first < |s| && (s[first] == MINUS || (o.leadingPlus && s[first] == PLUS))
  }

  /** All the digits there are from start on. */
  predicate DigitRun(s: seq<Byte>, start: nat, end: nat, base: nat)
  {
    start <= end <= |s| && InBase(s, start, end, base) && (end < |s| ==> CharToDigit(s[end]) >= base)
  }

  /** An integer of the kind stands at first: a sign that the kind has, and digits up to end right after it. */
  predicate IntegerAt(s: seq<Byte>, kind: Kind, o: Options, base: int, first: nat, start: nat, end: nat)
  {
    && first < |s| && 2 <= base <= 36 && (s[first] == MINUS ==> kind.Signed())
    && start == (if HasSign(s, o, first) then first + 1 else first)
    && start < end && DigitRun(s, start, end, base)
  }

  // ---- the overflow test ----

  /** FFC_MAXDIGITS_OF_BASE_U64. */
  const MAX_DIGITS: seq<nat> := [
    64, 41, 32, 28, 25, 23, 22, 21, 20, 19, 18, 18, 17, 17, 16, 16, 16, 16,
    15, 15, 15, 15, 14, 14, 14, 14, 14, 14, 14, 13, 13, 13, 13, 13, 13]

  /** FFC_MIN_SAFE_OF_BASE_U64. */
  const MIN_SAFE: seq<nat> := [
    9223372036854775808, 12157665459056928801, 4611686018427387904, 7450580596923828125, 4738381338321616896,
    3909821048582988049, 9223372036854775808, 12157665459056928801, 10000000000000000000, 5559917313492231481,
    2218611106740436992, 8650415919381337933, 2177953337809371136, 6568408355712890625, 1152921504606846976,
    2862423051509815793, 6746640616477458432, 15181127029874798299, 1638400000000000000, 3243919932521508681,
    6221821273427820544, 11592836324538749809, 876488338465357824, 1490116119384765625, 2481152873203736576,
    4052555153018976267, 6502111422497947648, 10260628712958602189, 15943230000000000000, 787662783788549761,
    1152921504606846976, 1667889514952984961, 2386420683693101056, 3379220508056640625, 4738381338321616896]

  function MaxDigits(base: nat): nat
    requires 2 <= base <= 36
  {
    MAX_DIGITS[base - 2]
  }

  function MinSafe(base: nat): nat
    requires 2 <= base <= 36
  {
    MIN_SAFE[base - 2]
  }

  /** The smallest number with the most digits a 64-bit number can have. */
  predicate TableEntry(base: nat)
    requires 2 <= base <= 36
  {
    && 0 < MaxDigits(base) && MinSafe(base) == Pow(base, MaxDigits(base) - 1)
    && MinSafe(base) < W64 <= MinSafe(base) * base
  }

  lemma Bases2To3(base: nat)
    requires 2 <= base <= 3
    ensures FastPow(base, MaxDigits(base) - 1) == MinSafe(base)
  {
    if base == 2 {
      assert FastPow(2, 63) == 9223372036854775808;
    } else if base == 3 {
      assert FastPow(3, 40) == 12157665459056928801;
    }
  }

  lemma Bases4To6(base: nat)
    requires 4 <= base <= 6
    ensures FastPow(base, MaxDigits(base) - 1) == MinSafe(base)
  {
    if base == 4 {
      assert FastPow(4, 31) == 4611686018427387904;
    } else if base == 5 {
      assert FastPow(5, 27) == 7450580596923828125;
    } else if base == 6 {
      assert FastPow(6, 24) == 4738381338321616896;
    }
  }

  lemma Bases7To9(base: nat)
    requires 7 <= base <= 9
    ensures FastPow(base, MaxDigits(base) - 1) == MinSafe(base)
  {
    if base == 7 {
      assert FastPow(7, 22) == 3909821048582988049;
    } else if base == 8 {
      assert FastPow(8, 21) == 9223372036854775808;
    } else if base == 9 {
      assert FastPow(9, 20) == 12157665459056928801;
    }
  }

  lemma Bases10To12(base: nat)
    requires 10 <= base <= 12
    ensures FastPow(base, MaxDigits(base) - 1) == MinSafe(base)
  {
    if base == 10 {
      assert FastPow(10, 19) == 10000000000000000000;
    } else if base == 11 {
      assert FastPow(11, 18) == 5559917313492231481;
    } else if base == 12 {
      assert FastPow(12, 17) == 2218611106740436992;
    }
  }

  lemma Bases13To15(base: nat)
    requires 13 <= base <= 15
    ensures FastPow(base, MaxDigits(base) - 1) == MinSafe(base)
  {
    if base == 13 {
      assert FastPow(13, 17) == 8650415919381337933;
    } else if base == 14 {
      assert FastPow(14, 16) == 2177953337809371136;
    } else if base == 15 {
      assert FastPow(15, 16) == 6568408355712890625;
    }
  }

  lemma Bases16To20(base: nat)
    requires 16 <= base <= 20
    ensures FastPow(base, MaxDigits(base) - 1) == MinSafe(base)
  {
    if base == 16 {
      assert FastPow(16, 15) == 1152921504606846976;
    } else if base == 17 {
      assert FastPow(17, 15) == 2862423051509815793;
    } else if base == 18 {
      assert FastPow(18, 15) == 6746640616477458432;
    } else if base == 19 {
      assert FastPow(19, 15) == 15181127029874798299;
    } else if base == 20 {
      assert FastPow(20, 14) == 1638400000000000000;
    }
  }

  lemma Bases21To24(base: nat)
    requires 21 <= base <= 24
    ensures FastPow(base, MaxDigits(base) - 1) == MinSafe(base)
  {
    if base == 21 {
      assert FastPow(21, 14) == 3243919932521508681;
    } else if base == 22 {
      assert FastPow(22, 14) == 6221821273427820544;
    } else if base == 23 {
      assert FastPow(23, 14) == 11592836324538749809;
    } else if base == 24 {
      assert FastPow(24, 13) == 876488338465357824;
    }
  }

  lemma Bases25To27(base: nat)
    requires 25 <= base <= 27
    ensures FastPow(base, MaxDigits(base) - 1) == MinSafe(base)
  {
    if base == 25 {
      assert FastPow(25, 13) == 1490116119384765625;
    } else if base == 26 {
      assert FastPow(26, 13) == 2481152873203736576;
    } else if base == 27 {
      assert FastPow(27, 13) == 4052555153018976267;
    }
  }

  lemma Bases28To29(base: nat)
    requires 28 <= base <= 29
    ensures FastPow(base, MaxDigits(base) - 1) == MinSafe(base)
  {
    if base == 28 {
      assert FastPow(28, 13) == 6502111422497947648;
    } else if base == 29 {
      assert FastPow(29, 13) == 10260628712958602189;
    }
  }

  lemma Bases30To36(base: nat)
    requires 30 <= base <= 36
    ensures FastPow(base, MaxDigits(base) - 1) == MinSafe(base)
  {
    if base == 30 {
      assert FastPow(30, 13) == 15943230000000000000;
    } else if base == 31 {
      assert FastPow(31, 12) == 787662783788549761;
    } else if base == 32 {
      assert FastPow(32, 12) == 1152921504606846976;
    } else if base == 33 {
      assert FastPow(33, 12) == 1667889514952984961;
    } else if base == 34 {
      assert FastPow(34, 12) == 2386420683693101056;
    } else if base == 35 {
      assert FastPow(35, 12) == 3379220508056640625;
    } else if base == 36 {
      assert FastPow(36, 12) == 4738381338321616896;
    }
  }

  /** Every entry of the two tables is right. */
  lemma TablesRight(base: nat)
    requires 2 <= base <= 36
    ensures TableEntry(base)
  {
    TableRange(base);
    FastPowIsPow(base, MaxDigits(base) - 1);
    if base <= 3 {
      Bases2To3(base);
    } else if base <= 6 {
      Bases4To6(base);
    } else if base <= 9 {
      Bases7To9(base);
    } else if base <= 12 {
      Bases10To12(base);
    } else if base <= 15 {
      Bases13To15(base);
    } else if base <= 20 {
      Bases16To20(base);
    } else if base <= 24 {
      Bases21To24(base);
    } else if base <= 27 {
      Bases25To27(base);
    } else if base <= 29 {
      Bases28To29(base);
    } else {
      Bases30To36(base);
    }
  }

  lemma TableRange(base: nat)
    requires 2 <= base <= 36
    ensures 0 < MaxDigits(base) && MinSafe(base) < W64 <= MinSafe(base) * base
  {
  }

  /** v overflows 64 bits but its remainder passes both range tests. */
  predicate Aliases(v: nat, base: nat, limit: nat)
    requires 2 <= base <= 36
  {
    W64 <= v < MinSafe(base) * base && MinSafe(base) <= v % W64 <= limit
  }

  /** When the range tests on the remainder are decisive. */
  predicate Decides(base: nat, limit: nat)
    requires 2 <= base <= 36
  {
    limit < MinSafe(base) || MinSafe(base) * base <= W64 + MinSafe(base)
  }

  /** The condition is exact, for every base and limit. */
  lemma DecidesExactly(base: nat, limit: nat)
    requires 2 <= base <= 36
    ensures Decides(base, limit) <==> forall v: nat :: !Aliases(v, base, limit)
  {
    TablesRight(base);
    if Decides(base, limit) {
      forall v: nat
        ensures !Aliases(v, base, limit)
      {
        if W64 <= v < MinSafe(base) * base <= W64 + MinSafe(base) {
          DivModUnique(v, W64, 1, v - W64);
        }
      }
    } else {
      var v := W64 + MinSafe(base);
      DivModUnique(v, W64, 1, MinSafe(base));
      assert Aliases(v, base, limit);
    }
  }

  /** Base 10 is decided for every kind but Uint64; bases 2, 4 and 16 for all kinds. */
  lemma DecidedKinds(kind: Kind, negative: bool)
    requires negative ==> kind.Signed()
    ensures Decides(10, kind.Limit(negative)) <==> kind != Uint64
    ensures Decides(2, kind.Limit(negative)) && Decides(4, kind.Limit(negative)) && Decides(16, kind.Limit(negative))
  {
  }

  /** The digit count and the remainder say which of the three cases holds. */
  lemma RangeTest(base: nat, n: nat, v: nat, limit: nat)
    requires 2 <= base <= 36 && 0 < n && Pow(base, n - 1) <= v < Pow(base, n) && limit < W64
    ensures n > MaxDigits(base) ==> limit < v
    ensures n < MaxDigits(base) ==> v < W64
    ensures n == MaxDigits(base) ==> MinSafe(base) <= v < MinSafe(base) * base
    ensures n != MaxDigits(base) ==> !Aliases(v, base, limit)
  {
    TablesRight(base);
    var m := MaxDigits(base);
    assert Pow(base, m) == base * Pow(base, m - 1);
    if n > m {
      PowMonotone(base, m, n - 1);
    } else if n < m {
      PowMonotone(base, n, m - 1);
    }
  }

  // ---- storing the result ----

  /** A 64-bit word as a signed number, then cut to 32 bits where the target is that narrow. */
  function Signed(word: nat, modulus: nat): int
    requires 0 < modulus
  {
    var low := word % modulus;
    if 2 * low < modulus then low else low - modulus
  }

  /** The assignment through the union; ~i + 1 is the negation in 64 bits. */
  function Stored(kind: Kind, negative: bool, i: U64): int
  {
    var word := if negative then (W64 - i) % W64 else i;
    match kind
    case Int64 => Signed(word, W64)
    case Int32 => Signed(word, W32)
    case Uint64 => word
    case Uint32 => word % W32
  }

  lemma StoredExact(kind: Kind, negative: bool, i: U64)
    requires i <= kind.Limit(negative) && (negative ==> kind.Signed())
    ensures Stored(kind, negative, i) == Negated(negative, i)
  {
  }

  // ---- the parser ----

  /** The digits from start to p have been read into the word i. */
  predicate ReadTo(s: seq<Byte>, start: nat, p: nat, base: nat, i: U64)
  {
    start <= p <= |s| && InBase(s, start, p, base) && i == Value(s, start, p, base) % W64
  }

  lemma DecimalRun(s: seq<Byte>, start: nat, p: nat, i: U64)
    requires start <= p <= |s| && AllDigits(s, start, p) && i == Accumulated(0, s, start, p)
    ensures ReadTo(s, start, p, 10, i)
  {
    ScaleZero(Ten, p - start);
    ValueIsDecimal(s, start, p);
  }

  lemma MoreDigits(s: seq<Byte>, start: nat, p: nat, base: nat, i: U64)
    requires p < |s| && ReadTo(s, start, p, base, i) && CharToDigit(s[p]) < base
    ensures ReadTo(s, start, p + 1, base, (i * base + CharToDigit(s[p])) % W64)
  {
    WrapStep(Value(s, start, p, base), base, CharToDigit(s[p]));
  }

  /** Accumulates a run of digits, eight at a time in base 10. */
  method ReadRun(s: seq<Byte>, start: nat, base: nat) returns (p: nat, i: U64)
    requires start <= |s| && 2 <= base <= 36
    ensures p == RunEnd(s, start, base) && i == Value(s, start, p, base) % W64
  {
    p, i := start, 0;
    if base == 10 {
      p, i := LoopParseIfEightDigits(s, start, 0);
      DecimalRun(s, start, p, i);
    }
    p, i := ReadRest(s, start, p, base, i);
    RunEndUnique(s, start, p, base);
  }

  /** The digits one by one. */
  method ReadRest(s: seq<Byte>, start: nat, from: nat, base: nat, before: U64) returns (p: nat, i: U64)
    requires 2 <= base <= 36 && ReadTo(s, start, from, base, before)
    ensures ReadTo(s, start, p, base, i) && (p < |s| ==> CharToDigit(s[p]) >= base)
  {
    p, i := from, before;
    while p != |s|
      invariant ReadTo(s, start, p, base, i)
      decreases |s| - p
    {
      var digit := CharToDigit(s[p]);
      if digit >= base {
        break;
      }
      MoreDigits(s, start, p, base, i);
      i := (i * base + digit) % W64;
      p := p + 1;
    }
  }

  function Negated(negative: bool, x: nat): int { if negative then -(x as int) else x }

  /** A number in range is stored exactly; one out of range is refused, unless it is an alias. */
  ghost predicate Answers(r: Result, kind: Kind, negative: bool, base: nat, v: nat, at: nat)
    requires 2 <= base <= 36
  {
    var limit := kind.Limit(negative);
    r == if v <= limit then Ok(Negated(negative, v), at)
         else if Aliases(v, base, limit) then Ok(Negated(negative, v % W64), at)
         else OutOfRange(at)
  }

  /** The text of 2^64 + 10^19. */
  const ALIAS: seq<Byte> := [50, 56, 52, 52, 54, 55, 52, 52, 48, 55, 51, 55, 48, 57, 53, 53, 49, 54, 49, 54]

  lemma AliasValue()
    ensures |ALIAS| == 20 && InBase(ALIAS, 0, 20, 10) && Value(ALIAS, 0, 20, 10) == 28446744073709551616
  {
    assert Value(ALIAS, 0, 0, 10) == 0;
    assert Value(ALIAS, 0, 1, 10) == 2;
    assert Value(ALIAS, 0, 2, 10) == 28;
    assert Value(ALIAS, 0, 3, 10) == 284;
    assert Value(ALIAS, 0, 4, 10) == 2844;
    assert Value(ALIAS, 0, 5, 10) == 28446;
    assert Value(ALIAS, 0, 6, 10) == 284467;
    assert Value(ALIAS, 0, 7, 10) == 2844674;
    assert Value(ALIAS, 0, 8, 10) == 28446744;
    assert Value(ALIAS, 0, 9, 10) == 284467440;
    assert Value(ALIAS, 0, 10, 10) == 2844674407;
    assert Value(ALIAS, 0, 11, 10) == 28446744073;
    assert Value(ALIAS, 0, 12, 10) == 284467440737;
    assert Value(ALIAS, 0, 13, 10) == 2844674407370;
    assert Value(ALIAS, 0, 14, 10) == 28446744073709;
    assert Value(ALIAS, 0, 15, 10) == 284467440737095;
    assert Value(ALIAS, 0, 16, 10) == 2844674407370955;
    assert Value(ALIAS, 0, 17, 10) == 28446744073709551;
    assert Value(ALIAS, 0, 18, 10) == 284467440737095516;
    assert Value(ALIAS, 0, 19, 10) == 2844674407370955161;
    assert Value(ALIAS, 0, 20, 10) == 28446744073709551616;
  }

  /** These 20 digits wrap around unnoticed: 2^64 + 10^19 is read as 10^19. */
  method UnsignedAlias(o: Options) returns (r: Result)
    ensures Value(ALIAS, 0, 20, 10) == 28446744073709551616 > Uint64.Limit(false) && r == Ok(10000000000000000000, 20)
  {
    ghost var first, start, end;
    r, first, start, end := ParseIntString(ALIAS, Uint64, o, 10);
    AliasValue();
    AliasRead(ALIAS, o, first);
    AliasAnswer(r);
    RunEndUnique(ALIAS, 0, end, 10);
    RunEndUnique(ALIAS, 0, 20, 10);
  }

  lemma AliasRead(s: seq<Byte>, o: Options, first: nat)
    requires |s| == 20 && s[0] == 50 && InBase(s, 0, 20, 10) && AfterBlanks(s, o, first)
    ensures first == 0 && IntegerAt(s, Uint64, o, 10, 0, 0, 20)
  {
    assert !IsSpace(s[0]);
  }

  lemma AliasAnswer(r: Result)
    ensures Answers(r, Uint64, false, 10, 28446744073709551616, 20) <==> r == Ok(10000000000000000000, 20)
  {
    assert Aliases(28446744073709551616, 10, Uint64.Limit(false));
  }

  /** Where the tests are decisive, a number is accepted exactly when it fits. */
  lemma AcceptsWhatFits(r: Result, kind: Kind, negative: bool, base: nat, v: nat, at: nat)
    requires 2 <= base <= 36 && Answers(r, kind, negative, base, v, at) && Decides(base, kind.Limit(negative))
    ensures r.Ok? <==> v <= kind.Limit(negative)
    ensures r.Ok? ==> r.value == Negated(negative, v)
  {
    DecidesExactly(base, kind.Limit(negative));
  }

  /** The tests after the scan. */
  method Check(kind: Kind, negative: bool, base: nat, i: U64, digitCount: nat, at: nat, ghost v: nat) returns (r: Result)
    requires 2 <= base <= 36 && (negative ==> kind.Signed()) && i == v % W64
    requires 0 < digitCount && Pow(base, digitCount - 1) <= v < Pow(base, digitCount)
    ensures Answers(r, kind, negative, base, v, at)
  {
    RangeTest(base, digitCount, v, kind.Limit(negative));
    if v < W64 {
      ModSmall(v, W64);
    }
    if digitCount > MaxDigits(base) {
      return OutOfRange(at);
    }
    if digitCount == MaxDigits(base) && i < MinSafe(base) {
      return OutOfRange(at);
    }
    if kind != Uint64 && i > kind.Max() + if negative then 1 else 0 {
      return OutOfRange(at);
    }
    StoredExact(kind, negative, i);
    r := Ok(Stored(kind, negative, i), at);
  }

  /**
   * ffc_parse_int_string. A number in range is always stored exactly, negative exactly after a minus; a number out of
   * range is refused, except for the aliases, which DecidesExactly rules out base by base and kind by kind.
   */
  method ParseIntString(s: seq<Byte>, kind: Kind, o: Options, base: int) returns (r: Result, ghost first: nat, ghost start: nat, ghost end: nat)
    ensures AfterBlanks(s, o, first)
    ensures IntegerAt(s, kind, o, base, first, start, end) ==> Answers(r, kind, s[first] == MINUS, base, Value(s, start, end, base), end)
    ensures !IntegerAt(s, kind, o, base, first, start, end) ==> r == InvalidInput(first) && forall i, j :: !IntegerAt(s, kind, o, base, first, i, j)
  {
    var p := 0;
    if o.skipWhiteSpace {
      while p != |s| && IsSpace(s[p])
        invariant p <= |s| && forall i :: 0 <= i < p ==> IsSpace(s[i])
      {
        p := p + 1;
      }
    }
    first, start, end := p, p, p;
    if p == |s| || base < 2 || base > 36 {
      r := InvalidInput(p);
      return;
    }
    var negative := s[p] == MINUS;
    if !kind.Signed() && negative {
      r := InvalidInput(p);
      return;
    }
    var at := p;
    if s[p] == MINUS || (o.leadingPlus && s[p] == PLUS) {
      p := p + 1;
    }
    start := p;
    r, end := ParseDigits(s, kind, base, at, p, negative);
    OnlyRun(s, start, end, base);
  }

  lemma OnlyRun(s: seq<Byte>, start: nat, end: nat, base: nat)
    requires DigitRun(s, start, end, base)
    ensures forall j :: DigitRun(s, start, j, base) ==> j == end
  {
    forall j | DigitRun(s, start, j, base)
      ensures j == end
    {
      RunEndUnique(s, start, j, base);
      RunEndUnique(s, start, end, base);
    }
  }

  /** Leading zeros, digits and range check, from the first position after the sign. */
  method ParseDigits(s: seq<Byte>, kind: Kind, base: nat, first: nat, startNum: nat, negative: bool) returns (r: Result, ghost end: nat)
    requires first <= startNum <= |s| && 2 <= base <= 36 && (negative ==> kind.Signed())
    ensures DigitRun(s, startNum, end, base)
    ensures startNum == end ==> r == InvalidInput(first)
    ensures startNum < end ==> Answers(r, kind, negative, base, Value(s, startNum, end, base), end)
  {
    var p := startNum;
    while p != |s| && s[p] == CHAR_0
      invariant startNum <= p <= |s| && forall i :: startNum <= i < p ==> s[i] == CHAR_0
    {
      p := p + 1;
    }
    var hasLeadingZeros := p > startNum;
    var startDigits := p;
    var i;
    p, i := ReadRun(s, startDigits, base);
    end := p;
    ghost var v := Value(s, startNum, p, base);
    ValueSkipZeros(s, startNum, startDigits, p, base);
    var digitCount := p - startDigits;
    if digitCount == 0 {
      r := if hasLeadingZeros then Ok(0, p) else InvalidInput(first);
      return;
    }
    ValueBelow(s, startDigits, p, base);
    ValueLeading(s, startDigits, p, base);
    r := Check(kind, negative, base, i, digitCount, p, v);
  }
}
