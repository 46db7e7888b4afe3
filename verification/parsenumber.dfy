/** ffc_parse_number_string: from text to a 64-bit mantissa and a decimal exponent. */
module ParseNumber {
  import opened Powers
  import opened Words
  import opened Digits
  import opened Swar

  const MINUS: Byte := '-' as int
  const PLUS: Byte := '+' as int
  const CHAR_0: Byte := '0' as int
  const CHAR_D: Byte := 'D' as int
  const CHAR_E: Byte := 'E' as int
  const CHAR_d: Byte := 'd' as int
  const CHAR_e: Byte := 'e' as int

  /** The format flags, and whether the basic JSON rules apply. */
  datatype Options = Options(scientific: bool, fixed: bool, fortran: bool, leadingPlus: bool, json: bool, decimalPoint: Byte)
  {
    /** A decimal point that is itself a digit could never be reached by the integer scan. */
    predicate Valid() { !IsDigit(decimalPoint) }
  }

  datatype Outcome =
    | JsonMissingIntegerAfterSign
    | MissingIntegerOrDotAfterSign
    | JsonLeadingZerosInIntegerPart
    | JsonNoDigitsInIntegerPart
    | JsonNoDigitsInFractionalPart
    | NoDigitsInMantissa
    | MissingExponentialPart

  /** Where the parts of a number lie: [intStart, intEnd) and, after a point, [fracStart, fracEnd). */
  datatype Layout = Layout(negative: bool, intStart: nat, intEnd: nat, hasFraction: bool, fracStart: nat, fracEnd: nat, exponent: int, last: nat)
  {
    predicate Fits(s: seq<Byte>)
    {
      && intStart <= intEnd <= fracStart <= fracEnd <= |s|
      && AllDigits(s, intStart, intEnd) && AllDigits(s, fracStart, fracEnd)
      && (hasFraction ==> fracStart == intEnd + 1)
      && (!hasFraction ==> fracStart == fracEnd == intEnd)
    }

    /** All the digits written, without the point. */
    function Written(s: seq<Byte>): (ds: seq<Byte>)
      requires Fits(s)
      ensures AllDigits(ds, 0, |ds|)
    {
      s[intStart..intEnd] + s[fracStart..fracEnd]
    }

    /** Their value as one integer; the number itself is Mantissa * 10^(exponent - FractionLength). */
    function Mantissa(s: seq<Byte>): nat
      requires Fits(s)
    {
      Dec(Written(s), 0, |Written(s)|)
    }

    function FractionLength(): int { fracEnd - fracStart }
  }

  datatype Lexed = Number(layout: Layout) | Malformed(at: nat, outcome: Outcome)

  // ---- the grammar ----

  /** The explicit exponent, which stops growing once it reaches 2^28. */
  function ExpNumber(s: seq<Byte>, a: nat, b: nat): nat
    requires a <= b <= |s| && AllDigits(s, a, b)
    decreases b - a
  {
    if a == b then 0
    else
      var e := ExpNumber(s, a, b - 1);
      if e < 0x1000_0000 then 10 * e + (s[b - 1] - 48) else e
  }

  /** Below 2^28 it is the exponent written, and it reaches 2^28 exactly when the written one does. */
  lemma {:induction false} ExpNumberExact(s: seq<Byte>, a: nat, b: nat)
    requires a <= b <= |s| && AllDigits(s, a, b)
    ensures Dec(s, a, b) < 0x1000_0000 ==> ExpNumber(s, a, b) == Dec(s, a, b)
    ensures Dec(s, a, b) >= 0x1000_0000 <==> ExpNumber(s, a, b) >= 0x1000_0000
    decreases b - a
  {
    if a < b {
      ExpNumberExact(s, a, b - 1);
    }
  }

  predicate StartsExponent(s: seq<Byte>, o: Options, p: nat)
  {
    p < |s| && ((o.scientific && s[p] in {CHAR_e, CHAR_E}) || (o.fortran && s[p] in {PLUS, MINUS, CHAR_d, CHAR_D}))
  }

  function LexExponent(s: seq<Byte>, o: Options, l: Layout, p: nat): Lexed
    requires p <= |s|
  {
    if StartsExponent(s, o, p) then
      var p1 := if s[p] in {CHAR_e, CHAR_E, CHAR_d, CHAR_D} then p + 1 else p;
      var p2 := if p1 < |s| && s[p1] in {MINUS, PLUS} then p1 + 1 else p1;
      if p2 == |s| || !IsDigit(s[p2]) then
        if o.json || !o.fixed then Malformed(p2, MissingExponentialPart) else Number(l.(exponent := 0, last := p))
      else
        var e := DigitEnd(s, p2);
        var n: int := ExpNumber(s, p2, e);
        Number(l.(exponent := if s[p1] == MINUS then -n else n, last := e))
    else if o.scientific && !o.fixed then Malformed(p, MissingExponentialPart)
    else Number(l.(exponent := 0, last := p))
  }

  // ---- what an exponent is, in text and value ----

  predicate Marker(o: Options, c: Byte) { (o.scientific && c in {CHAR_e, CHAR_E}) || (o.fortran && c in {CHAR_d, CHAR_D}) }

  /** A marker with or without a sign, or in Fortran a sign alone. */
  predicate Opening(o: Options, w: seq<Byte>)
  {
    || (1 <= |w| <= 2 && Marker(o, w[0]) && (|w| == 2 ==> w[1] in {PLUS, MINUS}))
    || (o.fortran && |w| == 1 && w[0] in {PLUS, MINUS})
  }

  /** An exponent stands at p: an opening up to d, and all the digits there are from d to e. */
  predicate ExponentAt(s: seq<Byte>, o: Options, p: nat, d: nat, e: nat)
  {
    p < d < e <= |s| && Opening(o, s[p..d]) && AllDigits(s, d, e) && (e < |s| ==> !IsDigit(s[e]))
  }

  /** x is the number n with its sign; only the sign and the size are kept from 2^28 on. */
  predicate Saturates(x: int, negative: bool, n: nat)
  {
    if n < 0x1000_0000 then (if negative then x == -(n as int) else x == n)
    else if negative then x <= -0x1000_0000 else x >= 0x1000_0000
  }

  /** What is reported when no exponent stands at p: pos is where the longest opening there ends, or p. */
  predicate OpeningEnds(s: seq<Byte>, o: Options, p: nat, pos: nat)
  {
    && p <= pos <= |s| && (pos == p || Opening(o, s[p..pos]))
    && forall d :: p < d <= |s| && Opening(o, s[p..d]) ==> d <= pos
  }

  /** r is what is to be made of an exponent written from d to e. */
  predicate ReadsExponent(s: seq<Byte>, l: Layout, d: nat, e: nat, r: Lexed)
    requires 0 < d <= e <= |s| && AllDigits(s, d, e)
  {
    && r.Number? && r.layout == l.(exponent := r.layout.exponent, last := e)
    && Saturates(r.layout.exponent, s[d - 1] == MINUS, Dec(s, d, e))
  }

  /** r is what is to be made of a number without an exponent: it ends at p or is rejected, as the options say. */
  predicate ReadsNoExponent(s: seq<Byte>, o: Options, l: Layout, p: nat, r: Lexed)
  {
    && (r.Malformed? ==> r.outcome == MissingExponentialPart && OpeningEnds(s, o, p, r.at))
    && (r.Number? ==> r.layout == l.(exponent := 0, last := p))
    && (r.Number? <==> if OpeningEnds(s, o, p, p) then o.fixed || !o.scientific else o.fixed && !o.json)
  }

  /** r follows the exponent written at p, or the fact that there is none. */
  ghost predicate ReadsAsWritten(s: seq<Byte>, o: Options, l: Layout, p: nat, r: Lexed)
  {
    && (forall d: nat, e: nat :: ExponentAt(s, o, p, d, e) ==> ReadsExponent(s, l, d, e, r))
    && ((forall d: nat, e: nat :: !ExponentAt(s, o, p, d, e)) ==> ReadsNoExponent(s, o, l, p, r))
  }

  /** The exponent read is the one written, if one is. */
  lemma ExponentMeaning(s: seq<Byte>, o: Options, l: Layout, p: nat)
    requires p <= |s|
    ensures ReadsAsWritten(s, o, l, p, LexExponent(s, o, l, p))
  {
    if StartsExponent(s, o, p) {
      OpenedMeaning(s, o, l, p);
    } else {
      NoOpening(s, o, p);
    }
  }

  lemma OpenedMeaning(s: seq<Byte>, o: Options, l: Layout, p: nat)
    requires StartsExponent(s, o, p)
    ensures ReadsAsWritten(s, o, l, p, LexExponent(s, o, l, p))
  {
    var p1 := if s[p] in {CHAR_e, CHAR_E, CHAR_d, CHAR_D} then p + 1 else p;
    var p2 := if p1 < |s| && s[p1] in {MINUS, PLUS} then p1 + 1 else p1;
    LongestOpening(s, o, p, p1, p2);
    if p2 < |s| && IsDigit(s[p2]) {
      WrittenOnce(s, o, l, p, p2, LexExponent(s, o, l, p));
    } else {
      NoDigitsFollow(s, o, p, p2);
    }
  }

  lemma WrittenOnce(s: seq<Byte>, o: Options, l: Layout, p: nat, p2: nat, r: Lexed)
    requires p < p2 < |s| && OpeningEnds(s, o, p, p2) && IsDigit(s[p2])
    requires var n := ExpNumber(s, p2, DigitEnd(s, p2)); r == Number(l.(exponent := if s[p2 - 1] == MINUS then -(n as int) else n, last := DigitEnd(s, p2)))
    ensures ReadsAsWritten(s, o, l, p, r)
  {
    OneExponent(s, o, p, p2);
    assert ReadsExponent(s, l, p2, DigitEnd(s, p2), r);
  }

  lemma NoDigitsFollow(s: seq<Byte>, o: Options, p: nat, p2: nat)
    requires p < p2 <= |s| && OpeningEnds(s, o, p, p2) && (p2 < |s| ==> !IsDigit(s[p2]))
    ensures forall d: nat, e: nat :: !ExponentAt(s, o, p, d, e)
    ensures !OpeningEnds(s, o, p, p)
  {
    forall d: nat, e: nat | ExponentAt(s, o, p, d, e)
      ensures false
    {
      OpeningHasNoDigit(s, o, p, d, p2);
    }
  }

  /** The byte after an opening that is part of a longer one is a sign. */
  lemma OpeningHasNoDigit(s: seq<Byte>, o: Options, p: nat, d: nat, p2: nat)
    requires p < d <= p2 <= |s| && Opening(o, s[p..d]) && Opening(o, s[p..p2])
    ensures d < p2 ==> !IsDigit(s[d])
  {
    if d < p2 {
      assert s[p..p2][d - p] == s[d];
    }
  }

  lemma NoOpening(s: seq<Byte>, o: Options, p: nat)
    requires p <= |s| && !StartsExponent(s, o, p)
    ensures forall d :: p < d <= |s| ==> !Opening(o, s[p..d])
  {
    forall d | p < d <= |s|
      ensures !Opening(o, s[p..d])
    {
      assert s[p..d][0] == s[p];
    }
  }

  lemma LongestOpening(s: seq<Byte>, o: Options, p: nat, p1: nat, p2: nat)
    requires StartsExponent(s, o, p)
    requires p1 == if s[p] in {CHAR_e, CHAR_E, CHAR_d, CHAR_D} then p + 1 else p
    requires p2 == if p1 < |s| && s[p1] in {MINUS, PLUS} then p1 + 1 else p1
    ensures p < p2 && Opening(o, s[p..p2]) && OpeningEnds(s, o, p, p2)
  {
    assert s[p..p2][0] == s[p];
    forall d | p < d <= |s| && Opening(o, s[p..d])
      ensures d <= p2
    {
      assert s[p..d][0] == s[p];
      if d == p + 2 {
        assert s[p..d][1] == s[p + 1];
      }
    }
  }

  /** Where digits follow the longest opening, they are the exponent and there is no other. */
  lemma OneExponent(s: seq<Byte>, o: Options, p: nat, p2: nat)
    requires p < p2 < |s| && OpeningEnds(s, o, p, p2) && IsDigit(s[p2])
    ensures ExponentAt(s, o, p, p2, DigitEnd(s, p2)) && Saturates(ExpNumber(s, p2, DigitEnd(s, p2)), false, Dec(s, p2, DigitEnd(s, p2)))
    ensures forall d: nat, e: nat :: ExponentAt(s, o, p, d, e) ==> d == p2 && e == DigitEnd(s, p2)
  {
    ExpNumberExact(s, p2, DigitEnd(s, p2));
    forall d: nat, e: nat | ExponentAt(s, o, p, d, e)
      ensures d == p2 && e == DigitEnd(s, p2)
    {
      OpeningHasNoDigit(s, o, p, d, p2);
      DigitEndUnique(s, d, e);
    }
  }

  /** The digit runs from a on, and the fraction if a point follows the first one. */
  function Region(s: seq<Byte>, o: Options, negative: bool, a: nat): (l: Layout)
    requires a <= |s|
    ensures LayoutFollows(s, o, l)
  {
    var b := DigitEnd(s, a);
    if b < |s| && s[b] == o.decimalPoint then
      var d := DigitEnd(s, b + 1);
      Layout(negative, a, b, true, b + 1, d, 0, d)
    else Layout(negative, a, b, false, b, b, 0, b)
  }

  /** The text around the digits: the point is there if and only if a fraction is. */
  predicate LayoutFollows(s: seq<Byte>, o: Options, l: Layout)
  {
    && l.Fits(s)
    && (l.hasFraction ==> s[l.intEnd] == o.decimalPoint)
    && (!l.hasFraction && l.intEnd < |s| ==> s[l.intEnd] != o.decimalPoint)
  }

  function LexDigits(s: seq<Byte>, o: Options, negative: bool, a: nat): (r: Lexed)
    requires a <= |s|
    ensures r.Number? ==> LayoutFollows(s, o, r.layout)
  {
    var l := Region(s, o, negative, a);
    if o.json && a == l.intEnd then Malformed(a, JsonNoDigitsInIntegerPart)
    else if o.json && s[a] == CHAR_0 && l.intEnd - a > 1 then Malformed(a, JsonLeadingZerosInIntegerPart)
    else if o.json && l.hasFraction && l.fracStart == l.fracEnd then Malformed(l.last, JsonNoDigitsInFractionalPart)
    else if l.intEnd == a && l.FractionLength() == 0 then Malformed(l.last, NoDigitsInMantissa)
    else LexExponent(s, o, l, l.last)
  }

  function Lex(s: seq<Byte>, o: Options): (r: Lexed)
    requires |s| > 0
    ensures r.Number? ==> LayoutFollows(s, o, r.layout)
  {
    var negative := s[0] == MINUS;
    if negative || (o.leadingPlus && !o.json && s[0] == PLUS) then
      if |s| == 1 then Malformed(1, MissingIntegerOrDotAfterSign)
      else if o.json && !IsDigit(s[1]) then Malformed(1, JsonMissingIntegerAfterSign)
      else if !o.json && !IsDigit(s[1]) && s[1] != o.decimalPoint then Malformed(1, MissingIntegerOrDotAfterSign)
      else LexDigits(s, o, negative, 1)
    else LexDigits(s, o, negative, 0)
  }

  // ---- what a number is, in text ----

  /** Where the mantissa ends in the text. */
  function MantissaEnd(l: Layout): nat { if l.hasFraction then l.fracEnd else l.intEnd }

  /** All the digits there are from a on. */
  predicate DigitRun(s: seq<Byte>, a: nat, b: nat) { a <= b <= |s| && AllDigits(s, a, b) && (b < |s| ==> !IsDigit(s[b])) }

  /** The first byte is a minus, or a plus that the options allow. */
  predicate SignFirst(s: seq<Byte>, o: Options) { s != [] && (s[0] == MINUS || (s[0] == PLUS && o.leadingPlus && !o.json)) }

  /** A sign, all digits that follow it, and a fraction if and only if a decimal point follows them. */
  predicate MantissaAt(s: seq<Byte>, o: Options, l: Layout)
  {
    && (l.negative <==> s != [] && s[0] == MINUS)
    && l.intStart == (if SignFirst(s, o) then 1 else 0) && DigitRun(s, l.intStart, l.intEnd)
    && (l.hasFraction <==> l.intEnd < |s| && s[l.intEnd] == o.decimalPoint)
    && (l.hasFraction ==> l.fracStart == l.intEnd + 1 && DigitRun(s, l.fracStart, l.fracEnd))
    && (!l.hasFraction ==> l.fracStart == l.fracEnd == l.intEnd)
  }

  /** Enough digits, and in JSON no leading zero and no empty part. */
  predicate DigitsSuffice(s: seq<Byte>, o: Options, l: Layout)
    requires l.Fits(s)
  {
    if o.json then
      l.intStart < l.intEnd && (s[l.intStart] == CHAR_0 ==> l.intEnd == l.intStart + 1) && (l.hasFraction ==> l.fracStart < l.fracEnd)
    else l.Written(s) != []
  }

  /** The text shows the number with layout l: the mantissa, and the exponent if there is one, as the options demand. */
  ghost predicate Shows(s: seq<Byte>, o: Options, l: Layout)
  {
    MantissaAt(s, o, l) && DigitsSuffice(s, o, l) && ReadsAsWritten(s, o, l, MantissaEnd(l), Number(l))
  }

  ghost predicate ShowsNone(s: seq<Byte>, o: Options) { forall l :: !Shows(s, o, l) }

  /** What is wrong with the text, and where. */
  ghost predicate Faulty(s: seq<Byte>, o: Options, at: nat, outcome: Outcome)
  {
    exists l :: MantissaAt(s, o, l) && Fault(s, o, l, at, outcome)
  }

  /** Why a text with mantissa l shows no number. */
  predicate Fault(s: seq<Byte>, o: Options, l: Layout, at: nat, outcome: Outcome)
    requires l.Fits(s)
  {
    match outcome
    case MissingIntegerOrDotAfterSign => at == l.intStart == 1 && (|s| == 1 || (!o.json && l.intEnd == 1 && !l.hasFraction))
    case JsonMissingIntegerAfterSign => o.json && at == l.intStart == l.intEnd == 1 < |s|
    case JsonNoDigitsInIntegerPart => o.json && at == l.intStart == l.intEnd == 0
    case JsonLeadingZerosInIntegerPart => o.json && at == l.intStart && l.intStart + 1 < l.intEnd && s[l.intStart] == CHAR_0
    case JsonNoDigitsInFractionalPart => o.json && l.intStart < l.intEnd && l.hasFraction && at == l.fracStart == l.fracEnd
    case NoDigitsInMantissa => !o.json && l.Written(s) == [] && at == MantissaEnd(l) && (l.hasFraction || l.intStart == 0)
    case MissingExponentialPart => DigitsSuffice(s, o, l) && OpeningEnds(s, o, MantissaEnd(l), at)
  }

  /** The grammar accepts exactly the texts that show a number, and says why not otherwise. */
  lemma LexMeaning(s: seq<Byte>, o: Options) returns (l: Layout)
    requires s != []
    ensures MantissaAt(s, o, l)
    ensures Lex(s, o).Number? ==> Shows(s, o, Lex(s, o).layout)
    ensures Lex(s, o).Malformed? ==> Fault(s, o, l, Lex(s, o).at, Lex(s, o).outcome) && forall m :: !Shows(s, o, m)
  {
    l := Region(s, o, s[0] == MINUS, if SignFirst(s, o) then 1 else 0);
    RegionIsMantissa(s, o, l);
    if DigitsSuffice(s, o, l) {
      LexesOn(s, o, l);
      ShownWithExponent(s, o, l);
    } else {
      LexesNot(s, o, l);
      ShownNot(s, o, l);
    }
  }

  lemma ShownWithExponent(s: seq<Byte>, o: Options, l: Layout)
    requires MantissaAt(s, o, l) && DigitsSuffice(s, o, l)
    ensures var r := LexExponent(s, o, l, MantissaEnd(l));
            && (r.Number? ==> Shows(s, o, r.layout))
            && (r.Malformed? ==> Fault(s, o, l, r.at, r.outcome) && forall m :: !Shows(s, o, m))
  {
    ExponentMeaning(s, o, l, MantissaEnd(l));
    var r := LexExponent(s, o, l, MantissaEnd(l));
    if r.Malformed? {
      NoneShown(s, o, l);
    } else {
      SameReading(s, o, l, r.layout);
      assert r.layout.Written(s) == l.Written(s);
    }
  }

  lemma ShownNot(s: seq<Byte>, o: Options, l: Layout)
    requires MantissaAt(s, o, l) && !DigitsSuffice(s, o, l)
    ensures forall m :: !Shows(s, o, m)
  {
    forall m
      ensures !Shows(s, o, m)
    {
      if Shows(s, o, m) {
        SameMantissa(s, o, l, m);
      }
    }
  }

  lemma LexesOn(s: seq<Byte>, o: Options, l: Layout)
    requires s != [] && l == Region(s, o, s[0] == MINUS, if SignFirst(s, o) then 1 else 0) && DigitsSuffice(s, o, l)
    ensures Lex(s, o) == LexExponent(s, o, l, MantissaEnd(l))
  {
    LexedDigits(s, o, l);
  }

  lemma LexedDigits(s: seq<Byte>, o: Options, l: Layout)
    requires l.intStart <= |s| && l == Region(s, o, l.negative, l.intStart) && DigitsSuffice(s, o, l)
    ensures LexDigits(s, o, l.negative, l.intStart) == LexExponent(s, o, l, MantissaEnd(l))
    ensures l.intStart < |s| && (IsDigit(s[l.intStart]) || (!o.json && s[l.intStart] == o.decimalPoint))
  {
  }

  lemma LexesNot(s: seq<Byte>, o: Options, l: Layout)
    requires s != [] && l == Region(s, o, s[0] == MINUS, if SignFirst(s, o) then 1 else 0) && !DigitsSuffice(s, o, l)
    ensures Lex(s, o).Malformed? && Fault(s, o, l, Lex(s, o).at, Lex(s, o).outcome)
  {
    if !SignFirst(s, o) {
      LexedNot(s, o, l);
    } else if |s| > 1 && (IsDigit(s[1]) || (!o.json && s[1] == o.decimalPoint)) {
      LexedNot(s, o, l);
    }
  }

  lemma LexedNot(s: seq<Byte>, o: Options, l: Layout)
    requires l.intStart <= |s| && l == Region(s, o, l.negative, l.intStart) && !DigitsSuffice(s, o, l) && l.intStart <= 1
    requires l.intStart == 1 ==> |s| > 1 && (IsDigit(s[1]) || (!o.json && s[1] == o.decimalPoint))
    ensures var r := LexDigits(s, o, l.negative, l.intStart); r.Malformed? && Fault(s, o, l, r.at, r.outcome)
  {
  }

  lemma RegionIsMantissa(s: seq<Byte>, o: Options, l: Layout)
    requires s != [] && l == Region(s, o, s[0] == MINUS, if SignFirst(s, o) then 1 else 0)
    ensures MantissaAt(s, o, l) && l.exponent == 0 && l.last == MantissaEnd(l)
  {
  }

  /** There is only one mantissa. */
  lemma SameMantissa(s: seq<Byte>, o: Options, l: Layout, m: Layout)
    requires MantissaAt(s, o, l) && MantissaAt(s, o, m)
    ensures m == l.(exponent := m.exponent, last := m.last)
  {
    DigitEndUnique(s, l.intStart, l.intEnd);
    DigitEndUnique(s, l.intStart, m.intEnd);
    if l.hasFraction {
      DigitEndUnique(s, l.fracStart, l.fracEnd);
      DigitEndUnique(s, l.fracStart, m.fracEnd);
    }
  }

  lemma NoneShown(s: seq<Byte>, o: Options, l: Layout)
    requires MantissaAt(s, o, l) && LexExponent(s, o, l, MantissaEnd(l)).Malformed?
    requires ReadsAsWritten(s, o, l, MantissaEnd(l), LexExponent(s, o, l, MantissaEnd(l)))
    ensures LexExponent(s, o, l, MantissaEnd(l)).outcome == MissingExponentialPart
    ensures OpeningEnds(s, o, MantissaEnd(l), LexExponent(s, o, l, MantissaEnd(l)).at)
    ensures forall m :: !Shows(s, o, m)
  {
    var p, r := MantissaEnd(l), LexExponent(s, o, l, MantissaEnd(l));
    assert forall d: nat, e: nat :: !ExponentAt(s, o, p, d, e);
    forall m
      ensures !Shows(s, o, m)
    {
      if Shows(s, o, m) {
        SameMantissa(s, o, l, m);
      }
    }
  }

  lemma SameReading(s: seq<Byte>, o: Options, l: Layout, m: Layout)
    requires MantissaAt(s, o, l) && ReadsAsWritten(s, o, l, MantissaEnd(l), Number(m)) && m == l.(exponent := m.exponent, last := m.last)
    ensures MantissaAt(s, o, m) && ReadsAsWritten(s, o, m, MantissaEnd(m), Number(m))
  {
    var p := MantissaEnd(l);
    forall d: nat, e: nat | ExponentAt(s, o, p, d, e)
      ensures ReadsExponent(s, m, d, e, Number(m))
    {
      assert ReadsExponent(s, l, d, e, Number(m));
    }
  }

  // ---- what the 64-bit result keeps of the number ----

  const TEN_18: nat := 1000000000000000000
  const TEN_19: nat := 10000000000000000000

  /** mantissa * 10^exponent is the number d * 10^e, or its leading 19 digits when it has more. */
  ghost predicate Keeps(d: nat, e: int, mantissa: nat, exponent: int, tooMany: bool)
  {
    && (tooMany <==> d >= TEN_19)
    && (!tooMany ==> mantissa == d && exponent == e)
    && (tooMany ==>
          && TEN_18 <= mantissa < TEN_19 && e < exponent
          && Scale(mantissa, Ten, exponent - e) <= d < Scale(mantissa + 1, Ten, exponent - e))
  }

  lemma TenTo19(n: nat)
    requires n == 18 || n == 19
    ensures Scale(1, Ten, n) == if n == 18 then TEN_18 else TEN_19
  {
    var x4, x8, x12, x16 := Scale(1, Ten, 4), Scale(1, Ten, 8), Scale(1, Ten, 12), Scale(1, Ten, 16);
    TenThousand(1, 4);
    ScaleCompose(1, Ten, 4, 4);
    TenThousand(x4, 4);
    ScaleCompose(1, Ten, 8, 4);
    TenThousand(x8, 4);
    ScaleCompose(1, Ten, 12, 4);
    TenThousand(x12, 4);
    assert Scale(1, Ten, 17) == 10 * x16;
    assert Scale(1, Ten, 18) == 100 * x16;
  }

  datatype Parsed =
    | Invalid(at: nat, outcome: Outcome)
    | Valid(layout: Layout, mantissa: U64, exponent: int, tooManyDigits: bool)

  /** The digits of a layout are the integer digits and then the fraction digits. */
  lemma WrittenAt(s: seq<Byte>, l: Layout, i: nat)
    requires l.Fits(s) && i < |l.Written(s)|
    ensures var n := l.intEnd - l.intStart;
            l.Written(s)[i] == if i < n then s[l.intStart + i] else s[l.fracStart + (i - n)]
  {
  }

  lemma {:induction false} DecSlice(s: seq<Byte>, t: seq<Byte>, a: nat, b: nat, x: nat)
    requires a <= b <= |s| && x + (b - a) <= |t| && AllDigits(s, a, b)
    requires forall i :: a <= i < b ==> t[x + (i - a)] == s[i]
    ensures AllDigits(t, x, x + (b - a))
    ensures Dec(t, x, x + (b - a)) == Dec(s, a, b)
    decreases b - a
  {
    forall j | x <= j < x + (b - a)
      ensures IsDigit(t[j])
    {
      assert t[x + ((a + (j - x)) - a)] == s[a + (j - x)];
    }
    if a < b {
      DecSlice(s, t, a, b - 1, x);
      assert t[x + (b - 1 - a)] == s[b - 1];
    }
  }

  /** The accumulator that ran over both parts holds the mantissa modulo 2^64. */
  lemma BothParts(s: seq<Byte>, l: Layout)
    requires l.Fits(s)
    ensures l.Mantissa(s) == Scale(Dec(s, l.intStart, l.intEnd), Ten, l.FractionLength()) + Dec(s, l.fracStart, l.fracEnd)
  {
    var ds, n := l.Written(s), l.intEnd - l.intStart;
    DecSplit(ds, 0, n, |ds|);
    DecSlice(s, ds, l.intStart, l.intEnd, 0);
    DecSlice(s, ds, l.fracStart, l.fracEnd, n);
  }

  lemma BothPartsWrapped(s: seq<Byte>, l: Layout, i: U64)
    requires l.Fits(s)
    requires i == Accumulated(Accumulated(0, s, l.intStart, l.intEnd), s, l.fracStart, l.fracEnd)
    ensures i == l.Mantissa(s) % W64
  {
    BothParts(s, l);
    ScaleZero(Ten, l.intEnd - l.intStart);
    WrapScaled(Dec(s, l.intStart, l.intEnd), l.fracEnd - l.fracStart, Dec(s, l.fracStart, l.fracEnd));
  }

  lemma WrapScaled(x: nat, k: nat, v: nat)
    ensures (Scale(x % W64, Ten, k) + v) % W64 == (Scale(x, Ten, k) + v) % W64
  {
    WrapStep(x, Scale(1, Ten, k), v);
    ScaleMul(x % W64, 1, Ten, k);
    ScaleMul(x, 1, Ten, k);
  }

  // ---- the leading zeros ----

  /** Digits of the mantissa at or after text position p. */
  function DigitsFrom(l: Layout, p: nat): int
  {
    if p <= l.intEnd then l.intEnd - p + l.FractionLength() else l.fracEnd - p
  }

  /** Everything written before text position p is a zero. */
  ghost predicate ZerosBefore(s: seq<Byte>, l: Layout, p: nat)
    requires l.Fits(s)
  {
    && (forall i :: l.intStart <= i < l.intEnd && i < p ==> s[i] == CHAR_0)
    && (forall i :: l.fracStart <= i < l.fracEnd && i < p ==> s[i] == CHAR_0)
  }

  /** Once the leading zeros are skipped, the digits left tell the size of the mantissa. */
  lemma SignificantDigits(s: seq<Byte>, l: Layout, p: nat)
    requires l.Fits(s) && l.intStart <= p <= MantissaEnd(l) && ZerosBefore(s, l, p) && p != l.intEnd
    requires p < MantissaEnd(l) ==> s[p] != CHAR_0
    ensures DigitsFrom(l, p) <= 19 <==> l.Mantissa(s) < TEN_19
  {
    var ds := l.Written(s);
    var k := |ds| - DigitsFrom(l, p);
    forall i | 0 <= i < k
      ensures ds[i] == CHAR_0
    {
      WrittenAt(s, l, i);
    }
    DecSkipZeros(ds, 0, k, |ds|);
    TenTo19(19);
    if k < |ds| {
      WrittenAt(s, l, k);
      DecLeading(ds, k, |ds|);
      if |ds| - k <= 19 {
        ScaleGrows(1, Ten, |ds| - k, 19);
      } else {
        ScaleGrows(1, Ten, 19, |ds| - k - 1);
      }
    }
  }

  lemma OnlyZeros(s: seq<Byte>, l: Layout, p: nat)
    requires l.Fits(s) && MantissaEnd(l) <= p && ZerosBefore(s, l, p)
    ensures l.Mantissa(s) == 0
  {
    var ds := l.Written(s);
    forall i | 0 <= i < |ds|
      ensures ds[i] == CHAR_0
    {
      WrittenAt(s, l, i);
    }
    DecZero(ds, 0, |ds|);
  }

  /** The loop over leading zeros and the point: it ends with at most 19 exactly when the mantissa is below 10^19. */
  method CountSignificant(s: seq<Byte>, o: Options, l: Layout) returns (digitCount: int)
    requires o.Valid() && l.Fits(s) && (l.hasFraction ==> s[l.intEnd] == o.decimalPoint)
    requires MantissaEnd(l) < |s| && !l.hasFraction ==> s[l.intEnd] != o.decimalPoint
    ensures digitCount <= 19 <==> l.Mantissa(s) < TEN_19
  {
    digitCount := |l.Written(s)|;
    var start := l.intStart;
    while start != |s| && (s[start] == CHAR_0 || s[start] == o.decimalPoint)
      invariant l.intStart <= start <= |s| && ZerosBefore(s, l, start)
      invariant start <= MantissaEnd(l) ==> digitCount == DigitsFrom(l, start)
      invariant start > MantissaEnd(l) ==> digitCount <= 0
    {
      if s[start] == CHAR_0 {
        digitCount := digitCount - 1;
      }
      start := start + 1;
    }
    if start < MantissaEnd(l) {
      SignificantDigits(s, l, start);
    } else {
      OnlyZeros(s, l, start);
    }
  }

  // ---- the restart for long numbers ----

  /** Re-reads digits from position p of the text until the accumulator has 19 of them. */
  method Refill(s: seq<Byte>, p0: nat, end: nat, i0: nat, ghost ds: seq<Byte>, ghost k0: nat) returns (p: nat, i: nat)
    requires p0 <= end <= |s| && k0 + (end - p0) <= |ds| && AllDigits(ds, 0, |ds|)
    requires forall j :: p0 <= j < end ==> s[j] == ds[k0 + (j - p0)]
    requires i0 == Dec(ds, 0, k0) < TEN_19
    ensures p0 <= p <= end && i == Dec(ds, 0, k0 + (p - p0)) < TEN_19
    ensures i < TEN_18 ==> p == end
    ensures i0 < TEN_18 <= i ==> p0 < p
  {
    p, i := p0, i0;
    while i < TEN_18 && p != end
      invariant p0 <= p <= end && i == Dec(ds, 0, k0 + (p - p0)) < TEN_19
      invariant i0 >= TEN_18 ==> p == p0
    {
      i := i * 10 + (s[p] - 48);
      p := p + 1;
    }
  }

  /** The leading 19 digits of a longer number; the fraction is read only if the integer part runs out first. */
  method Truncate(s: seq<Byte>, l: Layout) returns (i: U64, exponent: int)
    requires l.Fits(s) && TEN_19 <= l.Mantissa(s)
    ensures Keeps(l.Mantissa(s), l.exponent - l.FractionLength(), i, exponent, true)
  {
    ghost var ds := l.Written(s);
    ghost var n := l.intEnd - l.intStart;
    var p, j := Refill(s, l.intStart, l.intEnd, 0, ds, 0);
    ghost var k := p - l.intStart;
    if j >= TEN_18 {
      exponent := l.intEnd - p + l.exponent;
    } else {
      assert l.hasFraction by {
        if !l.hasFraction {
          assert false;
        }
      }
      p, j := Refill(s, l.fracStart, l.fracEnd, j, ds, n);
      exponent := l.fracStart - p + l.exponent;
      k := n + (p - l.fracStart);
    }
    i := j;
    LeadingDigits(ds, k, j);
  }

  lemma LeadingDigits(ds: seq<Byte>, k: nat, i: nat)
    requires k <= |ds| && AllDigits(ds, 0, |ds|) && TEN_19 <= Dec(ds, 0, |ds|)
    requires i == Dec(ds, 0, k) && (i < TEN_18 ==> k == |ds|) && i < TEN_19
    ensures k < |ds| && TEN_18 <= i
    ensures Scale(i, Ten, |ds| - k) <= Dec(ds, 0, |ds|) < Scale(i + 1, Ten, |ds| - k)
  {
    DecSplit(ds, 0, k, |ds|);
    DecBound(ds, k, |ds|);
    ScaleSum(i, 1, Ten, |ds| - k);
  }

  // ---- the parser ----

  /** The scan of the integer part. */
  method ScanInteger(s: seq<Byte>, start: nat) returns (p: nat, i: U64)
    requires start <= |s|
    ensures p == DigitEnd(s, start) && i == Accumulated(0, s, start, p)
  {
    p, i := start, 0;
    while p != |s| && IsDigit(s[p])
      invariant start <= p <= |s| && AllDigits(s, start, p)
      invariant i == Accumulated(0, s, start, p)
      invariant DigitEnd(s, p) == DigitEnd(s, start)
    {
      p, i := OneDigit(s, start, 0, p, i);
    }
  }

  /** The digits of the explicit exponent. */
  method ScanExponent(s: seq<Byte>, start: nat) returns (p: nat, e: nat)
    requires start <= |s|
    ensures p == DigitEnd(s, start) && e == ExpNumber(s, start, p)
  {
    p, e := start, 0;
    while p != |s| && IsDigit(s[p])
      invariant start <= p <= |s| && AllDigits(s, start, p) && DigitEnd(s, p) == DigitEnd(s, start)
      invariant e == ExpNumber(s, start, p)
    {
      var digit := s[p] - 48;
      if e < 0x1000_0000 {
        e := 10 * e + digit;
      }
      p := p + 1;
    }
  }

  /** The exponent part, after the mantissa ended at p. */
  method ParseExponent(s: seq<Byte>, o: Options, l: Layout, mantissaEnd: nat) returns (r: Lexed)
    requires mantissaEnd <= |s|
    ensures r == LexExponent(s, o, l, mantissaEnd)
  {
    var p := mantissaEnd;
    if (o.scientific && p != |s| && (s[p] == CHAR_e || s[p] == CHAR_E))
       || (o.fortran && p != |s| && (s[p] == PLUS || s[p] == MINUS || s[p] == CHAR_d || s[p] == CHAR_D)) {
      var locationOfE := p;
      if s[p] == CHAR_e || s[p] == CHAR_E || s[p] == CHAR_d || s[p] == CHAR_D {
        p := p + 1;
      }
      var negExp := false;
      if p != |s| && s[p] == MINUS {
        negExp := true;
        p := p + 1;
      } else if p != |s| && s[p] == PLUS {
        p := p + 1;
      }
      if p == |s| || !IsDigit(s[p]) {
        if o.json || !o.fixed {
          return Malformed(p, MissingExponentialPart);
        }
        p := locationOfE;
        r := Number(l.(exponent := 0, last := p));
      } else {
        var e: int;
        p, e := ScanExponent(s, p);
        if negExp {
          e := -e;
        }
        r := Number(l.(exponent := e, last := p));
      }
    } else {
      if o.scientific && !o.fixed {
        return Malformed(p, MissingExponentialPart);
      }
      r := Number(l.(exponent := 0, last := p));
    }
  }

  /** Both digit runs, accumulated modulo 2^64. */
  method ScanMantissa(s: seq<Byte>, o: Options, negative: bool, startDigits: nat) returns (l: Layout, i: U64)
    requires startDigits <= |s|
    ensures l == Region(s, o, negative, startDigits)
    ensures i == l.Mantissa(s) % W64
  {
    var p;
    p, i := ScanInteger(s, startDigits);
    l := Layout(negative, startDigits, p, false, p, p, 0, p);
    if p != |s| && s[p] == o.decimalPoint {
      var before := p + 1;
      var end;
      end, i := ScanFraction(s, before, i);
      l := Layout(negative, startDigits, p, true, before, end, 0, end);
    } else {
      ModSmall(i, W64);
    }
    BothPartsWrapped(s, l, i);
  }

  /** The digits, the exponent, and the 64-bit accumulator over the digits. */
  method ParseDigits(s: seq<Byte>, o: Options, negative: bool, startDigits: nat) returns (r: Lexed, i: U64)
    requires o.Valid() && startDigits <= |s|
    ensures r == LexDigits(s, o, negative, startDigits)
    ensures r.Number? ==> i == r.layout.Mantissa(s) % W64
  {
    var l;
    l, i := ScanMantissa(s, o, negative, startDigits);
    var digitCount := l.intEnd - startDigits + (l.fracEnd - l.fracStart);
    if o.json {
      if l.intEnd == startDigits {
        return Malformed(startDigits, JsonNoDigitsInIntegerPart), i;
      }
      if s[startDigits] == CHAR_0 && l.intEnd - startDigits > 1 {
        return Malformed(startDigits, JsonLeadingZerosInIntegerPart), i;
      }
      if l.hasFraction && l.fracEnd == l.fracStart {
        return Malformed(l.last, JsonNoDigitsInFractionalPart), i;
      }
    } else if digitCount == 0 {
      return Malformed(l.last, NoDigitsInMantissa), i;
    }
    r := ParseExponent(s, o, l, l.last);
    if r.Number? {
      SameDigits(s, l, r.layout);
    }
  }

  lemma SameDigits(s: seq<Byte>, l: Layout, m: Layout)
    requires l.Fits(s) && m.Fits(s)
    requires l.intStart == m.intStart && l.intEnd == m.intEnd && l.fracStart == m.fracStart && l.fracEnd == m.fracEnd
    ensures l.Mantissa(s) == m.Mantissa(s)
  {
    assert l.Written(s) == m.Written(s);
  }

  /** The text up to the point where the mantissa and exponent are known. */
  method Scan(s: seq<Byte>, o: Options) returns (r: Lexed, i: U64)
    requires |s| > 0 && o.Valid()
    ensures r == Lex(s, o)
    ensures r.Number? ==> i == r.layout.Mantissa(s) % W64
  {
    var p := 0;
    var negative := s[p] == MINUS;
    if s[p] == MINUS || (o.leadingPlus && !o.json && s[p] == PLUS) {
      p := p + 1;
      if p == |s| {
        return Malformed(p, MissingIntegerOrDotAfterSign), 0;
      }
      if o.json {
        if !IsDigit(s[p]) {
          return Malformed(p, JsonMissingIntegerAfterSign), 0;
        }
      } else if !IsDigit(s[p]) && s[p] != o.decimalPoint {
        return Malformed(p, MissingIntegerOrDotAfterSign), 0;
      }
    }
    r, i := ParseDigits(s, o, negative, p);
  }

  /**
   * ffc_parse_number_string: accepts exactly the grammar, and its 64-bit mantissa and exponent keep the number,
   * exactly up to 19 significant digits and as its leading 19 digits beyond.
   */
  method Parse(s: seq<Byte>, o: Options) returns (r: Parsed)
    requires |s| > 0 && o.Valid()
    ensures Lex(s, o).Malformed? <==> r.Invalid?
    ensures r.Invalid? ==> Lex(s, o) == Malformed(r.at, r.outcome)
    ensures r.Valid? ==> Lex(s, o) == Number(r.layout) && Shows(s, o, r.layout)
    ensures r.Invalid? ==> ShowsNone(s, o) && Faulty(s, o, r.at, r.outcome)
    ensures r.Valid? ==>
              Keeps(r.layout.Mantissa(s), r.layout.exponent - r.layout.FractionLength(), r.mantissa, r.exponent, r.tooManyDigits)
  {
    ghost var l := LexMeaning(s, o);
    var lexed, i := Scan(s, o);
    match lexed {
      case Malformed(at, outcome) =>
        r := Invalid(at, outcome);
      case Number(l) =>
        r := Convert(s, o, l, i);
    }
  }

  /** Decides between the accumulator and the restart. */
  method Convert(s: seq<Byte>, o: Options, l: Layout, i: U64) returns (r: Parsed)
    requires o.Valid() && LayoutFollows(s, o, l) && i == l.Mantissa(s) % W64
    ensures r.Valid? && r.layout == l
    ensures Keeps(l.Mantissa(s), l.exponent - l.FractionLength(), r.mantissa, r.exponent, r.tooManyDigits)
  {
    var mantissa, exponent, tooMany := i, l.exponent - l.FractionLength(), false;
    ShortIsExact(s, l);
    if |l.Written(s)| > 19 {
      var digitCount := CountSignificant(s, o, l);
      if digitCount > 19 {
        tooMany := true;
        mantissa, exponent := Truncate(s, l);
      }
    }
    r := Valid(l, mantissa, exponent, tooMany);
  }

  lemma ShortIsExact(s: seq<Byte>, l: Layout)
    requires l.Fits(s)
    ensures |l.Written(s)| <= 19 ==> l.Mantissa(s) < TEN_19
    ensures l.Mantissa(s) < TEN_19 ==> l.Mantissa(s) % W64 == l.Mantissa(s)
  {
    var ds := l.Written(s);
    DecBound(ds, 0, |ds|);
    TenTo19(19);
    if |ds| <= 19 {
      ScaleGrows(1, Ten, |ds|, 19);
    }
    if l.Mantissa(s) < TEN_19 {
      ModSmall(l.Mantissa(s), W64);
    }
  }
}
