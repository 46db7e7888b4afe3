/** Runs of decimal digits in a byte buffer. */
module Digits {
  import opened Powers

  type Byte = x: nat | x < 256

  /** ffc_is_integer. */
  predicate IsDigit(b: Byte) { 48 <= b <= 57 }

  predicate AllDigits(s: seq<Byte>, a: nat, b: nat)
    requires a <= b <= |s|
  {
    forall i :: a <= i < b ==> IsDigit(s[i])
  }

  /** The number written by the digits in [a, b). */
  function Dec(s: seq<Byte>, a: nat, b: nat): nat
    requires a <= b <= |s| && AllDigits(s, a, b)
    decreases b - a
  {
    if a == b then 0 else 10 * Dec(s, a, b - 1) + (s[b - 1] - 48)
  }

  /** Where the digits that start at p stop. */
  function DigitEnd(s: seq<Byte>, p: nat): (e: nat)
    requires p <= |s|
    ensures p <= e <= |s| && AllDigits(s, p, e)
    ensures e < |s| ==> !IsDigit(s[e])
    decreases |s| - p
  {
    if p < |s| && IsDigit(s[p]) then DigitEnd(s, p + 1) else p
  }

  lemma DigitEndUnique(s: seq<Byte>, p: nat, e: nat)
    requires p <= e <= |s| && AllDigits(s, p, e) && (e < |s| ==> !IsDigit(s[e]))
    ensures e == DigitEnd(s, p)
  {
    if DigitEnd(s, p) != e {
      assert false;
    }
  }

  lemma {:induction false} DecSplit(s: seq<Byte>, a: nat, m: nat, b: nat)
    requires a <= m <= b <= |s| && AllDigits(s, a, b)
    ensures Dec(s, a, b) == Scale(Dec(s, a, m), Ten, b - m) + Dec(s, m, b)
    decreases b - m
  {
    if m < b {
      DecSplit(s, a, m, b - 1);
    }
  }

  lemma {:induction false} DecBound(s: seq<Byte>, a: nat, b: nat)
    requires a <= b <= |s| && AllDigits(s, a, b)
    ensures Dec(s, a, b) < Scale(1, Ten, b - a)
    decreases b - a
  {
    if a < b {
      DecBound(s, a, b - 1);
    }
  }

  /** Only zeros have value zero. */
  lemma {:induction false} DecZero(s: seq<Byte>, a: nat, b: nat)
    requires a <= b <= |s| && AllDigits(s, a, b)
    ensures Dec(s, a, b) == 0 <==> forall i :: a <= i < b ==> s[i] == 48
    decreases b - a
  {
    if a < b {
      DecZero(s, a, b - 1);
    }
  }

  /** Leading zeros do not change the value. */
  lemma DecSkipZeros(s: seq<Byte>, a: nat, m: nat, b: nat)
    requires a <= m <= b <= |s| && AllDigits(s, a, b) && (forall i :: a <= i < m ==> s[i] == 48)
    ensures Dec(s, a, b) == Dec(s, m, b)
  {
    DecSplit(s, a, m, b);
    DecZero(s, a, m);
    ScaleZero(Ten, b - m);
  }

  /** A number that starts with a nonzero digit has exactly as many digits as it shows. */
  lemma DecLeading(s: seq<Byte>, a: nat, b: nat)
    requires a < b <= |s| && AllDigits(s, a, b) && s[a] != 48
    ensures Scale(1, Ten, b - a - 1) <= Dec(s, a, b) < Scale(1, Ten, b - a)
  {
    DecSplit(s, a, a + 1, b);
    DecBound(s, a, b);
    assert Dec(s, a, a + 1) == s[a] - 48;
    ScaleMonotone(1, s[a] - 48, Ten, b - a - 1);
  }
}
