/** Little-endian limb sequences and what the big-integer operations of ffc.h do to them. */
module Limbs {
  import opened Powers
  import opened Words

  /** The natural number a limb sequence stands for; the first limb is the least significant. */
  function Val(s: seq<U64>): nat
  {
    if s == [] then 0 else s[0] + 0x1_0000_0000_0000_0000 * Val(s[1..])
  }

  /** No most significant zero limb. */
  predicate Normalized(s: seq<U64>)
  {
    s == [] || s[|s| - 1] != 0
  }

  lemma {:induction false} ValBound(s: seq<U64>)
    ensures Val(s) < Scale(1, Limb, |s|)
  {
    if s != [] {
      ValBound(s[1..]);
    }
  }

  lemma {:induction false} ValConcat(s: seq<U64>, t: seq<U64>)
    ensures Val(s + t) == Val(s) + Scale(Val(t), Limb, |s|)
  {
    if s == [] {
      assert s + t == t;
    } else {
      assert (s + t)[1..] == s[1..] + t;
      ValConcat(s[1..], t);
    }
  }

  lemma {:induction false} ValZeros(n: nat)
    ensures Val(seq(n, _ => 0)) == 0
    decreases n
  {
    if n > 0 {
      assert seq<U64>(n, _ => 0)[1..] == seq<U64>(n - 1, _ => 0);
      ValZeros(n - 1);
    }
  }

  /** Splitting off the most significant limb. */
  lemma ValTop(s: seq<U64>)
    requires s != []
    ensures Val(s) == Val(s[..|s| - 1]) + Scale(s[|s| - 1], Limb, |s| - 1)
  {
    var n := |s| - 1;
    assert s == s[..n] + [s[n]];
    ValConcat(s[..n], [s[n]]);
    assert Val([s[n]]) == s[n];
  }

  /** A normalized number is at least the weight of its top limb. */
  lemma ValNormalizedLow(s: seq<U64>)
    requires s != [] && Normalized(s)
    ensures Scale(1, Limb, |s| - 1) <= Val(s)
  {
    ValTop(s);
    ScaleMonotone(1, s[|s| - 1], Limb, |s| - 1);
  }

  /** For normalized numbers, fitting in n limbs is a bound on the value: the capacity test is exact. */
  lemma FitsIffSmall(s: seq<U64>, n: nat)
    requires Normalized(s)
    ensures |s| <= n <==> Val(s) < Scale(1, Limb, n)
  {
    ValBound(s);
    if |s| <= n {
      ScaleGrows(1, Limb, |s|, n);
    } else {
      ValNormalizedLow(s);
      ScaleGrows(1, Limb, n, |s| - 1);
    }
  }

  /** Comparing normalized numbers of different lengths only needs the lengths. */
  lemma LongerIsLarger(s: seq<U64>, t: seq<U64>)
    requires Normalized(s) && |t| < |s|
    ensures Val(t) < Val(s)
  {
    ValBound(t);
    ValNormalizedLow(s);
    ScaleGrows(1, Limb, |t|, |s| - 1);
  }

  /** With equal lengths the most significant difference decides. */
  lemma {:induction false} TopLimbDecides(s: seq<U64>, t: seq<U64>, i: nat)
    requires |s| == |t| && i < |s|
    requires s[i + 1..] == t[i + 1..] && s[i] < t[i]
    ensures Val(s) < Val(t)
  {
    if i > 0 {
      TopLimbDecides(s[1..], t[1..], i - 1);
    }
  }

  // ---- multiply by one limb (ffc_bigint_small_mul) ----

  function MulSmall(s: seq<U64>, y: U64, carry: U64): (r: seq<U64>)
    ensures |s| <= |r| <= |s| + 1
  {
    if s == [] then (if carry == 0 then [] else [carry])
    else
      ScalarMulBound(s[0], y, carry);
      var z: nat := s[0] * y + carry;
      [z % W64] + MulSmall(s[1..], y, z / W64)
  }

  lemma {:induction false} MulSmallNormalized(s: seq<U64>, y: U64, carry: U64)
    requires Normalized(s) && 0 < y && (s == [] ==> carry == 0)
    ensures Normalized(MulSmall(s, y, carry))
  {
    if s != [] {
      ScalarMulBound(s[0], y, carry);
      var z: nat := s[0] * y + carry;
      var rest := MulSmall(s[1..], y, z / W64);
      if |s| == 1 {
        MulPositive(s[0], y);
        assert rest == if z / W64 == 0 then [] else [z / W64];
      } else {
        MulSmallNormalized(s[1..], y, z / W64);
      }
    }
  }

  lemma ScalarMulBound(x: U64, y: U64, c: U64)
    ensures 0 <= (x * y + c) / W64 < W64
  {
    ProductBound(x, y, 0xFFFF_FFFF_FFFF_FFFF);
    assert x * y <= 0xFFFF_FFFF_FFFF_FFFE_0000_0000_0000_0001;
    HighWord(x * y + c);
  }

  lemma HighWord(z: nat)
    requires z <= 0xFFFF_FFFF_FFFF_FFFF_0000_0000_0000_0000
    ensures z / W64 < W64
  {
  }

  /** One step of the multiplication loop. */
  lemma MulSmallHead(s: seq<U64>, y: U64, carry: U64, low: U64, high: U64)
    requires s != [] && high * W64 + low == s[0] * y + carry
    ensures MulSmall(s, y, carry)[0] == low
    ensures MulSmall(s, y, carry)[1..] == MulSmall(s[1..], y, high)
  {
    WordDivMod(s[0] * y + carry, high, low);
  }

  lemma {:induction false} MulSmallValue(s: seq<U64>, y: U64, carry: U64)
    ensures Val(MulSmall(s, y, carry)) == Val(s) * y + carry
  {
    if s == [] {
    } else {
      ScalarMulBound(s[0], y, carry);
      var z: nat := s[0] * y + carry;
      var rest := MulSmall(s[1..], y, z / W64);
      MulSmallValue(s[1..], y, z / W64);
      assert MulSmall(s, y, carry)[1..] == rest;
      MulDistributes(s[0], W64 * Val(s[1..]), y);
      MulAssociative(W64, Val(s[1..]), y);
    }
  }

  // ---- add with carry (ffc_bigint_small_add_from, ffc_bigint_large_add_from) ----

  function AddCarry(s: seq<U64>, c: U64): (r: seq<U64>)
    ensures |s| <= |r| <= |s| + 1
  {
    if c == 0 then s
    else if s == [] then [c]
    else if s[0] as int + c < W64 then [s[0] + c] + s[1..]
    else [s[0] as int + c - W64] + AddCarry(s[1..], 1)
  }

  lemma {:induction false} AddCarryNormalized(s: seq<U64>, c: U64)
    requires Normalized(s)
    ensures Normalized(AddCarry(s, c))
  {
    if c != 0 && s != [] {
      if |s| > 1 {
        AddCarryNormalized(s[1..], 1);
      } else {
        assert AddCarry(s[1..], 1) == [1];
      }
    }
  }

  /** One step of the carry loop: the limb it writes and what is left to do. */
  lemma AddCarryHead(s: seq<U64>, c: U64, z: U64, overflow: bool)
    requires s != [] && c != 0
    requires z as int + (if overflow then W64 else 0) == s[0] as int + c
    ensures AddCarry(s, c)[0] == z
    ensures AddCarry(s, c)[1..] == AddCarry(s[1..], if overflow then 1 else 0)
  {
  }

  lemma {:induction false} AddCarryValue(s: seq<U64>, c: U64)
    ensures Val(AddCarry(s, c)) == Val(s) + c
  {
    if c != 0 && s != [] && s[0] as int + c >= W64 {
      AddCarryValue(s[1..], 1);
      assert AddCarry(s, c)[1..] == AddCarry(s[1..], 1);
    }
  }

  function AddFull(s: seq<U64>, t: seq<U64>, carry: bool): (r: seq<U64>)
    requires |t| <= |s|
    ensures |s| <= |r| <= |s| + 1
  {
    if t == [] then AddCarry(s, if carry then 1 else 0)
    else
      var z: int := s[0] as int + t[0] + (if carry then 1 else 0);
      if z < W64 then [z] + AddFull(s[1..], t[1..], false)
      else [z - W64] + AddFull(s[1..], t[1..], true)
  }

  lemma AddFullHead(s: seq<U64>, t: seq<U64>, carry: bool, z: U64, overflow: bool)
    requires t != [] && |t| <= |s|
    requires z as int + (if overflow then W64 else 0) == s[0] as int + t[0] + (if carry then 1 else 0)
    ensures AddFull(s, t, carry)[0] == z
    ensures AddFull(s, t, carry)[1..] == AddFull(s[1..], t[1..], overflow)
  {
  }

  lemma {:induction false} AddFullValue(s: seq<U64>, t: seq<U64>, carry: bool)
    requires |t| <= |s|
    ensures Val(AddFull(s, t, carry)) == Val(s) + Val(t) + (if carry then 1 else 0)
  {
    if t == [] {
      AddCarryValue(s, if carry then 1 else 0);
    } else {
      var z: int := s[0] as int + t[0] + (if carry then 1 else 0);
      AddFullValue(s[1..], t[1..], z >= W64);
      AddFullHead(s, t, carry, if z < W64 then z else z - W64, z >= W64);
    }
  }

  function Pad(s: seq<U64>, n: nat): (r: seq<U64>)
    ensures |r| == if |s| < n then n else |s|
  {
    if |s| < n then s + seq(n - |s|, _ => 0) else s
  }

  lemma PadValue(s: seq<U64>, n: nat)
    ensures Val(Pad(s, n)) == Val(s)
  {
    if |s| < n {
      ValConcat(s, seq(n - |s|, _ => 0));
      ValZeros(n - |s|);
      ScaleZero(Limb, |s|);
    }
  }

  function AddAt(s: seq<U64>, t: seq<U64>, start: nat): (r: seq<U64>)
    ensures |Pad(s, |t| + start)| <= |r| <= |Pad(s, |t| + start)| + 1
  {
    var p := Pad(s, |t| + start);
    p[..start] + AddFull(p[start..], t, false)
  }

  lemma AddAtValue(s: seq<U64>, t: seq<U64>, start: nat)
    ensures Val(AddAt(s, t, start)) == Val(s) + Scale(Val(t), Limb, start)
  {
    var p := Pad(s, |t| + start);
    PadValue(s, |t| + start);
    assert p == p[..start] + p[start..];
    ValConcat(p[..start], p[start..]);
    AddFullValue(p[start..], t, false);
    ValConcat(p[..start], AddFull(p[start..], t, false));
    ScaleSum(Val(p[start..]), Val(t), Limb, start);
  }

  // ---- drop most significant zeros (ffc_sv_normalize) ----

  function Normalize(s: seq<U64>): (r: seq<U64>)
    ensures Normalized(r) && |r| <= |s|
  {
    if s != [] && s[|s| - 1] == 0 then Normalize(s[..|s| - 1]) else s
  }

  lemma {:induction false} NormalizeValue(s: seq<U64>)
    ensures Val(Normalize(s)) == Val(s)
  {
    if s != [] && s[|s| - 1] == 0 {
      NormalizeValue(s[..|s| - 1]);
      ValTop(s);
      ScaleZero(Limb, |s| - 1);
    }
  }

  // ---- partial products of the grade-school multiplication (ffc_bigint_long_mul) ----

  lemma {:induction false} MulSmallByZero(s: seq<U64>)
    ensures |MulSmall(s, 0, 0)| == |s|
  {
    if s != [] {
      MulSmallByZero(s[1..]);
    }
  }

  /** A one-limb product that needs more than n limbs is at least W^n. */
  lemma MulSmallOverflow(s: seq<U64>, y: U64, n: nat)
    requires Normalized(s) && |s| <= n < |MulSmall(s, y, 0)|
    ensures Scale(1, Limb, n) <= Val(s) * y && 0 < y
  {
    MulSmallByZero(s);
    MulSmallNormalized(s, y, 0);
    MulSmallValue(s, y, 0);
    FitsIffSmall(MulSmall(s, y, 0), n);
  }

  lemma {:induction false} LimbBelow(y: seq<U64>, i: nat)
    requires i < |y|
    ensures y[i] <= Val(y)
  {
    if i > 0 {
      LimbBelow(y[1..], i - 1);
    }
  }

  lemma ValPrefix(y: seq<U64>, i: nat)
    requires i <= |y|
    ensures Val(y[..i]) <= Val(y)
  {
    assert y == y[..i] + y[i..];
    ValConcat(y[..i], y[i..]);
  }

  /** One more limb of the multiplier adds one shifted one-limb product. */
  lemma PartialProduct(z: nat, y: seq<U64>, i: nat)
    requires i < |y|
    ensures z * Val(y[..i + 1]) == z * Val(y[..i]) + Scale(z * y[i], Limb, i)
    ensures z * Val(y[..i + 1]) <= z * Val(y)
  {
    ValTop(y[..i + 1]);
    assert y[..i + 1][..i] == y[..i];
    ScaleMul(z, y[i], Limb, i);
    MulDistributes(Val(y[..i]), Scale(y[i], Limb, i), z);
    ValPrefix(y, i + 1);
    MulMonotone(Val(y[..i + 1]), Val(y), z);
  }

  /** Adding a normalized number that reaches at least as high as s gives a normalized sum. */
  lemma AddAtNormalized(s: seq<U64>, t: seq<U64>, start: nat)
    requires Normalized(t) && t != [] && |s| <= |t| + start
    ensures Normalized(AddAt(s, t, start))
  {
    var p := Pad(s, |t| + start);
    AddFullTop(p[start..], t, false);
  }

  lemma {:induction false} AddFullTop(s: seq<U64>, t: seq<U64>, carry: bool)
    requires Normalized(t) && t != [] && |s| == |t|
    ensures var r := AddFull(s, t, carry); r != [] && Normalized(r)
  {
    var z: int := s[0] as int + t[0] + (if carry then 1 else 0);
    AddFullHead(s, t, carry, if z < W64 then z else z - W64, z >= W64);
    if |t| > 1 {
      AddFullTop(s[1..], t[1..], z >= W64);
    } else {
      assert AddFull(s[1..], t[1..], z >= W64) == AddCarry([], if z >= W64 then 1 else 0);
    }
  }

  // ---- the limbs below the top ones (ffc_sv_exists_nonzero_after) ----

  predicate AnyNonzero(s: seq<U64>)
  {
    exists i :: 0 <= i < |s| && s[i] != 0
  }

  lemma {:induction false} AnyNonzeroValue(s: seq<U64>)
    ensures AnyNonzero(s) <==> Val(s) != 0
  {
    if s != [] {
      AnyNonzeroValue(s[1..]);
      if AnyNonzero(s) && s[0] == 0 {
        var i :| 0 <= i < |s| && s[i] != 0;
        assert s[1..][i - 1] != 0;
      }
      if Val(s) != 0 && s[0] == 0 {
        var i :| 0 <= i < |s| - 1 && s[1..][i] != 0;
        assert s[i + 1] != 0;
      }
    }
  }

  // ---- shifting a number so that its top limb is full (ffc_bigint_hi64) ----

  lemma ValTopTwo(s: seq<U64>)
    requires |s| >= 2
    ensures Val(s) == Val(s[..|s| - 2]) + Scale(s[|s| - 2], Limb, |s| - 2) + Scale(s[|s| - 1], Limb, |s| - 1)
  {
    var n := |s|;
    ValTop(s);
    ValTop(s[..n - 1]);
    assert s[..n - 1][..n - 2] == s[..n - 2];
  }

  /** Shifting a number shifts each of its limbs. */
  lemma ShiftParts(v: nat, low: nat, r1: nat, r0: nat, m: nat, shl: nat)
    requires v == low + Scale(r1, Limb, m) + Scale(r0, Limb, m + 1)
    ensures Scale(v, Two, shl)
         == Scale(low, Two, shl) + Scale(Scale(r1, Two, shl), Limb, m) + Scale(Scale(r0, Two, shl), Limb, m + 1)
  {
    ScaleSum(low + Scale(r1, Limb, m), Scale(r0, Limb, m + 1), Two, shl);
    ScaleSum(low, Scale(r1, Limb, m), Two, shl);
    ScaleSwap(r1, Limb, m, Two, shl);
    ScaleSwap(r0, Limb, m + 1, Two, shl);
  }

  /** A carry of c out of limb m has weight c at limb m + 1. */
  lemma {:induction false} CarryOut(y: nat, c: nat, l: nat, m: nat)
    requires y == W64 * c + l
    ensures Scale(y, Limb, m) == Scale(c, Limb, m + 1) + Scale(l, Limb, m)
    decreases m
  {
    if m > 0 {
      CarryOut(y, c, l, m - 1);
    }
  }

  lemma BelowTop(low: nat, l: nat, m: nat, shl: nat)
    requires low < Scale(1, Limb, m) && l + Scale(1, Two, shl) <= W64
    ensures Scale(low, Two, shl) + Scale(l, Limb, m) < Scale(1, Limb, m + 1)
    ensures Scale(low, Two, shl) + Scale(l, Limb, m) != 0 <==> l != 0 || low != 0
  {
    var p := Scale(1, Two, shl);
    ScaleStrict(low, Scale(1, Limb, m), Two, shl);
    ScaleSwap(1, Limb, m, Two, shl);
    ScaleSum(l, p, Limb, m);
    ScaleMonotone(l + p, W64, Limb, m);
    CarryOut(W64, 1, 0, m);
    ScaleZero(Two, shl);
    ScaleZero(Limb, m);
    if low != 0 { ScalePositive(low, Two, shl); }
    if l != 0 { ScalePositive(l, Limb, m); }
  }
}
