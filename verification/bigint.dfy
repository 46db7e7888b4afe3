/** The fixed-capacity big integer of ffc.h (ffc_sv and ffc_bigint, 64-bit limbs). */
module BigInts {
  import opened Powers
  import opened Words
  import opened Limbs
  import opened Fives

  const BIGINT_BITS: nat := 4000
  const LIMB_BITS: nat := 64

  /** 62 limbs. */
  const LIMB_COUNT: nat := BIGINT_BITS / LIMB_BITS

  /** The first number that does not fit. */
  ghost function Capacity(): nat { Scale(1, Limb, LIMB_COUNT) }

  /** Full product plus carry, as a low and a high word. */
  method ScalarMul(x: U64, y: U64, carry: U64) returns (low: U64, high: U64)
    ensures high * W64 + low == x * y + carry
  {
    var z := Umul128Generic(x, y);
    ProductBound(x, y, 0xFFFF_FFFF_FFFF_FFFF);
    HighHasRoom(x * y, z.high, z.low, carry);
    low := Add64(z.low, carry);
    var overflow := low < z.low;
    high := z.high + if overflow then 1 else 0;
  }

  /** The increment of the high word "cannot overflow". */
  lemma HighHasRoom(p: nat, high: U64, low: U64, carry: U64)
    requires high * W64 + low == p <= 0xFFFF_FFFF_FFFF_FFFE_0000_0000_0000_0001
    ensures var o := if Add64(low, carry) < low then 1 else 0;
            high + o < W64 && (high + o) * W64 + Add64(low, carry) == p + carry
  {
  }

  /** Sum of two words and whether it wrapped. */
  method ScalarAdd(x: U64, y: U64) returns (z: U64, overflow: bool)
    ensures z as int + (if overflow then W64 else 0) == x as int + y
  {
    z := Add64(x, y);
    overflow := z < x;
  }

  /** The same with an incoming carry: two additions, of which at most one wraps. */
  method ScalarAddCarry(x: U64, y: U64, carry: bool) returns (z: U64, overflow: bool)
    ensures z as int + (if overflow then W64 else 0) == x as int + y + (if carry then 1 else 0)
  {
    var c1, c2;
    z, c1 := ScalarAdd(x, y);
    c2 := false;
    if carry {
      z, c2 := ScalarAdd(z, 1);
    }
    overflow := c1 || c2;
  }

  class BigInt {
    const data: array<U64>
    var len: nat

    ghost predicate Valid()
      reads this
    {
      data.Length == LIMB_COUNT && len <= LIMB_COUNT
    }

    ghost function Contents(): seq<U64>
      requires Valid()
      reads this, data
    {
      data[..len]
    }

    ghost function Value(): nat
      requires Valid()
      reads this, data
    {
      Val(Contents())
    }

    ghost predicate IsNormalized()
      requires Valid()
      reads this, data
    {
      Normalized(Contents())
    }

    constructor ()
      ensures Valid() && fresh(data)
      ensures Contents() == [] && Value() == 0 && IsNormalized()
    {
      data := new U64[LIMB_COUNT];
      len := 0;
    }

    /** ffc_bigint_make: one limb, normalized away when it is zero. */
    constructor Make(value: U64)
      ensures Valid() && fresh(data)
      ensures Value() == value && IsNormalized()
    {
      data := new U64[LIMB_COUNT];
      len := 0;
      new;
      data[0] := value;
      len := 1;
      assert data[..1] == [value];
      assert Val([value]) == value;
      DropZeros();
    }

    method TryPush(value: U64) returns (ok: bool)
      requires Valid()
      modifies this`len, data
      ensures Valid()
      ensures ok <==> old(len) < LIMB_COUNT
      ensures ok ==> Contents() == old(Contents()) + [value]
      ensures !ok ==> Contents() == old(Contents())
    {
      ok := len < LIMB_COUNT;
      if ok {
        data[len] := value;
        len := len + 1;
      }
    }

    method TryExtend(s: seq<U64>) returns (ok: bool)
      requires Valid()
      modifies this`len, data
      ensures Valid()
      ensures ok <==> old(len) + |s| <= LIMB_COUNT
      ensures ok ==> Contents() == old(Contents()) + s
      ensures !ok ==> Contents() == old(Contents())
    {
      ok := len + |s| <= LIMB_COUNT;
      if ok {
        var n := len;
        forall i | 0 <= i < |s| {
          data[n + i] := s[i];
        }
        len := n + |s|;
      }
    }

    method TryReserve(newLen: nat) returns (ok: bool)
      requires Valid()
      modifies this`len, data
      ensures Valid()
      ensures ok <==> newLen <= LIMB_COUNT
      ensures ok && old(len) <= newLen ==> Contents() == Pad(old(Contents()), newLen)
      ensures ok && newLen < old(len) ==> Contents() == old(Contents())[..newLen]
      ensures !ok ==> Contents() == old(Contents())
    {
      ok := newLen <= LIMB_COUNT;
      if ok {
        var p := len;
        while p < newLen
          invariant old(len) <= p && (old(len) <= newLen ==> p <= newLen) && (newLen < old(len) ==> p == old(len))
          invariant data[..old(len)] == old(data[..len])
          invariant forall i :: old(len) <= i < p ==> data[i] == 0
        {
          data[p] := 0;
          p := p + 1;
        }
        len := newLen;
      }
    }

    /** ffc_sv_normalize. */
    method DropZeros()
      requires Valid()
      modifies this`len
      ensures Valid()
      ensures Contents() == Normalize(old(Contents()))
      ensures Value() == old(Value()) && IsNormalized()
    {
      while len > 0 && data[len - 1] == 0
        invariant Valid()
        invariant Normalize(data[..len]) == Normalize(old(Contents()))
      {
        assert data[..len][..len - 1] == data[..len - 1];
        len := len - 1;
      }
      NormalizeValue(old(Contents()));
    }

    /** ffc_bigint_small_add_from: add a scalar at limb `start`. */
    method SmallAddFrom(y: U64, start: nat) returns (ok: bool)
      requires Valid() && start <= len
      modifies this`len, data
      ensures Valid()
      ensures ok <==> start + |AddCarry(old(Contents())[start..], y)| <= LIMB_COUNT
      ensures ok ==> Contents() == old(Contents())[..start] + AddCarry(old(Contents())[start..], y)
    {
      ghost var s := data[..len];
      ghost var target := s[..start] + AddCarry(s[start..], y);
      ghost var index;
      var carry;
      carry, index := CarryFrom(y, start, target);
      assert data[..len] == target[..index] + s[index..];
      assert target == target[..index] + target[index..];
      ok := true;
      if carry != 0 {
        ok := TryPush(carry);
      }
    }

    /** Adds the carry limb by limb until it is used up or the limbs are. */
    method CarryFrom(y: U64, start: nat, ghost target: seq<U64>) returns (carry: U64, ghost stop: nat)
      requires Valid() && start <= len && target == Contents()[..start] + AddCarry(Contents()[start..], y)
      modifies data
      ensures Valid() && start <= stop <= len && stop <= |target| && (carry == 0 || stop == len)
      ensures forall i :: 0 <= i < stop ==> data[i] == target[i]
      ensures forall i :: stop <= i < len ==> data[i] == old(data[i])
      ensures target[stop..] == AddCarry(old(Contents())[stop..], carry)
    {
      ghost var s := data[..len];
      assert target[start..] == AddCarry(s[start..], y);
      var index := start;
      carry := y;
      while carry != 0 && index < len
        invariant start <= index <= len && index <= |target|
        invariant forall i :: 0 <= i < index ==> data[i] == target[i]
        invariant forall i :: index <= i < len ==> data[i] == s[i]
        invariant target[index..] == AddCarry(s[index..], carry)
      {
        var z, overflow := ScalarAdd(data[index], carry);
        AddCarryHead(s[index..], carry, z, overflow);
        assert target[index + 1..] == target[index..][1..] && s[index..][1..] == s[index + 1..];
        data[index] := z;
        carry := if overflow then 1 else 0;
        index := index + 1;
      }
      stop := index;
    }

    /** ffc_bigint_small_mul: multiply by a scalar. */
    method SmallMul(y: U64) returns (ok: bool)
      requires Valid()
      modifies this`len, data
      ensures Valid()
      ensures ok <==> |MulSmall(old(Contents()), y, 0)| <= LIMB_COUNT
      ensures ok ==> Contents() == MulSmall(old(Contents()), y, 0)
    {
      ghost var s := data[..len];
      ghost var target := MulSmall(s, y, 0);
      var carry: U64 := 0;
      for index := 0 to len
        invariant len == old(len)
        invariant forall i :: 0 <= i < index ==> data[i] == target[i]
        invariant forall i :: index <= i < len ==> data[i] == s[i]
        invariant target[index..] == MulSmall(s[index..], y, carry)
      {
        var low, high := ScalarMul(data[index], y, carry);
        MulSmallHead(s[index..], y, carry, low, high);
        assert target[index + 1..] == target[index..][1..] && s[index..][1..] == s[index + 1..];
        data[index] := low;
        carry := high;
      }
      assert target == target[..len] + target[len..];
      ok := true;
      if carry != 0 {
        ok := TryPush(carry);
      }
    }

    /** The limb-by-limb addition loop of ffc_bigint_large_add_from; p is the part of the buffer from `start` on. */
    method AddSpan(y: seq<U64>, start: nat, ghost p: seq<U64>) returns (carry: bool)
      requires Valid() && start + |y| <= len && p == data[start..len]
      modifies data
      ensures forall i :: 0 <= i < start ==> data[i] == old(data[i])
      ensures forall i :: 0 <= i < |y| ==> data[start + i] == AddFull(p, y, false)[i]
      ensures forall i :: |y| <= i < |p| ==> data[start + i] == p[i]
      ensures AddFull(p, y, false)[|y|..] == AddCarry(p[|y|..], if carry then 1 else 0)
    {
      ghost var target := AddFull(p, y, false);
      carry := false;
      assert y[0..] == y && p[0..] == p && target[0..] == target;
      for index := 0 to |y|
        invariant forall i :: 0 <= i < start ==> data[i] == old(data[i])
        invariant forall i :: 0 <= i < index ==> data[start + i] == target[i]
        invariant forall i :: index <= i < |p| ==> data[start + i] == p[i]
        invariant target[index..] == AddFull(p[index..], y[index..], carry)
      {
        ghost var q, t := p[index..], y[index..];
        var xi, overflow := ScalarAddCarry(data[start + index], y[index], carry);
        AddFullHead(q, t, carry, xi, overflow);
        assert target[index + 1..] == target[index..][1..] && q[1..] == p[index + 1..] && t[1..] == y[index + 1..];
        data[start + index] := xi;
        carry := overflow;
      }
    }

    /** ffc_bigint_large_add_from: add a whole number shifted up by `start` limbs. */
    method LargeAddFrom(y: seq<U64>, start: nat) returns (ok: bool)
      requires Valid()
      modifies this`len, data
      ensures Valid()
      ensures ok <==> |AddAt(old(Contents()), y, start)| <= LIMB_COUNT
      ensures ok ==> Contents() == AddAt(old(Contents()), y, start)
    {
      ok := true;
      if len < start || |y| > len - start {
        ok := TryReserve(|y| + start);
      }
      if ok {
        assert Contents() == Pad(old(Contents()), |y| + start);
        ok := AddPadded(y, start);
      }
    }

    method AddPadded(y: seq<U64>, start: nat) returns (ok: bool)
      requires Valid() && start + |y| <= len
      modifies this`len, data
      ensures Valid()
      ensures ok <==> start + |AddFull(old(Contents())[start..], y, false)| <= LIMB_COUNT
      ensures ok ==> Contents() == old(Contents())[..start] + AddFull(old(Contents())[start..], y, false)
    {
      ghost var s := Contents();
      assert data[start..len] == s[start..];
      var carry := AddSpan(y, start, s[start..]);
      SpanParts(s, Contents(), AddFull(s[start..], y, false), start, |y|);
      ok := true;
      if carry {
        ok := SmallAddFrom(1, start + |y|);
      }
    }

    /** ffc_bigint_long_mul: grade-school multiplication, failing exactly when the product does not fit. */
    method LongMul(y: seq<U64>) returns (ok: bool)
      requires Valid() && IsNormalized() && |y| <= LIMB_COUNT
      modifies this`len, data
      ensures Valid()
      ensures y == [] ==> ok && Value() == old(Value())
      ensures y != [] ==> (ok <==> old(Value()) * Val(y) < Capacity())
      ensures y != [] && ok ==> Value() == old(Value()) * Val(y)
      ensures ok ==> IsNormalized()
    {
      ok := true;
      if |y| != 0 {
        ok := Accumulate(y);
      }
      if ok {
        DropZeros();
        ValBound(Contents());
        FitsIffSmall(Contents(), LIMB_COUNT);
      }
    }

    /** The sum of shifted one-limb products that LongMul normalizes. */
    method Accumulate(y: seq<U64>) returns (ok: bool)
      requires Valid() && IsNormalized() && 0 < |y| <= LIMB_COUNT
      modifies this`len, data
      ensures Valid()
      ensures ok ==> Value() == old(Value()) * Val(y)
      ensures !ok ==> Capacity() <= old(Value()) * Val(y)
    {
      var z := data[..len];
      ghost var v := Val(z);
      ok := SmallMul(y[0]);
      PartialProduct(v, y, 0);
      MulSmallValue(z, y[0], 0);
      if !ok {
        MulSmallOverflow(z, y[0], LIMB_COUNT);
        return;
      }
      for index := 1 to |y|
        invariant Valid() && Value() == v * Val(y[..index])
        invariant len <= |z| + index
      {
        PartialProduct(v, y, index);
        if y[index] != 0 {
          ok := AddProduct(z, y, index);
          if !ok {
            return;
          }
        } else {
          ScaleZero(Limb, index);
        }
      }
      assert y[..|y|] == y;
      ok := true;
    }

    /** Adds z * y[index], shifted up by index limbs. */
    method AddProduct(z: seq<U64>, y: seq<U64>, index: nat) returns (ok: bool)
      requires Valid() && Normalized(z) && |z| <= LIMB_COUNT
      requires index < |y| <= LIMB_COUNT && y[index] != 0
      requires Value() == Val(z) * Val(y[..index]) && len <= |z| + index
      modifies this`len, data
      ensures Valid()
      ensures ok ==> Value() == Val(z) * Val(y[..index + 1]) && len <= |z| + index + 1
      ensures !ok ==> Capacity() <= Val(z) * Val(y)
    {
      var zi := new BigInt();
      ok := zi.TryExtend(z);
      assert zi.Contents() == z;
      MulSmallExact(z, y[index]);
      ok := zi.SmallMul(y[index]);
      if !ok {
        ProductOverflow(z, y, index);
        return;
      }
      var t := zi.data[..zi.len];
      ProductSum(Contents(), z, y, index, t);
      ok := LargeAddFrom(t, index);
    }

    /** ffc_bigint_large_mul. */
    method LargeMul(y: seq<U64>) returns (ok: bool)
      requires Valid() && IsNormalized() && |y| <= LIMB_COUNT
      modifies this`len, data
      ensures Valid()
      ensures y == [] ==> ok && Value() == old(Value())
      ensures y != [] ==> (ok <==> old(Value()) * Val(y) < Capacity())
      ensures y != [] && ok ==> Value() == old(Value()) * Val(y)
      ensures ok && y != [0] ==> IsNormalized()
    {
      if |y| == 1 {
        assert y == [y[0]] && Val(y) == y[0];
        ok := MulLimb(y[0]);
      } else {
        ok := LongMul(y);
      }
    }

    /** ffc_bigint_small_mul at the level of values. */
    method MulLimb(y: U64) returns (ok: bool)
      requires Valid() && IsNormalized()
      modifies this`len, data
      ensures Valid()
      ensures ok <==> old(Value()) * y < Capacity()
      ensures ok ==> Value() == old(Value()) * y && (0 < y ==> IsNormalized())
    {
      if y == 0 {
        ZeroedOut(Contents());
      } else {
        MulSmallExact(Contents(), y);
      }
      ok := SmallMul(y);
    }

    /** ffc_bigint_add at the level of values. */
    method AddLimb(y: U64) returns (ok: bool)
      requires Valid() && IsNormalized()
      modifies this`len, data
      ensures Valid()
      ensures ok <==> old(Value()) + y < Capacity()
      ensures ok ==> Value() == old(Value()) + y && IsNormalized()
    {
      ghost var s := Contents();
      AddCarryExact(s, y);
      assert s[0..] == s && s[..0] + AddCarry(s, y) == AddCarry(s, y);
      ok := SmallAddFrom(y, 0);
    }

    // ---- shifts ----

    /** ffc_bigint_shl_bits: shift by less than a limb. */
    method ShlBits(n: nat) returns (ok: bool)
      requires Valid() && 0 < n < 64 && Scale(1, Two, n) < W64
      modifies this`len, data
      ensures Valid()
      ensures ok <==> |MulSmall(old(Contents()), Scale(1, Two, n), 0)| <= LIMB_COUNT
      ensures ok ==> Contents() == MulSmall(old(Contents()), Scale(1, Two, n), 0)
    {
      ghost var s := data[..len];
      ghost var p: U64 := Scale(1, Two, n);
      ghost var target := MulSmall(s, p, 0);
      var prev: U64 := 0;
      ScaleZero(Two, n);
      for index := 0 to len
        invariant len == old(len) && Carried(prev, n) < W64
        invariant forall i :: 0 <= i < index ==> data[i] == target[i]
        invariant forall i :: index <= i < len ==> data[i] == s[i]
        invariant target[index..] == MulSmall(s[index..], p, Carried(prev, n))
      {
        var xi := data[index];
        var limb := ShlOr(xi, prev, n);
        assert xi * p == Scale(xi, Two, n) by { ScaleMul(xi, 1, Two, n); }
        CarriedBound(xi, n);
        MulSmallHead(s[index..], p, Carried(prev, n), limb, Carried(xi, n));
        assert target[index + 1..] == target[index..][1..] && s[index..][1..] == s[index + 1..];
        data[index] := limb;
        prev := xi;
      }
      assert target == target[..len] + target[len..];
      ok := true;
      var carry := TopBitsOut(prev, n);
      if carry != 0 {
        ok := TryPush(carry);
      }
    }

    /** ffc_bigint_shl_limbs: shift by whole limbs; an empty number stays empty. */
    method ShlLimbs(n: nat) returns (ok: bool)
      requires Valid() && n != 0
      modifies this`len, data
      ensures Valid()
      ensures ok <==> n + old(len) <= LIMB_COUNT
      ensures ok ==> Contents() == if old(len) == 0 then [] else seq(n, _ => 0) + old(Contents())
    {
      if n + len > LIMB_COUNT {
        return false;
      }
      if len != 0 {
        var size := len;
        forall i | n <= i < n + size {
          data[i] := data[i - n];
        }
        forall i | 0 <= i < n {
          data[i] := 0;
        }
        len := size + n;
      }
      return true;
    }

    /** ffc_bigint_shl and ffc_bigint_pow2: multiply by 2^n. */
    method Shl(n: nat) returns (ok: bool)
      requires Valid() && IsNormalized()
      modifies this`len, data
      ensures Valid()
      ensures old(Value()) != 0 ==> (ok <==> Scale(old(Value()), Two, n) < Capacity())
      ensures old(Value()) == 0 ==> (ok <==> n / 64 <= LIMB_COUNT)
      ensures ok ==> Value() == Scale(old(Value()), Two, n) && IsNormalized()
    {
      var rem, div := n % 64, n / 64;
      ghost var s, t;
      s := Contents();
      ok, t := ShlRem(rem);
      ShiftedFits(s, t, rem, div);
      if ok && div != 0 {
        ok := ShlLimbs(div);
      }
    }

    /** The part of a shift below one limb. */
    method ShlRem(rem: nat) returns (ok: bool, ghost t: seq<U64>)
      requires Valid() && IsNormalized() && rem < 64
      modifies this`len, data
      ensures Valid()
      ensures rem == 0 ==> ok && t == old(Contents()) && Contents() == t
      ensures rem != 0 ==> Scale(1, Two, rem) < W64 && t == MulSmall(old(Contents()), Scale(1, Two, rem), 0)
      ensures Normalized(t) && Val(t) == Scale(Val(old(Contents())), Two, rem)
      ensures ok <==> |t| <= LIMB_COUNT
      ensures ok ==> Contents() == t
    {
      ghost var s := Contents();
      ok, t := true, s;
      if rem != 0 {
        WordPower(rem);
        ghost var p: U64 := Scale(1, Two, rem);
        t := MulSmall(s, p, 0);
        MulSmallExact(s, p);
        assert Val(s) * p == Scale(Val(s), Two, rem) by { ScaleMul(Val(s), 1, Two, rem); }
        ok := ShlBits(rem);
      }
    }

    // ---- powers ----

    /** ffc_bigint_pow5: multiply by 5^exp in steps of 135, then 27, then one table entry. */
    method Pow5(exp: nat) returns (ok: bool)
      requires Valid() && IsNormalized()
      modifies this`len, data
      ensures Valid()
      ensures ok <==> Scale(old(Value()), Five, exp) < Capacity()
      ensures ok ==> Value() == Scale(old(Value()), Five, exp) && IsNormalized()
    {
      ghost var v := Value();
      var e;
      ok, e := Pow5Large(exp, v);
      if ok {
        ok, e := Pow5Small(exp, e, v);
      }
      if ok {
        ok := Pow5Rest(exp, e, v);
      }
    }

    /** Steps of 135 powers, by the precomputed big integer. */
    method Pow5Large(exp: nat, ghost v: nat) returns (ok: bool, e: nat)
      requires Valid() && IsNormalized() && Value() == v
      modifies this`len, data
      ensures Valid() && e <= exp
      ensures !ok ==> Capacity() <= Scale(v, Five, exp)
      ensures ok ==> IsNormalized() && Value() == Scale(v, Five, exp - e)
    {
      ok, e := true, exp;
      while e >= LARGE_STEP
        invariant ok && 0 <= e <= exp
        invariant Valid() && IsNormalized() && Value() == Scale(v, Five, exp - e)
      {
        FiveStep(v, exp, e, LARGE_STEP, Value());
        LargeStepValue(Value());
        LargePowerValue();
        ok := LargeMul(LARGE_POWER);
        if !ok {
          return;
        }
        e := e - LARGE_STEP;
      }
    }

    /** Steps of 27 powers, by the largest power of five in a limb. */
    method Pow5Small(exp: nat, e0: nat, ghost v: nat) returns (ok: bool, e: nat)
      requires Valid() && IsNormalized() && e0 <= exp && Value() == Scale(v, Five, exp - e0)
      modifies this`len, data
      ensures Valid() && e <= exp
      ensures !ok ==> Capacity() <= Scale(v, Five, exp)
      ensures ok ==> IsNormalized() && e < SMALL_STEP && Value() == Scale(v, Five, exp - e)
    {
      ok, e := true, e0;
      while e >= SMALL_STEP
        invariant ok && 0 <= e <= exp
        invariant Valid() && IsNormalized() && Value() == Scale(v, Five, exp - e)
      {
        FiveStep(v, exp, e, SMALL_STEP, Value());
        SmallStepValue(Value(), SMALL_STEP);
        ok := MulLimb(MAX_NATIVE);
        if !ok {
          return;
        }
        e := e - SMALL_STEP;
      }
    }

    /** What is left, by one table entry. */
    method Pow5Rest(exp: nat, e: nat, ghost v: nat) returns (ok: bool)
      requires Valid() && IsNormalized() && e <= exp && e < SMALL_STEP && Value() == Scale(v, Five, exp - e)
      modifies this`len, data
      ensures Valid()
      ensures ok <==> Scale(v, Five, exp) < Capacity()
      ensures ok ==> IsNormalized() && Value() == Scale(v, Five, exp)
    {
      if e != 0 {
        FiveStep(v, exp, e, e, Value());
        SmallPowerValue(e);
        ScalePositive(1, Five, e);
        ScaleMul(Value(), 1, Five, e);
        ok := MulLimb(SMALL_POWERS[e]);
      } else {
        FitsIffSmall(Contents(), LIMB_COUNT);
        ok := true;
      }
    }

    /**
     * ffc_bigint_pow10: multiply by 10^exp, failing exactly when the result does not fit; for zero, exactly when the
     * limbs it would be shifted by do not.
     */
    method Pow10(exp: nat) returns (ok: bool)
      requires Valid() && IsNormalized()
      modifies this`len, data
      ensures Valid()
      ensures old(Value()) != 0 ==> (ok <==> Scale(old(Value()), Ten, exp) < Capacity())
      ensures old(Value()) == 0 ==> (ok <==> exp / 64 <= LIMB_COUNT)
      ensures ok ==> Value() == Scale(old(Value()), Ten, exp) && IsNormalized()
    {
      ghost var v := Value();
      ScaleTen(v, exp);
      ScaleZero(Five, exp);
      if v != 0 {
        ScalePositive(v, Five, exp);
      }
      ScalePositive(1, Limb, LIMB_COUNT);
      ScaleGrows(Scale(v, Five, exp), Two, 0, exp);
      ok := Pow5(exp);
      if ok {
        ok := Shl(exp);
      }
    }

    // ---- reading ----

    /** ffc_bigint_compare. */
    method Compare(other: BigInt) returns (ord: int)
      requires Valid() && IsNormalized() && other.Valid() && other.IsNormalized()
      ensures ord in {-1, 0, 1}
      ensures ord < 0 <==> Value() < other.Value()
      ensures ord > 0 <==> Value() > other.Value()
    {
      ghost var s, t := Contents(), other.Contents();
      if len > other.len {
        LongerIsLarger(s, t);
        return 1;
      } else if len < other.len {
        LongerIsLarger(t, s);
        return -1;
      }
      var index := len;
      while index > 0
        invariant 0 <= index <= len
        invariant s[index..] == t[index..]
      {
        var xi, yi := data[index - 1], other.data[index - 1];
        if xi > yi {
          TopLimbDecides(t, s, index - 1);
          return 1;
        } else if xi < yi {
          TopLimbDecides(s, t, index - 1);
          return -1;
        }
        index := index - 1;
        assert s[index..] == [xi] + s[index + 1..] && t[index..] == [yi] + t[index + 1..];
      }
      assert s[0..] == s && t[0..] == t;
      return 0;
    }

    /** ffc_bigint_bit_length, together with the leading-zero count of the top limb it uses. */
    method BitLength() returns (bits: nat, shl: nat)
      requires Valid() && IsNormalized()
      ensures Value() == 0 ==> bits == 0
      ensures Value() != 0 ==> 0 < bits && Scale(1, Two, bits - 1) <= Value() < Scale(1, Two, bits)
      ensures Value() != 0 ==> len > 0 && shl < 64 && bits == 64 * len - shl && 0x8000_0000_0000_0000 <= Scale(data[len - 1], Two, shl) < W64
    {
      if len == 0 {
        return 0, 0;
      }
      ValNormalizedLow(Contents());
      ScalePositive(1, Limb, len - 1);
      shl := CountLeadingZeroes(data[len - 1]);
      bits := 64 * len - shl;
      BitsOf(Contents(), shl);
    }

    /** ffc_sv_exists_nonzero_after. */
    method ExistsNonzeroAfter(index: nat) returns (b: bool)
      requires Valid() && index <= len
      ensures b <==> Val(data[..len - index]) != 0
    {
      var k := index;
      while k < len
        invariant index <= k <= len
        invariant forall i :: len - k <= i < len - index ==> data[i] == 0
      {
        if data[len - k - 1] != 0 {
          assert data[..len - index][len - k - 1] != 0;
          AnyNonzeroValue(data[..len - index]);
          return true;
        }
        k := k + 1;
      }
      AnyNonzeroValue(data[..len - index]);
      return false;
    }

    /** ffc_bigint_hi64: the 64 most significant bits, and whether any lower bit is set. */
    method Hi64() returns (bits: U64, truncated: bool, ghost shl: nat, ghost rest: nat)
      requires Valid() && IsNormalized()
      ensures len == 0 ==> bits == 0 && !truncated
      ensures len > 0 ==> shl < 64 && 0x8000_0000_0000_0000 <= Scale(data[len - 1], Two, shl) < W64
      ensures len > 0 ==> 0x8000_0000_0000_0000 <= bits
      ensures len > 0 ==> Scale(Value(), Two, shl) == Scale(bits, Limb, len - 1) + rest && rest < Scale(1, Limb, len - 1)
      ensures len > 0 ==> (truncated <==> rest != 0)
    {
      if len == 0 {
        bits, truncated, shl, rest := 0, false, 0, 0;
      } else if len == 1 {
        var s := CountLeadingZeroes(data[0]);
        assert Contents() == [data[0]];
        assert Val([data[0]]) == data[0];
        ModSmall(Scale(data[0], Two, s), W64);
        bits, truncated, shl, rest := Shl64(data[0], s), false, s, 0;
      } else {
        ghost var l;
        bits, truncated, shl, l := Hi64Two(data[len - 1], data[len - 2]);
        var below := ExistsNonzeroAfter(2);
        TopTwoLimbs(Contents(), bits, shl, l);
        assert Contents()[..len - 2] == data[..len - 2];
        rest := Scale(Val(data[..len - 2]), Two, shl) + Scale(l, Limb, len - 2);
        truncated := truncated || below;
      }
    }
  }

  /** The buffer c after the addition loop: old limbs, sum limbs, old limbs. */
  lemma SpanParts(s: seq<U64>, c: seq<U64>, target: seq<U64>, start: nat, m: nat)
    requires start + m <= |s| == |c| && |s| - start <= |target|
    requires forall i :: 0 <= i < start ==> c[i] == s[i]
    requires forall i :: 0 <= i < m ==> c[start + i] == target[i]
    requires forall i :: m <= i < |s| - start ==> c[start + i] == s[start..][i]
    ensures c[start + m..] == s[start..][m..]
    ensures s[..start] + target == c[..start + m] + target[m..]
    ensures c == c[..start + m] + s[start..][m..]
  {
    forall i | start <= i < start + m
      ensures c[i] == target[i - start]
    {
      assert c[start + (i - start)] == target[i - start];
    }
    forall i | start + m <= i < |s|
      ensures c[i] == s[i]
    {
      assert c[start + (i - start)] == s[start..][i - start];
    }
  }

  lemma FiveStep(v: nat, exp: nat, e: nat, k: nat, x: nat)
    requires k <= e <= exp && x == Scale(v, Five, exp - e)
    ensures Scale(x, Five, k) == Scale(v, Five, exp - (e - k))
    ensures Scale(x, Five, k) <= Scale(v, Five, exp)
  {
    ScaleCompose(v, Five, exp - e, k);
    ScaleGrows(v, Five, exp - e + k, exp);
  }

  /** The top two limbs, shifted, give the top 64 bits; everything else is the rest. */
  lemma TopTwoLimbs(s: seq<U64>, bits: nat, shl: nat, l: nat)
    requires |s| >= 2 && shl < 64
    requires bits == Scale(s[|s| - 1], Two, shl) + Carried(s[|s| - 2], shl)
    requires Scale(s[|s| - 2], Two, shl) == W64 * Carried(s[|s| - 2], shl) + l
    requires l + Scale(1, Two, shl) <= W64
    ensures var low, m := Val(s[..|s| - 2]), |s| - 2;
            var rest := Scale(low, Two, shl) + Scale(l, Limb, m);
            && Scale(Val(s), Two, shl) == Scale(bits, Limb, m + 1) + rest
            && rest < Scale(1, Limb, m + 1)
            && (rest != 0 <==> l != 0 || low != 0)
  {
    var n := |s|;
    var m, r0, r1 := n - 2, s[n - 1], s[n - 2];
    var low := Val(s[..m]);
    ValTopTwo(s);
    ValBound(s[..m]);
    ShiftParts(Val(s), low, r1, r0, m, shl);
    CarryOut(Scale(r1, Two, shl), Carried(r1, shl), l, m);
    ScaleSum(Scale(r0, Two, shl), Carried(r1, shl), Limb, m + 1);
    BelowTop(low, l, m, shl);
  }

  /** A number whose top limb has shl leading zeros is between the powers of two of its bit length. */
  lemma BitsOf(s: seq<U64>, shl: nat)
    requires s != [] && shl < 64 && 0x8000_0000_0000_0000 <= Scale(s[|s| - 1], Two, shl) < W64
    ensures Scale(1, Two, 64 * |s| - shl - 1) <= Val(s) < Scale(1, Two, 64 * |s| - shl)
  {
    var m := |s| - 1;
    var top: nat := s[m];
    ValTop(s);
    ValBound(s[..m]);
    PowersOfTwo();
    ScaleLimb(1, m);
    var a, b := 63 - shl, 64 - shl;
    ScaleCompose(1, Two, a, shl);
    ScaleCompose(1, Two, b, shl);
    ScaleOrder(top, Scale(1, Two, a), Two, shl);
    ScaleOrder(top, Scale(1, Two, b), Two, shl);
    ScaleMonotone(Scale(1, Two, a), top, Limb, m);
    ScaleMonotone(top + 1, Scale(1, Two, b), Limb, m);
    ScaleSum(top, 1, Limb, m);
    ScaleLimb(Scale(1, Two, a), m);
    ScaleLimb(Scale(1, Two, b), m);
    ScaleCompose(1, Two, a, 64 * m);
    ScaleCompose(1, Two, b, 64 * m);
  }

  lemma WordPower(n: nat)
    requires n < 64
    ensures 0 < Scale(1, Two, n) < W64
  {
    PowersOfTwo();
    ScaleExponentOrder(Two, n, 64);
    ScalePositive(1, Two, n);
  }

  lemma CarriedBound(x: U64, n: nat)
    requires n < 64
    ensures Carried(x, n) < W64
  {
    Shl64Split(x, n);
    WordDivMod(Scale(x, Two, n), Shr(x, 64 - n), Shl64(x, n));
    WordPower(n);
  }

  /** prev >> (64 - n). */
  method TopBitsOut(prev: U64, n: nat) returns (carry: U64)
    requires 0 < n < 64
    ensures carry == Carried(prev, n)
  {
    Shl64Split(prev, n);
    WordDivMod(Scale(prev, Two, n), Shr(prev, 64 - n), Shl64(prev, n));
    WordPower(n);
    carry := Shr(prev, 64 - n);
  }

  /** Shifting bits first and limbs second succeeds exactly when the shifted value fits. */
  lemma ShiftedFits(s: seq<U64>, t: seq<U64>, rem: nat, div: nat)
    requires Normalized(s) && Normalized(t) && Val(t) == Scale(Val(s), Two, rem)
    ensures Val(s) == 0 <==> t == []
    ensures t == [] ==> Scale(Val(s), Two, 64 * div + rem) == 0
    ensures t != [] ==> var u := seq(div, _ => 0) + t;
              && Normalized(u) && Val(u) == Scale(Val(s), Two, 64 * div + rem)
              && (div + |t| <= LIMB_COUNT <==> Val(u) < Capacity())
  {
    ScaleZero(Two, rem);
    ScaleZero(Two, 64 * div + rem);
    if t != [] {
      ValNormalizedLow(t);
      ScalePositive(1, Limb, |t| - 1);
      ZerosBelow(t, div);
      ScaleLimb(Val(t), div);
      ScaleCompose(Val(s), Two, rem, 64 * div);
    } else if Val(s) != 0 {
      ScalePositive(Val(s), Two, rem);
    }
  }

  lemma ZerosBelow(t: seq<U64>, div: nat)
    requires t != [] && Normalized(t)
    ensures var u := seq(div, _ => 0) + t;
            Normalized(u) && Val(u) == Scale(Val(t), Limb, div) && (div + |t| <= LIMB_COUNT <==> Val(u) < Capacity())
  {
    var zeros: seq<U64> := seq(div, _ => 0);
    ValConcat(zeros, t);
    ValZeros(div);
    FitsIffSmall(zeros + t, LIMB_COUNT);
  }

  lemma ZeroedOut(s: seq<U64>)
    ensures |MulSmall(s, 0, 0)| == |s| && Val(MulSmall(s, 0, 0)) == 0 == Val(s) * 0 && 0 < Capacity()
  {
    MulSmallByZero(s);
    MulSmallValue(s, 0, 0);
    ScalePositive(1, Limb, LIMB_COUNT);
  }

  lemma MulSmallExact(s: seq<U64>, y: U64)
    requires Normalized(s) && 0 < y
    ensures var r := MulSmall(s, y, 0);
            Val(r) == Val(s) * y && Normalized(r) && (|r| <= LIMB_COUNT <==> Val(s) * y < Capacity())
  {
    MulSmallValue(s, y, 0);
    MulSmallNormalized(s, y, 0);
    FitsIffSmall(MulSmall(s, y, 0), LIMB_COUNT);
  }

  lemma AddCarryExact(s: seq<U64>, y: U64)
    requires Normalized(s)
    ensures var r := AddCarry(s, y);
            Val(r) == Val(s) + y && Normalized(r) && (|r| <= LIMB_COUNT <==> Val(s) + y < Capacity())
  {
    AddCarryValue(s, y);
    AddCarryNormalized(s, y);
    FitsIffSmall(AddCarry(s, y), LIMB_COUNT);
  }

  lemma GrowFactor(c: nat, z: nat, y: nat, y': nat)
    requires c <= z * y && y <= y'
    ensures c <= z * y'
  {
    MulMonotone(y, y', z);
  }

  lemma ProductOverflow(z: seq<U64>, y: seq<U64>, index: nat)
    requires index < |y| && Capacity() <= Val(z) * y[index]
    ensures Capacity() <= Val(z) * Val(y)
  {
    LimbBelow(y, index);
    GrowFactor(Capacity(), Val(z), y[index], Val(y));
  }

  /** Adding z * y[index] at limb index extends the partial product, and overflows only if the whole product does. */
  lemma ProductSum(s: seq<U64>, z: seq<U64>, y: seq<U64>, index: nat, t: seq<U64>)
    requires index < |y| <= LIMB_COUNT && |s| <= |z| + index
    requires Val(s) == Val(z) * Val(y[..index]) && Val(t) == Val(z) * y[index] && Normalized(t) && |z| <= |t|
    ensures var r := AddAt(s, t, index);
            && Val(r) == Val(z) * Val(y[..index + 1])
            && |r| <= |z| + index + 1
            && (LIMB_COUNT < |r| ==> Capacity() <= Val(z) * Val(y))
  {
    var r := AddAt(s, t, index);
    AddAtValue(s, t, index);
    PartialProduct(Val(z), y, index);
    if t != [] {
      AddAtNormalized(s, t, index);
      FitsIffSmall(r, LIMB_COUNT);
      ProductLength(z, y, index, r);
    }
  }

  /** Partial products stay within the length the multiplication loop expects. */
  lemma ProductLength(z: seq<U64>, y: seq<U64>, index: nat, r: seq<U64>)
    requires index < |y| && Normalized(r) && Val(r) == Val(z) * Val(y[..index + 1])
    ensures |r| <= |z| + index + 1
  {
    var n := index + 1;
    ValBound(z);
    ValBound(y[..n]);
    var a, b := Scale(1, Limb, |z|), Scale(1, Limb, n);
    assert Val(r) < a * b by { ProductBelow(Val(z), Val(y[..n]), a, b); }
    assert a * b == Scale(1, Limb, |z| + n) by {
      ScaleMul(a, 1, Limb, n);
      ScaleCompose(1, Limb, |z|, n);
    }
    FitsIffSmall(r, |z| + n);
  }

  lemma ProductBelow(x: nat, y: nat, a: nat, b: nat)
    requires x < a && y < b
    ensures x * y < a * b
  {
    MulMonotone(x, a, y);
    MulStrict(y, b, a);
  }
}
