/** Natural-number powers and the few nonlinear facts the other modules lean on. */
module Powers {

  function Pow(b: nat, n: nat): nat
    decreases n
  {
    if n == 0 then 1 else b * Pow(b, n - 1)
  }

  lemma {:induction false} PowPositive(b: nat, n: nat)
    requires 0 < b
    ensures 0 < Pow(b, n)
    decreases n
  {
    if n > 0 {
      PowPositive(b, n - 1);
      MulPositive(b, Pow(b, n - 1));
    }
  }

  /** The power by repeated squaring, which takes few steps to evaluate. */
  function FastPow(b: nat, n: nat): nat
    decreases n
  {
    if n == 0 then 1
    else
      var h := FastPow(b, n / 2);
      if n % 2 == 0 then h * h else h * h * b
  }

  lemma {:induction false} FastPowIsPow(b: nat, n: nat)
    ensures FastPow(b, n) == Pow(b, n)
    decreases n
  {
    if n > 0 {
      FastPowIsPow(b, n / 2);
      PowAdd(b, n / 2, n / 2);
      if n % 2 == 1 {
        assert Pow(b, n) == b * Pow(b, n - 1);
      }
    }
  }

  lemma MulPositive(x: int, y: int)
    requires 0 < x && 0 < y
    ensures 0 < x * y
  {
  }

  lemma MulMonotone(x: int, y: int, k: int)
    requires x <= y && 0 <= k
    ensures x * k <= y * k
  {
  }

  lemma MulStrict(x: int, y: int, k: int)
    requires x < y && 0 < k
    ensures x * k < y * k
  {
  }

  lemma MulAssociative(x: int, y: int, z: int)
    ensures (x * y) * z == x * (y * z)
  {
  }

  lemma MulDistributes(x: int, y: int, z: int)
    ensures (x + y) * z == x * z + y * z
    ensures z * (x + y) == z * x + z * y
  {
  }

  lemma {:induction false} PowAdd(b: nat, m: nat, n: nat)
    ensures Pow(b, m + n) == Pow(b, m) * Pow(b, n)
    decreases m
  {
    if m > 0 {
      PowAdd(b, m - 1, n);
      MulAssociative(b, Pow(b, m - 1), Pow(b, n));
    }
  }

  lemma {:induction false} PowMonotone(b: nat, m: nat, n: nat)
    requires 0 < b && m <= n
    ensures Pow(b, m) <= Pow(b, n)
  {
    PowAdd(b, m, n - m);
    PowPositive(b, m);
    PowPositive(b, n - m);
    MulMonotone(1, Pow(b, n - m), Pow(b, m));
  }

  /** x = q * d + r with 0 <= r < d pins down the quotient and the remainder. */
  lemma DivModUnique(x: int, d: int, q: int, r: int)
    requires 0 < d && 0 <= r < d && x == q * d + r
    ensures x / d == q && x % d == r
  {
    var q', r' := x / d, x % d;
    assert x == d * q' + r';
    if q < q' {
      MulMonotone(q + 1, q', d);
      MulDistributes(q, 1, d);
    } else if q' < q {
      MulMonotone(q' + 1, q, d);
      MulDistributes(q', 1, d);
    }
  }

  lemma DivModFact(x: int, d: int)
    requires 0 < d
    ensures x == (x / d) * d + x % d
    ensures 0 <= x % d < d
  {
  }

  lemma ModSmall(x: int, d: int)
    requires 0 <= x < d
    ensures x % d == x && x / d == 0
  {
    DivModUnique(x, d, 0, x);
  }

  /** Adding a multiple of the modulus does not change the remainder. */
  lemma ModShift(x: int, d: int, k: int)
    requires 0 < d
    ensures (x + k * d) % d == x % d
  {
    DivModFact(x, d);
    MulDistributes(x / d, k, d);
    DivModUnique(x + k * d, d, x / d + k, x % d);
  }

  // ---- scaling by a power, one factor at a time ----

  /** The bases numbers are scaled by here; Limb is 2^64. */
  datatype Radix = Two | Five | Ten | Limb
  {
    function Base(): (b: nat)
      ensures 2 <= b
    {
      match this
      case Two => 2
      case Five => 5
      case Ten => 10
      case Limb => 0x1_0000_0000_0000_0000
    }
  }

  /** x * base^k. Each case multiplies by a literal, which the solver treats as linear. */
  function Scale(x: nat, r: Radix, k: nat): nat
    decreases k
  {
    if k == 0 then x
    else
      match r
      case Two => 2 * Scale(x, r, k - 1)
      case Five => 5 * Scale(x, r, k - 1)
      case Ten => 10 * Scale(x, r, k - 1)
      case Limb => 0x1_0000_0000_0000_0000 * Scale(x, r, k - 1)
  }

  lemma {:induction false} ScaleIsProduct(x: nat, r: Radix, k: nat)
    ensures Scale(x, r, k) == x * Pow(r.Base(), k)
    decreases k
  {
    if k > 0 {
      ScaleIsProduct(x, r, k - 1);
      MulAssociative(r.Base(), x, Pow(r.Base(), k - 1));
      MulAssociative(x, r.Base(), Pow(r.Base(), k - 1));
    }
  }

  lemma {:induction false} ScaleZero(r: Radix, k: nat)
    ensures Scale(0, r, k) == 0
    decreases k
  {
    if k > 0 {
      ScaleZero(r, k - 1);
    }
  }

  lemma {:induction false} ScaleSum(x: nat, y: nat, r: Radix, k: nat)
    ensures Scale(x + y, r, k) == Scale(x, r, k) + Scale(y, r, k)
    decreases k
  {
    if k > 0 {
      ScaleSum(x, y, r, k - 1);
    }
  }

  lemma {:induction false} ScaleCompose(x: nat, r: Radix, j: nat, k: nat)
    ensures Scale(Scale(x, r, j), r, k) == Scale(x, r, j + k)
    decreases k
  {
    if k > 0 {
      ScaleCompose(x, r, j, k - 1);
    }
  }

  lemma {:induction false} ScaleMonotone(x: nat, y: nat, r: Radix, k: nat)
    requires x <= y
    ensures Scale(x, r, k) <= Scale(y, r, k)
    decreases k
  {
    if k > 0 {
      ScaleMonotone(x, y, r, k - 1);
    }
  }

  lemma {:induction false} ScaleStrict(x: nat, y: nat, r: Radix, k: nat)
    requires x < y
    ensures Scale(x, r, k) < Scale(y, r, k)
    decreases k
  {
    if k > 0 {
      ScaleStrict(x, y, r, k - 1);
    }
  }

  /** Scaling preserves and reflects order. */
  lemma ScaleOrder(x: nat, y: nat, r: Radix, k: nat)
    ensures Scale(x, r, k) < Scale(y, r, k) <==> x < y
    ensures Scale(x, r, k) == Scale(y, r, k) <==> x == y
  {
    if x < y {
      ScaleStrict(x, y, r, k);
    } else if y < x {
      ScaleStrict(y, x, r, k);
    }
  }

  lemma {:induction false} ScaleGrows(x: nat, r: Radix, j: nat, k: nat)
    requires j <= k
    ensures Scale(x, r, j) <= Scale(x, r, k)
    decreases k
  {
    if j < k {
      ScaleGrows(x, r, j, k - 1);
    }
  }

  lemma {:induction false} ScalePositive(x: nat, r: Radix, k: nat)
    requires 0 < x
    ensures 0 < Scale(x, r, k)
  {
    ScaleGrows(x, r, 0, k);
  }

  /** Larger powers of two or more belong to larger exponents. */
  lemma ScaleExponentOrder(r: Radix, j: nat, k: nat)
    ensures Scale(1, r, j) < Scale(1, r, k) <==> j < k
  {
    if j < k {
      ScaleGrows(1, r, j, k - 1);
      ScalePositive(1, r, k - 1);
    } else {
      ScaleGrows(1, r, k, j);
    }
  }

  lemma ScaleMul(x: nat, y: nat, r: Radix, k: nat)
    ensures Scale(x * y, r, k) == x * Scale(y, r, k)
    ensures Scale(x * y, r, k) == Scale(x, r, k) * y
  {
    var p := Pow(r.Base(), k);
    ScaleIsProduct(x * y, r, k);
    ScaleIsProduct(x, r, k);
    ScaleIsProduct(y, r, k);
    MulAssociative(x, y, p);
    MulAssociative(x, p, y);
  }

  /** Scalings by different bases commute. */
  lemma {:induction false} ScaleSwap(x: nat, r: Radix, j: nat, t: Radix, k: nat)
    ensures Scale(Scale(x, r, j), t, k) == Scale(Scale(x, t, k), r, j)
    decreases k
  {
    if k > 0 {
      ScaleSwap(x, r, j, t, k - 1);
      ScaleStep(Scale(x, t, k - 1), r, j, t);
    }
  }

  lemma {:induction false} ScaleStep(x: nat, r: Radix, k: nat, t: Radix)
    ensures Scale(Scale(x, t, 1), r, k) == Scale(Scale(x, r, k), t, 1)
    decreases k
  {
    if k > 0 {
      ScaleStep(x, r, k - 1, t);
    }
  }

  lemma {:induction false} ScaleTen(x: nat, k: nat)
    ensures Scale(x, Ten, k) == Scale(Scale(x, Five, k), Two, k)
    decreases k
  {
    if k > 0 {
      ScaleTen(x, k - 1);
      ScaleStep(Scale(x, Five, k - 1), Two, k - 1, Five);
    }
  }

  /** 64 doublings are one limb. */
  lemma {:induction false} ScaleLimb(x: nat, k: nat)
    ensures Scale(x, Limb, k) == Scale(x, Two, 64 * k)
    decreases k
  {
    if k > 0 {
      ScaleLimb(x, k - 1);
      var y := Scale(x, Two, 64 * (k - 1));
      ScaleCompose(x, Two, 64 * (k - 1), 64);
      SixtyFourDoublings(y);
    }
  }

  lemma FourDoublings(y: nat)
    ensures Scale(y, Two, 4) == 0x10 * y
  {
    assert Scale(y, Two, 1) == 2 * y;
    assert Scale(y, Two, 2) == 4 * y;
    assert Scale(y, Two, 3) == 8 * y;
  }

  lemma EightDoublings(y: nat)
    ensures Scale(y, Two, 8) == 0x100 * y
  {
    FourDoublings(y);
    FourDoublings(Scale(y, Two, 4));
    ScaleCompose(y, Two, 4, 4);
  }

  lemma SixteenDoublings(y: nat)
    ensures Scale(y, Two, 16) == 0x1_0000 * y
  {
    EightDoublings(y);
    EightDoublings(Scale(y, Two, 8));
    ScaleCompose(y, Two, 8, 8);
  }

  lemma ThirtyTwoDoublings(y: nat)
    ensures Scale(y, Two, 32) == 0x1_0000_0000 * y
  {
    SixteenDoublings(y);
    SixteenDoublings(Scale(y, Two, 16));
    ScaleCompose(y, Two, 16, 16);
  }

  lemma SixtyFourDoublings(y: nat)
    ensures Scale(y, Two, 64) == 0x1_0000_0000_0000_0000 * y
  {
    ThirtyTwoDoublings(y);
    ThirtyTwoDoublings(Scale(y, Two, 32));
    ScaleCompose(y, Two, 32, 32);
  }
}
