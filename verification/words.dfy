/** Fixed-width unsigned arithmetic on naturals: every operation that can wrap says so. */
module Words {
  import opened Powers

  const W32: nat := 0x1_0000_0000
  const W64: nat := 0x1_0000_0000_0000_0000

  type U64 = x: nat | x < W64

  lemma PowersOfTwo()
    ensures Scale(1, Two, 32) == W32 && Scale(1, Two, 64) == W64 && Scale(1, Two, 63) == 0x8000_0000_0000_0000
  {
    ThirtyTwoDoublings(1);
    SixtyFourDoublings(1);
  }

  function Add64(x: nat, y: nat): U64 { (x + y) % W64 }

  function Sub64(x: int, y: int): U64 { (x - y) % W64 }

  function Mul64(x: nat, y: nat): U64 { (x * y) % W64 }

  /** x << k in a 64-bit word. */
  function Shl64(x: nat, k: nat): U64 { Scale(x, Two, k) % W64 }

  /** x >> k, one bit at a time. */
  function Shr(x: nat, k: nat): nat
    decreases k
  {
    if k == 0 then x else Shr(x / 2, k - 1)
  }

  /** The k bits that x >> k drops. */
  function LowBits(x: nat, k: nat): nat
    decreases k
  {
    if k == 0 then 0 else x % 2 + 2 * LowBits(x / 2, k - 1)
  }

  lemma {:induction false} ShiftSplit(x: nat, k: nat)
    ensures x == Scale(Shr(x, k), Two, k) + LowBits(x, k)
    ensures LowBits(x, k) < Scale(1, Two, k)
    decreases k
  {
    if k > 0 {
      ShiftSplit(x / 2, k - 1);
    }
  }

  lemma {:induction false} ShiftUnique(x: nat, h: nat, l: nat, k: nat)
    requires x == Scale(h, Two, k) + l && l < Scale(1, Two, k)
    ensures Shr(x, k) == h && LowBits(x, k) == l
    decreases k
  {
    if k > 0 {
      ShiftUnique(x / 2, h, l / 2, k - 1);
    }
  }

  lemma ShrBelow(x: nat, j: nat, k: nat)
    requires x < Scale(1, Two, j + k)
    ensures Shr(x, k) < Scale(1, Two, j)
  {
    ShiftSplit(x, k);
    if Scale(1, Two, j) <= Shr(x, k) {
      ScaleMonotone(Scale(1, Two, j), Shr(x, k), Two, k);
      PowScale(j, k);
    }
  }

  lemma PowScale(j: nat, k: nat)
    ensures Scale(Scale(1, Two, j), Two, k) == Scale(1, Two, j + k)
  {
    ScaleCompose(1, Two, j, k);
  }

  /** Bitwise or, one bit at a time. */
  function Or(x: nat, y: nat): nat
    decreases x + y
  {
    if x == 0 then y
    else if y == 0 then x
    else (if x % 2 == 1 || y % 2 == 1 then 1 else 0) + 2 * Or(x / 2, y / 2)
  }

  /** Bitwise and, one bit at a time. */
  function And(x: nat, y: nat): nat
    decreases x + y
  {
    if x == 0 || y == 0 then 0
    else (if x % 2 == 1 && y % 2 == 1 then 1 else 0) + 2 * And(x / 2, y / 2)
  }

  /** And splits at any bit position: low halves and high halves do not interact. */
  lemma {:induction false} AndSplit(a: nat, b: nat, c: nat, d: nat, k: nat)
    requires a < Scale(1, Two, k) && c < Scale(1, Two, k)
    ensures And(a + Scale(b, Two, k), c + Scale(d, Two, k)) == And(a, c) + Scale(And(b, d), Two, k)
    decreases k
  {
    if k == 0 {
      assert a + Scale(b, Two, k) == b && c + Scale(d, Two, k) == d;
    } else {
      AndSplit(a / 2, b, c / 2, d, k - 1);
      assert a + Scale(b, Two, k) == a + 2 * Scale(b, Two, k - 1) && c + Scale(d, Two, k) == c + 2 * Scale(d, Two, k - 1);
      AndStepPair(a, c, Scale(b, Two, k - 1), Scale(d, Two, k - 1), Scale(And(b, d), Two, k - 1));
    }
  }

  /** The same for Or. */
  lemma {:induction false} OrSplit(a: nat, b: nat, c: nat, d: nat, k: nat)
    requires a < Scale(1, Two, k) && c < Scale(1, Two, k)
    ensures Or(a + Scale(b, Two, k), c + Scale(d, Two, k)) == Or(a, c) + Scale(Or(b, d), Two, k)
    decreases k
  {
    if k == 0 {
      assert a + Scale(b, Two, k) == b && c + Scale(d, Two, k) == d;
    } else {
      OrSplit(a / 2, b, c / 2, d, k - 1);
      assert a + Scale(b, Two, k) == a + 2 * Scale(b, Two, k - 1) && c + Scale(d, Two, k) == c + 2 * Scale(d, Two, k - 1);
      OrStepPair(a, c, Scale(b, Two, k - 1), Scale(d, Two, k - 1), Scale(Or(b, d), Two, k - 1));
    }
  }

  lemma AndStepPair(a: nat, c: nat, b: nat, d: nat, high: nat)
    requires And(a / 2 + b, c / 2 + d) == And(a / 2, c / 2) + high
    ensures And(a + 2 * b, c + 2 * d) == And(a, c) + 2 * high
  {
    var x, y := a + 2 * b, c + 2 * d;
    assert x / 2 == a / 2 + b && x % 2 == a % 2 && y / 2 == c / 2 + d && y % 2 == c % 2;
    AndStep(x, y);
    AndStep(a, c);
  }

  lemma OrStepPair(a: nat, c: nat, b: nat, d: nat, high: nat)
    requires Or(a / 2 + b, c / 2 + d) == Or(a / 2, c / 2) + high
    ensures Or(a + 2 * b, c + 2 * d) == Or(a, c) + 2 * high
  {
    var x, y := a + 2 * b, c + 2 * d;
    assert x / 2 == a / 2 + b && x % 2 == a % 2 && y / 2 == c / 2 + d && y % 2 == c % 2;
    OrStep(x, y);
    OrStep(a, c);
  }

  lemma AndStep(x: nat, y: nat)
    ensures And(x, y) == (if x % 2 == 1 && y % 2 == 1 then 1 else 0) + 2 * And(x / 2, y / 2)
  {
  }

  lemma OrStep(x: nat, y: nat)
    ensures Or(x, y) == (if x % 2 == 1 || y % 2 == 1 then 1 else 0) + 2 * Or(x / 2, y / 2)
  {
  }

  /** Or of fields that do not overlap is their sum. */
  lemma {:induction false} OrDisjoint(high: nat, low: nat, k: nat)
    requires low < Scale(1, Two, k)
    ensures Or(Scale(high, Two, k), low) == Scale(high, Two, k) + low
    ensures Or(low, Scale(high, Two, k)) == Scale(high, Two, k) + low
  {
    ScalePositive(1, Two, k);
    ScaleZero(Two, k);
    OrSplit(0, high, low, 0, k);
    OrSplit(low, 0, 0, high, k);
  }

  /** Masking with k low ones keeps the k low bits. */
  lemma {:induction false} AndMask(x: nat, k: nat)
    ensures Scale(1, Two, k) >= 1
    ensures And(x, Scale(1, Two, k) - 1) == LowBits(x, k)
    decreases k
  {
    ScalePositive(1, Two, k);
    if k > 0 {
      AndMask(x / 2, k - 1);
      AndStep(x, Scale(1, Two, k) - 1);
    } else {
      assert And(x, 0) == 0;
    }
  }

  /** A 64-bit left shift keeps the low 64 - k bits of x and drops the rest. */
  lemma Shl64Split(x: U64, k: nat)
    requires k <= 64
    ensures Scale(x, Two, k) == W64 * Shr(x, 64 - k) + Scale(LowBits(x, 64 - k), Two, k)
    ensures Scale(LowBits(x, 64 - k), Two, k) <= W64 - Scale(1, Two, k)
    ensures Shl64(x, k) == Scale(LowBits(x, 64 - k), Two, k)
    ensures Shr(x, 64 - k) < Scale(1, Two, k)
  {
    var h, l := Shr(x, 64 - k), LowBits(x, 64 - k);
    PowersOfTwo();
    ShiftSplit(x, 64 - k);
    ScaleTop(x, h, l, 64 - k, k);
    assert Scale(l, Two, k) + Scale(1, Two, k) <= W64 by {
      PowScale(64 - k, k);
      ScaleSum(l, 1, Two, k);
      ScaleMonotone(l + 1, Scale(1, Two, 64 - k), Two, k);
    }
    ScalePositive(1, Two, k);
    WordDivMod(Scale(x, Two, k), h, Scale(l, Two, k));
    ShrBelow(x, k, 64 - k);
  }

  lemma ScaleTop(x: nat, h: nat, l: nat, j: nat, k: nat)
    requires Scale(1, Two, j + k) == W64 && x == Scale(h, Two, j) + l
    ensures Scale(x, Two, k) == W64 * h + Scale(l, Two, k)
  {
    ScaleSum(Scale(h, Two, j), l, Two, k);
    ScaleCompose(h, Two, j, k);
    ScaleWord(h, j + k);
  }

  lemma {:induction false} ScaleWord(h: nat, n: nat)
    requires Scale(1, Two, n) == W64
    ensures Scale(h, Two, n) == W64 * h
  {
    if h == 0 {
      ScaleZero(Two, n);
    } else {
      ScaleWord(h - 1, n);
      ScaleSum(h - 1, 1, Two, n);
    }
  }

  lemma WordDivMod(x: nat, h: nat, l: nat)
    requires x == W64 * h + l && l < W64
    ensures x / W64 == h && x % W64 == l
  {
  }

  datatype U128 = U128(low: U64, high: U64)

  /** The portable 64 x 64 -> 128 bit multiply: four 32-bit products whose carries are tracked by hand. */
  function Umul128Generic(ab: U64, cd: U64): (r: U128)
    ensures r.high * W64 + r.low == ab * cd
  {
    var a, b, c, d := ab / W32, ab % W32, cd / W32, cd % W32;
    Umul128Bounds(a, b, c, d);
    CrossProducts(a, b, c, d);
    Umul128Combine(a * d, b * d, b * c, a * c)
  }

  /** Adds up the four partial products in 64-bit words. */
  function Umul128Combine(ad: nat, bd: nat, bc: nat, ac: nat): (r: U128)
    requires ad <= 0xFFFF_FFFE_0000_0001 && bd <= 0xFFFF_FFFE_0000_0001
    requires bc <= 0xFFFF_FFFE_0000_0001 && ac <= 0xFFFF_FFFE_0000_0001
    ensures r.high * W64 + r.low == ac * W64 + (ad + bc) * W32 + bd
  {
    var adbc := Add64(ad, bc);
    var adbcCarry := if adbc < ad then 1 else 0;
    var low := Add64(bd, (adbc * W32) % W64);
    var high := (ac + adbc / W32 + adbcCarry * W32 + (if low < bd then 1 else 0)) % W64;
    Umul128Sum(ad, bd, bc, ac);
    U128(low, high)
  }

  lemma Umul128Bounds(a: nat, b: nat, c: nat, d: nat)
    requires a < W32 && b < W32 && c < W32 && d < W32
    ensures a * d <= 0xFFFF_FFFE_0000_0001 && b * d <= 0xFFFF_FFFE_0000_0001
    ensures b * c <= 0xFFFF_FFFE_0000_0001 && a * c <= 0xFFFF_FFFE_0000_0001
  {
    ProductBound(a, d, W32 - 1);
    ProductBound(b, d, W32 - 1);
    ProductBound(b, c, W32 - 1);
    ProductBound(a, c, W32 - 1);
  }

  lemma ProductBound(x: nat, y: nat, m: nat)
    requires x <= m && y <= m
    ensures x * y <= m * m
  {
    MulMonotone(x, m, y);
    MulMonotone(y, m, m);
  }

  lemma CrossProducts(a: nat, b: nat, c: nat, d: nat)
    ensures (a * W32 + b) * (c * W32 + d) == (a * c) * W64 + (a * d + b * c) * W32 + b * d
  {
    MulDistributes(a * W32, b, c * W32 + d);
    MulDistributes(c * W32, d, a * W32);
    MulDistributes(c * W32, d, b);
    MulAssociative(a, W32, c * W32);
    MulAssociative(W32, c, W32);
  }

  /** The carries kept by Umul128Generic lose nothing, whatever the four products are. */
  lemma Umul128Sum(ad: nat, bd: nat, bc: nat, ac: nat)
    requires ad <= 0xFFFF_FFFE_0000_0001 && bd <= 0xFFFF_FFFE_0000_0001
    requires bc <= 0xFFFF_FFFE_0000_0001 && ac <= 0xFFFF_FFFE_0000_0001
    ensures var adbc := Add64(ad, bc);
            var adbcCarry := if adbc < ad then 1 else 0;
            var low := Add64(bd, (adbc * W32) % W64);
            var high := ac + adbc / W32 + adbcCarry * W32 + (if low < bd then 1 else 0);
            high * W64 + low == ac * W64 + (ad + bc) * W32 + bd && high < W64
  {
    var adbc := Add64(ad, bc);
    var h, l := adbc / W32, adbc % W32;
    DivModUnique(adbc * W32, W64, h, l * W32);
    assert adbc * W32 == h * W64 + l * W32;
  }

  // ---- shifts that cross a limb boundary ----

  /** The bits of x that a left shift by n pushes out of the word. */
  function Carried(x: U64, n: nat): nat { Scale(x, Two, n) / W64 }

  /** (x << n) | (prev >> (64 - n)): x shifted, with the bits carried out of the limb below. */
  method ShlOr(x: U64, prev: U64, n: nat) returns (limb: U64)
    requires 0 < n < 64
    ensures Carried(prev, n) < Scale(1, Two, n)
    ensures Scale(x, Two, n) + Carried(prev, n) == W64 * Carried(x, n) + limb
  {
    Shl64Split(x, n);
    Shl64Split(prev, n);
    WordDivMod(Scale(x, Two, n), Shr(x, 64 - n), Shl64(x, n));
    WordDivMod(Scale(prev, Two, n), Shr(prev, 64 - n), Shl64(prev, n));
    OrDisjoint(LowBits(x, 64 - n), Shr(prev, 64 - n), n);
    limb := Or(Shl64(x, n), Shr(prev, 64 - n));
  }

  /** The portable leading-zero count: halve the search range six times. */
  method CountLeadingZeroes(x: U64) returns (n: nat)
    ensures x == 0 <==> n == 64
    ensures x != 0 ==> n < 64 && 0x8000_0000_0000_0000 <= Scale(x, Two, n) < W64
  {
    if x == 0 {
      return 64;
    }
    PowersOfTwo();
    var y;
    y, n := ClzStep(x, x, 0, 32);
    y, n := ClzStep(x, y, n, 16);
    y, n := ClzStep(x, y, n, 8);
    y, n := ClzStep(x, y, n, 4);
    y, n := ClzStep(x, y, n, 2);
    y, n := ClzStep(x, y, n, 1);
  }

  /** If the k top bits are clear, count them and shift them out. */
  method ClzStep(ghost x: U64, y: U64, n: nat, k: nat) returns (y': U64, n': nat)
    requires 0 < k <= 32 && y == Scale(x, Two, n) && Scale(1, Two, 64 - 2 * k) <= y
    ensures y' == Scale(x, Two, n') && Scale(1, Two, 64 - k) <= y' && n <= n' <= n + k
  {
    TopClear(y, 64 - k);
    if Shr(y, 64 - k) == 0 {
      ClzShift(y, k);
      ScaleCompose(x, Two, n, k);
      y', n' := Scale(y, Two, k), n + k;
    } else {
      y', n' := y, n;
    }
  }

  lemma TopClear(y: nat, k: nat)
    ensures Shr(y, k) == 0 <==> y < Scale(1, Two, k)
  {
    ShiftSplit(y, k);
    ScaleZero(Two, k);
    if Shr(y, k) > 0 {
      ScaleMonotone(1, Shr(y, k), Two, k);
    }
  }

  lemma ClzShift(y: nat, k: nat)
    requires 0 < k <= 32 && Scale(1, Two, 64 - 2 * k) <= y < Scale(1, Two, 64 - k)
    ensures Scale(1, Two, 64 - k) <= Scale(y, Two, k) < W64
  {
    PowersOfTwo();
    PowScale(64 - k, k);
    PowScale(64 - 2 * k, k);
    ScaleMonotone(Scale(1, Two, 64 - 2 * k), y, Two, k);
    ScaleStrict(y, Scale(1, Two, 64 - k), Two, k);
  }

  /** The top 64 bits of the two-limb number r0 * 2^64 + r1, and whether any bit was dropped. */
  method Hi64Two(r0: U64, r1: U64) returns (bits: U64, truncated: bool, ghost shl: nat, ghost rest: nat)
    requires r0 != 0
    ensures shl < 64 && 0x8000_0000_0000_0000 <= Scale(r0, Two, shl) < W64
    ensures 0x8000_0000_0000_0000 <= bits
    ensures Scale(r0, Two, shl) + Carried(r1, shl) == bits
    ensures Scale(r1, Two, shl) == W64 * Carried(r1, shl) + rest
    ensures rest + Scale(1, Two, shl) <= W64
    ensures truncated <==> rest != 0
  {
    var s := CountLeadingZeroes(r0);
    shl := s;
    Shl64Split(r1, s);
    WordDivMod(Scale(r1, Two, s), Shr(r1, 64 - s), Shl64(r1, s));
    rest := Shl64(r1, s);
    if s == 0 {
      truncated := r1 != 0;
      bits := r0;
    } else {
      truncated := Shl64(r1, s) != 0;
      ModSmall(Scale(r0, Two, s), W64);
      Shl64Split(r0, s);
      OrDisjoint(LowBits(r0, 64 - s), Shr(r1, 64 - s), s);
      bits := Or(Shl64(r0, s), Shr(r1, 64 - s));
    }
  }
}
