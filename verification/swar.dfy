/** Eight digits at a time in one machine word: the SWAR tests and multiplications of ffc.h. */
module Swar {
  import opened Powers
  import opened Words
  import opened Digits

  /** The n bytes at p, read as a little-endian word (ffc_read8_to_u64, ffc_read4_to_u32). */
  function ReadWord(s: seq<Byte>, p: nat, n: nat): nat
    requires p + n <= |s|
    decreases n
  {
    if n == 0 then 0 else s[p] + 256 * ReadWord(s, p + 1, n - 1)
  }

  /** A word with every byte b, and the first number that does not fit n bytes. */
  function Repeat(b: nat, n: nat): nat { if n == 0 then 0 else b + 256 * Repeat(b, n - 1) }

  function ByteRange(n: nat): nat { if n == 0 then 1 else 256 * ByteRange(n - 1) }

  lemma {:induction false} ReadWordBound(s: seq<Byte>, p: nat, n: nat)
    requires p + n <= |s|
    ensures ReadWord(s, p, n) < ByteRange(n)
    decreases n
  {
    if n > 0 {
      ReadWordBound(s, p + 1, n - 1);
    }
  }

  // ---- the digit test ----

  /** The high-bit test on one byte of both sums. */
  lemma ByteTest(b: Byte, x: nat, y: nat)
    requires x == (b + 0x46) % 256 && y == (b - 0x30) % 256
    ensures And(Or(x, y), 0x80) == 0 <==> IsDigit(b)
    ensures IsDigit(b) ==> b + 0x46 < 256
  {
    HighBit(x, y);
    InDigitRange(b, x, y);
  }

  lemma InDigitRange(b: Byte, x: nat, y: nat)
    requires x == (b + 0x46) % 256 && y == (b - 0x30) % 256
    ensures x < 128 && y < 128 <==> IsDigit(b)
    ensures IsDigit(b) ==> b + 0x46 < 256
  {
    if b + 0x46 >= 256 {
      DivModUnique(b + 0x46, 256, 1, b + 0x46 - 256);
    }
    if b < 0x30 {
      DivModUnique(b - 0x30, 256, -1, b - 0x30 + 256);
    }
  }

  lemma HighBit(x: nat, y: nat)
    requires x < 256 && y < 256
    ensures And(Or(x, y), 0x80) == 0 <==> x < 128 && y < 128
  {
    EightDoublingsOf7();
    var a, b, c, d := x % 128, x / 128, y % 128, y / 128;
    SevenDoublings(b);
    SevenDoublings(d);
    OrSplit(a, b, c, d, 7);
    OrBound(a, c, 7);
    SevenDoublings(Or(b, d));
    SevenDoublings(And(Or(b, d), 1));
    SevenDoublings(1);
    AndSplit(Or(a, c), Or(b, d), 0, 1, 7);
    assert And(Or(a, c), 0) == 0;
    assert b in {0, 1} && d in {0, 1};
    assert Or(0, 0) == 0 && Or(0, 1) == 1 && Or(1, 0) == 1;
    assert Or(1, 1) == 1 by { OrStep(1, 1); }
    assert And(1, 1) == 1 by { AndStep(1, 1); }
  }

  lemma SevenDoublings(y: nat)
    ensures Scale(y, Two, 7) == 128 * y
  {
    EightDoublings(y);
  }

  lemma EightDoublingsOf7()
    ensures Scale(1, Two, 7) == 128
  {
    SevenDoublings(1);
  }

  lemma {:induction false} OrBound(x: nat, y: nat, k: nat)
    requires x < Scale(1, Two, k) && y < Scale(1, Two, k)
    ensures Or(x, y) < Scale(1, Two, k)
    decreases k
  {
    if k > 0 {
      OrBound(x / 2, y / 2, k - 1);
      OrStep(x, y);
    }
  }

  /**
   * The word-wide test holds exactly when every byte is a digit: x is the word plus 0x46... and y the word minus 0x30...,
   * both wrapped, and although a carry or borrow out of a byte disturbs the next one, the lowest bad byte already fails.
   */
  lemma {:induction false} WordTest(s: seq<Byte>, p: nat, n: nat, x: nat, cx: nat, y: nat, cy: nat)
    requires p + n <= |s| && x < ByteRange(n) && y < ByteRange(n)
    requires ReadWord(s, p, n) + Repeat(0x46, n) == x + cx * ByteRange(n)
    requires ReadWord(s, p, n) + cy * ByteRange(n) == y + Repeat(0x30, n)
    ensures And(Or(x, y), Repeat(0x80, n)) == 0 <==> AllDigits(s, p, p + n)
    decreases n
  {
    if n > 0 {
      var b, v := s[p], ReadWord(s, p + 1, n - 1);
      var x0, x1, y0, y1 := x % 256, x / 256, y % 256, y / 256;
      CarrySplit(b, v, x, cx, Repeat(0x46, n - 1), ByteRange(n - 1), y, cy, Repeat(0x30, n - 1));
      EightBitSplit(x0, x1, y0, y1, Repeat(0x80, n - 1));
      ByteTest(b, x0, y0);
      if IsDigit(b) {
        WordTest(s, p + 1, n - 1, x1, cx, y1, cy);
        assert AllDigits(s, p, p + n) <==> AllDigits(s, p + 1, p + n);
      }
    }
  }

  /** The lowest byte of both sums, and the upper bytes when nothing leaves the lowest byte. */
  lemma CarrySplit(b: Byte, v: nat, x: nat, cx: nat, r46: nat, m: nat, y: nat, cy: nat, r30: nat)
    requires b + 256 * v + (0x46 + 256 * r46) == x + cx * (256 * m)
    requires b + 256 * v + cy * (256 * m) == y + (0x30 + 256 * r30)
    ensures x % 256 == (b + 0x46) % 256 && y % 256 == (b - 0x30) % 256
    ensures IsDigit(b) ==> v + r46 == x / 256 + cx * m && v + cy * m == y / 256 + r30
  {
    CarryOfByte(cx, m);
    CarryOfByte(cy, m);
    LowByteSum(b + 0x46, v + r46, x, cx * m);
    LowByteSum(b - 0x30, v + cy * m, y, r30);
  }

  lemma CarryOfByte(c: nat, m: nat)
    ensures c * (256 * m) == 256 * (c * m)
  {
    MulAssociative(c, 256, m);
  }

  lemma LowByteSum(low: int, high: nat, x: nat, t: nat)
    requires low + 256 * high == x + 256 * t
    ensures x % 256 == low % 256
    ensures 0 <= low < 256 ==> high == x / 256 + t
  {
  }

  lemma OrBytes(x0: nat, x1: nat, y0: nat, y1: nat)
    requires x0 < 256 && y0 < 256
    ensures Or(x0 + 256 * x1, y0 + 256 * y1) == Or(x0, y0) + 256 * Or(x1, y1)
    ensures Or(x0, y0) < 256
  {
    EightDoublings(1);
    EightDoublings(x1);
    EightDoublings(y1);
    EightDoublings(Or(x1, y1));
    OrSplit(x0, x1, y0, y1, 8);
    OrBound(x0, y0, 8);
  }

  lemma AndBytes(x0: nat, x1: nat, y0: nat, y1: nat)
    requires x0 < 256 && y0 < 256
    ensures And(x0 + 256 * x1, y0 + 256 * y1) == And(x0, y0) + 256 * And(x1, y1)
  {
    EightDoublings(1);
    EightDoublings(x1);
    EightDoublings(y1);
    EightDoublings(And(x1, y1));
    AndSplit(x0, x1, y0, y1, 8);
  }

  lemma EightBitSplit(x0: nat, x1: nat, y0: nat, y1: nat, mask: nat)
    requires x0 < 256 && y0 < 256
    ensures And(Or(x0 + 256 * x1, y0 + 256 * y1), 0x80 + 256 * mask) == And(Or(x0, y0), 0x80) + 256 * And(Or(x1, y1), mask)
  {
    OrBytes(x0, x1, y0, y1);
    AndBytes(Or(x0, y0), Or(x1, y1), 0x80, mask);
  }

  /** ffc_is_made_of_eight_digits_fast. */
  method IsMadeOfEightDigits(s: seq<Byte>, p: nat) returns (b: bool)
    requires p + 8 <= |s|
    ensures b <==> AllDigits(s, p, p + 8)
  {
    var val := ReadWord(s, p, 8);
    ReadWordBound(s, p, 8);
    EightByteConstants(8);
    var x, y := Add64(val, 0x4646464646464646), Sub64(val, 0x3030303030303030);
    ghost var cx, cy := Wraps(val, x, y);
    WordTest(s, p, 8, x, cx, y, cy);
    b := And(Or(x, y), 0x8080808080808080) == 0;
  }

  lemma Wraps(val: nat, x: nat, y: nat) returns (cx: nat, cy: nat)
    requires val < W64 && x == Add64(val, 0x4646464646464646) && y == Sub64(val, 0x3030303030303030)
    ensures val + 0x4646464646464646 == x + cx * W64 && val + cy * W64 == y + 0x3030303030303030
  {
    cx := if val + 0x4646464646464646 >= W64 then 1 else 0;
    cy := if val < 0x3030303030303030 then 1 else 0;
  }

  /** ffc_is_made_of_four_digits_fast. */
  method IsMadeOfFourDigits(s: seq<Byte>, p: nat) returns (b: bool)
    requires p + 4 <= |s|
    ensures b <==> AllDigits(s, p, p + 4)
  {
    var val := ReadWord(s, p, 4);
    ReadWordBound(s, p, 4);
    FourByteConstants(4);
    var x, y := (val + 0x46464646) % W32, (val - 0x30303030) % W32;
    ghost var cx, cy := Wraps32(val, x, y);
    WordTest(s, p, 4, x, cx, y, cy);
    b := And(Or(x, y), 0x80808080) == 0;
  }

  lemma Wraps32(val: nat, x: nat, y: nat) returns (cx: nat, cy: nat)
    requires val < W32 && x == (val + 0x46464646) % W32 && y == (val - 0x30303030) % W32
    ensures val + 0x46464646 == x + cx * W32 && val + cy * W32 == y + 0x30303030
  {
    cx := if val + 0x46464646 >= W32 then 1 else 0;
    cy := if val < 0x30303030 then 1 else 0;
  }

  lemma FourByteConstants(n: nat)
    requires n == 4
    ensures Repeat(0x46, n) == 0x46464646 && Repeat(0x30, n) == 0x30303030 && Repeat(0x80, n) == 0x80808080
    ensures ByteRange(n) == W32
  {
  }

  lemma EightByteConstants(n: nat)
    requires n == 8
    ensures Repeat(0x46, n) == 0x4646464646464646 && Repeat(0x30, n) == 0x3030303030303030 && Repeat(0x80, n) == 0x8080808080808080
    ensures ByteRange(n) == W64
  {
  }

  // ---- the digit values ----

  /** ffc_parse_eight_digits_unrolled_swar: three multiplications turn eight digit bytes into their number. */
  method ParseEightDigits(s: seq<Byte>, p: nat) returns (r: nat)
    requires p + 8 <= |s| && AllDigits(s, p, p + 8)
    ensures r == Dec(s, p, p + 8)
  {
    var val := ReadWord(s, p, 8);
    ghost var d0: nat, d1: nat, d2: nat, d3: nat := s[p] - 48, s[p + 1] - 48, s[p + 2] - 48, s[p + 3] - 48;
    ghost var d4: nat, d5: nat, d6: nat, d7: nat := s[p + 4] - 48, s[p + 5] - 48, s[p + 6] - 48, s[p + 7] - 48;
    EightBytes(s, p, d0 + 48, d1 + 48, d2 + 48, d3 + 48, d4 + 48, d5 + 48, d6 + 48, d7 + 48);
    EightDigitValue(s, p, d0, d1, d2, d3, d4, d5, d6, d7);
    r := EightDigitWord(val, d0, d1, d2, d3, d4, d5, d6, d7);
  }

  /** The arithmetic on one word. */
  method EightDigitWord(val0: nat, ghost d0: nat, ghost d1: nat, ghost d2: nat, ghost d3: nat, ghost d4: nat, ghost d5: nat, ghost d6: nat, ghost d7: nat)
    returns (r: nat)
    requires d0 <= 9 && d1 <= 9 && d2 <= 9 && d3 <= 9 && d4 <= 9 && d5 <= 9 && d6 <= 9 && d7 <= 9
    requires val0 == (d0 + 48) + 0x100 * (d1 + 48) + 0x1_0000 * (d2 + 48) + 0x100_0000 * (d3 + 48) + 0x1_0000_0000 * (d4 + 48)
                   + 0x100_0000_0000 * (d5 + 48) + 0x1_0000_0000_0000 * (d6 + 48) + 0x100_0000_0000_0000 * (d7 + 48)
    ensures r == 10000000 * d0 + 1000000 * d1 + 100000 * d2 + 10000 * d3 + 1000 * d4 + 100 * d5 + 10 * d6 + d7
  {
    var val := Sub64(val0, 0x3030303030303030);
    val := Pairs(val, d0, d1, d2, d3, d4, d5, d6, d7);
    r := Combine(val, 10 * d0 + d1, 10 * d1 + d2, 10 * d2 + d3, 10 * d3 + d4, 10 * d4 + d5, 10 * d5 + d6, 10 * d6 + d7, 10 * d7);
  }

  lemma EightBytes(s: seq<Byte>, p: nat, b0: int, b1: int, b2: int, b3: int, b4: int, b5: int, b6: int, b7: int)
    requires p + 8 <= |s| && b0 == s[p] && b1 == s[p + 1] && b2 == s[p + 2] && b3 == s[p + 3]
    requires b4 == s[p + 4] && b5 == s[p + 5] && b6 == s[p + 6] && b7 == s[p + 7]
    ensures ReadWord(s, p, 8) == b0 + 0x100 * b1 + 0x1_0000 * b2 + 0x100_0000 * b3 + 0x1_0000_0000 * b4
                               + 0x100_0000_0000 * b5 + 0x1_0000_0000_0000 * b6 + 0x100_0000_0000_0000 * b7
  {
    assert ReadWord(s, p + 7, 1) == b7;
    assert ReadWord(s, p + 6, 2) == b6 + 256 * b7;
    assert ReadWord(s, p + 4, 4) == b4 + 256 * (b5 + 256 * ReadWord(s, p + 6, 2));
    assert ReadWord(s, p + 2, 6) == b2 + 256 * (b3 + 256 * ReadWord(s, p + 4, 4));
  }

  /** Each byte becomes ten times itself plus its successor; no byte overflows. */
  method Pairs(val: U64, ghost d0: nat, ghost d1: nat, ghost d2: nat, ghost d3: nat, ghost d4: nat, ghost d5: nat, ghost d6: nat, ghost d7: nat)
    returns (r: U64)
    requires d0 <= 9 && d1 <= 9 && d2 <= 9 && d3 <= 9 && d4 <= 9 && d5 <= 9 && d6 <= 9 && d7 <= 9
    requires val == d0 + 0x100 * d1 + 0x1_0000 * d2 + 0x100_0000 * d3 + 0x1_0000_0000 * d4
                  + 0x100_0000_0000 * d5 + 0x1_0000_0000_0000 * d6 + 0x100_0000_0000_0000 * d7
    ensures r == (10 * d0 + d1) + 0x100 * (10 * d1 + d2) + 0x1_0000 * (10 * d2 + d3) + 0x100_0000 * (10 * d3 + d4) + 0x1_0000_0000 * (10 * d4 + d5)
               + 0x100_0000_0000 * (10 * d5 + d6) + 0x1_0000_0000_0000 * (10 * d6 + d7) + 0x100_0000_0000_0000 * (10 * d7)
  {
    ghost var rest := d1 + 0x100 * d2 + 0x1_0000 * d3 + 0x100_0000 * d4 + 0x1_0000_0000 * d5 + 0x100_0000_0000 * d6 + 0x1_0000_0000_0000 * d7;
    ShrOneByte(val, rest, d0);
    ModSmall(val * 10 + rest, W64);
    r := (val * 10 + Shr(val, 8)) % W64;
  }

  lemma ShrOneByte(x: nat, h: nat, l: nat)
    requires x == 0x100 * h + l && l < 0x100
    ensures Shr(x, 8) == h
  {
    EightDoublings(1);
    EightDoublings(h);
    ShiftUnique(x, h, l, 8);
  }

  lemma ShrByte(x: nat)
    ensures Shr(x, 8) == x / 256 && LowBits(x, 8) == x % 256
  {
    EightDoublings(1);
    EightDoublings(x / 256);
    ShiftUnique(x, x / 256, x % 256, 8);
  }

  /** The masks pick the pairs 0, 2, 4, 6; the multiplications weigh them by powers of a hundred. */
  method Combine(val: U64, ghost p0: nat, ghost p1: nat, ghost p2: nat, ghost p3: nat, ghost p4: nat, ghost p5: nat, ghost p6: nat, ghost p7: nat)
    returns (r: nat)
    requires p0 <= 99 && p1 <= 99 && p2 <= 99 && p3 <= 99 && p4 <= 99 && p5 <= 99 && p6 <= 99 && p7 <= 99
    requires val == p0 + 0x100 * p1 + 0x1_0000 * p2 + 0x100_0000 * p3 + 0x1_0000_0000 * p4
                  + 0x100_0000_0000 * p5 + 0x1_0000_0000_0000 * p6 + 0x100_0000_0000_0000 * p7
    ensures r == 1000000 * p0 + 10000 * p2 + 100 * p4 + p6
  {
    var mask: U64 := 0x000000FF000000FF;
    var mul1, mul2 := 0x000F424000000064, 0x0000271000000001;
    ghost var low, high := p0 + 0x100 * (p1 + 0x100 * p2 + 0x1_0000 * p3), p4 + 0x100 * (p5 + 0x100 * p6 + 0x1_0000 * p7);
    MaskTwo(val, low, high, p0, p1 + 0x100 * p2 + 0x1_0000 * p3, p4, p5 + 0x100 * p6 + 0x1_0000 * p7);
    ghost var low', high' := p2 + 0x100 * (p3 + 0x100 * p4 + 0x1_0000 * p5), p6 + 0x100 * p7;
    ShrTwoBytes(val, low' + 0x1_0000_0000 * high', p0 + 0x100 * p1);
    MaskTwo(low' + 0x1_0000_0000 * high', low', high', p2, p3 + 0x100 * p4 + 0x1_0000 * p5, p6, p7);
    var a, b := And(val, mask), And(Shr(val, 16), mask);
    var sum := Add64(Mul64(a, mul1), Mul64(b, mul2));
    WeighPairs(p0, p2, p4, p6, a, b, sum);
    r := (sum / W32) % W32;
  }

  lemma ShrTwoBytes(x: nat, h: nat, l: nat)
    requires x == 0x1_0000 * h + l && l < 0x1_0000
    ensures Shr(x, 16) == h
  {
    SixteenDoublings(1);
    SixteenDoublings(h);
    ShiftUnique(x, h, l, 16);
  }

  lemma MaskTwo(x: nat, low: nat, high: nat, a0: nat, a1: nat, b0: nat, b1: nat)
    requires x == low + 0x1_0000_0000 * high && low < 0x1_0000_0000
    requires low == a0 + 0x100 * a1 && high == b0 + 0x100 * b1 && a0 < 256 && b0 < 256
    ensures And(x, 0x000000FF000000FF) == a0 + 0x1_0000_0000 * b0
  {
    ThirtyTwoDoublings(1);
    ThirtyTwoDoublings(high);
    ThirtyTwoDoublings(0xFF);
    MaskByte(low, a0, a1);
    MaskByte(high, b0, b1);
    ThirtyTwoDoublings(b0);
    AndSplit(low, high, 0xFF, 0xFF, 32);
  }

  lemma MaskByte(x: nat, a0: nat, a1: nat)
    requires x == a0 + 0x100 * a1 && a0 < 256
    ensures And(x, 0xFF) == a0
  {
    EightDoublings(1);
    AndMask(x, 8);
    ShrByte(x);
  }

  lemma WeighPairs(p0: nat, p2: nat, p4: nat, p6: nat, a: nat, b: nat, sum: nat)
    requires p0 <= 99 && p2 <= 99 && p4 <= 99 && p6 <= 99
    requires a == p0 + 0x1_0000_0000 * p4 && b == p2 + 0x1_0000_0000 * p6
    requires sum == Add64(Mul64(a, 0x000F424000000064), Mul64(b, 0x0000271000000001))
    ensures (sum / W32) % W32 == 1000000 * p0 + 10000 * p2 + 100 * p4 + p6
  {
    WordDivMod(a * 0x000F424000000064, 1000000 * p4, W32 * (1000000 * p0 + 100 * p4) + 100 * p0);
    WordDivMod(b * 0x0000271000000001, 10000 * p6, W32 * (10000 * p2 + p6) + p2);
    UpperHalf(sum, 1000000 * p0 + 10000 * p2 + 100 * p4 + p6, 100 * p0 + p2);
  }

  lemma UpperHalf(sum: nat, mid: nat, low: nat)
    requires sum == W32 * mid + low && low < W32 && mid < W32
    ensures (sum / W32) % W32 == mid
  {
  }

  lemma EightDigitValue(s: seq<Byte>, p: nat, d0: int, d1: int, d2: int, d3: int, d4: int, d5: int, d6: int, d7: int)
    requires p + 8 <= |s| && AllDigits(s, p, p + 8)
    requires d0 == s[p] - 48 && d1 == s[p + 1] - 48 && d2 == s[p + 2] - 48 && d3 == s[p + 3] - 48
    requires d4 == s[p + 4] - 48 && d5 == s[p + 5] - 48 && d6 == s[p + 6] - 48 && d7 == s[p + 7] - 48
    ensures Dec(s, p, p + 8) == 1000000 * (10 * d0 + d1) + 10000 * (10 * d2 + d3) + 100 * (10 * d4 + d5) + (10 * d6 + d7)
  {
    FourDigitValue(s, p, d0, d1, d2, d3);
    FourDigitValue(s, p + 4, d4, d5, d6, d7);
    DecSplit(s, p, p + 4, p + 8);
    TenThousand(Dec(s, p, p + 4), 4);
  }

  lemma TenThousand(x: nat, n: nat)
    requires n == 4
    ensures Scale(x, Ten, n) == 10000 * x
  {
    assert Scale(x, Ten, n - 3) == 10 * x;
    assert Scale(x, Ten, n - 2) == 100 * x;
    assert Scale(x, Ten, n - 1) == 1000 * x;
  }

  lemma FourDigitValue(s: seq<Byte>, p: nat, d0: int, d1: int, d2: int, d3: int)
    requires p + 4 <= |s| && AllDigits(s, p, p + 4)
    requires d0 == s[p] - 48 && d1 == s[p + 1] - 48 && d2 == s[p + 2] - 48 && d3 == s[p + 3] - 48
    ensures Dec(s, p, p + 4) == 100 * (10 * d0 + d1) + (10 * d2 + d3)
  {
    assert Dec(s, p, p + 1) == d0;
    assert Dec(s, p, p + 2) == 10 * d0 + d1;
    assert Dec(s, p, p + 3) == 100 * d0 + 10 * d1 + d2;
  }

  /** ffc_parse_four_digits_unrolled. */
  method ParseFourDigits(s: seq<Byte>, p: nat) returns (r: nat)
    requires p + 4 <= |s| && AllDigits(s, p, p + 4)
    ensures r == Dec(s, p, p + 4)
  {
    var val := ReadWord(s, p, 4);
    ghost var d0: int, d1: int, d2: int, d3: int := s[p], s[p + 1], s[p + 2], s[p + 3];
    assert ReadWord(s, p + 3, 1) == d3;
    assert ReadWord(s, p + 2, 2) == d2 + 256 * d3;
    assert val == d0 + 256 * (d1 + 256 * ReadWord(s, p + 2, 2));
    d0, d1, d2, d3 := d0 - 48, d1 - 48, d2 - 48, d3 - 48;
    val := (val - 0x30303030) % W32;
    val := PairsOfFour(val, d0, d1, d2, d3);
    r := CombineFour(val, 10 * d0 + d1, 10 * d1 + d2, 10 * d2 + d3, 10 * d3);
    FourDigitValue(s, p, d0, d1, d2, d3);
  }

  method PairsOfFour(val: nat, ghost d0: nat, ghost d1: nat, ghost d2: nat, ghost d3: nat) returns (r: nat)
    requires d0 <= 9 && d1 <= 9 && d2 <= 9 && d3 <= 9
    requires val == d0 + 0x100 * d1 + 0x1_0000 * d2 + 0x100_0000 * d3
    ensures r == (10 * d0 + d1) + 0x100 * (10 * d1 + d2) + 0x1_0000 * (10 * d2 + d3) + 0x100_0000 * (10 * d3)
  {
    ghost var rest := d1 + 0x100 * d2 + 0x1_0000 * d3;
    ShrOneByte(val, rest, d0);
    ModSmall(val * 10 + rest, W32);
    r := (val * 10 + Shr(val, 8)) % W32;
  }

  method CombineFour(val: nat, ghost p0: nat, ghost p1: nat, ghost p2: nat, ghost p3: nat) returns (r: nat)
    requires p0 <= 99 && p1 <= 99 && p2 <= 99 && p3 <= 99
    requires val == p0 + 0x100 * p1 + 0x1_0000 * p2 + 0x100_0000 * p3
    ensures r == 100 * p0 + p2
  {
    MaskHalves(val, p0 + 0x100 * p1, p2 + 0x100 * p3, p0, p1, p2, p3);
    WeighHalves(p0, p2);
    r := And(val, 0x00FF00FF) * 0x00640001 % W32 / 0x1_0000 % 0x1_0000;
  }

  lemma MaskHalves(x: nat, low: nat, high: nat, a0: nat, a1: nat, b0: nat, b1: nat)
    requires x == low + 0x1_0000 * high && low < 0x1_0000
    requires low == a0 + 0x100 * a1 && high == b0 + 0x100 * b1 && a0 < 256 && b0 < 256
    ensures And(x, 0x00FF00FF) == a0 + 0x1_0000 * b0
  {
    SixteenDoublings(1);
    SixteenDoublings(high);
    SixteenDoublings(0xFF);
    MaskByte(low, a0, a1);
    MaskByte(high, b0, b1);
    SixteenDoublings(b0);
    AndSplit(low, high, 0xFF, 0xFF, 16);
  }

  lemma WeighHalves(p0: nat, p2: nat)
    requires p0 <= 99 && p2 <= 99
    ensures (p0 + 0x1_0000 * p2) * 0x00640001 % W32 / 0x1_0000 % 0x1_0000 == 100 * p0 + p2
  {
    var x := (p0 + 0x1_0000 * p2) * 0x00640001;
    assert x == W32 * (100 * p2) + (0x1_0000 * (100 * p0 + p2) + p0);
    DivModUnique(x, W32, 100 * p2, 0x1_0000 * (100 * p0 + p2) + p0);
  }

  // ---- the scan ----

  /** The accumulator after reading the digits [a, b) on top of i, in 64 bits. */
  function Accumulated(i: nat, s: seq<Byte>, a: nat, b: nat): U64
    requires a <= b <= |s| && AllDigits(s, a, b)
  {
    (Scale(i, Ten, b - a) + Dec(s, a, b)) % W64
  }

  /** Wrapping early does not change the wrapped result. */
  lemma WrapStep(x: nat, c: nat, v: nat)
    ensures ((x % W64) * c + v) % W64 == (x * c + v) % W64
  {
    var q, r := x / W64, x % W64;
    assert x * c == (q * c) * W64 + r * c by {
      MulDistributes(q * W64, r, c);
      MulAssociative(q, W64, c);
      MulAssociative(q, c, W64);
    }
    ModShift(r * c + v, W64, q * c);
  }

  lemma AccumulateMore(i: nat, s: seq<Byte>, a: nat, m: nat, b: nat, c: nat)
    requires a <= m <= b <= |s| && AllDigits(s, a, b) && c == Scale(1, Ten, b - m)
    ensures (Accumulated(i, s, a, m) * c + Dec(s, m, b)) % W64 == Accumulated(i, s, a, b)
  {
    var x := Scale(i, Ten, m - a) + Dec(s, a, m);
    WrapStep(x, c, Dec(s, m, b));
    ScaleMul(x, 1, Ten, b - m);
    ScaleSum(Scale(i, Ten, m - a), Dec(s, a, m), Ten, b - m);
    ScaleCompose(i, Ten, m - a, b - m);
    DecSplit(s, a, m, b);
  }

  lemma TenPowers(n: nat)
    requires n == 1 || n == 4 || n == 8
    ensures Scale(1, Ten, n) == if n == 1 then 10 else if n == 4 then 10000 else 100000000
  {
    if n == 8 {
      TenThousand(1, 4);
      TenThousand(Scale(1, Ten, 4), 4);
      ScaleCompose(1, Ten, 4, 4);
    } else if n == 4 {
      TenThousand(1, n);
    }
  }

  /**
   * ffc_loop_parse_if_eight_digits: whole words of digits, then one half word.
   * The accumulator is what a byte-by-byte loop would have, and at most three digits are left.
   */
  method LoopParseIfEightDigits(s: seq<Byte>, start: nat, i0: U64) returns (p: nat, i: U64)
    requires start <= |s|
    ensures start <= p <= |s| && AllDigits(s, start, p)
    ensures i == Accumulated(i0, s, start, p)
    ensures DigitEnd(s, p) == DigitEnd(s, start) <= p + 3
  {
    p, i := start, i0;
    ModSmall(i0, W64);
    while |s| - p >= 8
      invariant start <= p <= |s| && AllDigits(s, start, p)
      invariant i == Accumulated(i0, s, start, p)
    {
      var eight := IsMadeOfEightDigits(s, p);
      if !eight {
        break;
      }
      var v := ParseEightDigits(s, p);
      TenPowers(8);
      AccumulateMore(i0, s, start, p, p + 8, 100000000);
      i := (i * 100000000 + v) % W64;
      p := p + 8;
    }
    ShortRun(s, p, 8);
    if |s| - p >= 4 {
      var four := IsMadeOfFourDigits(s, p);
      if four {
        var v := ParseFourDigits(s, p);
        TenPowers(4);
        AccumulateMore(i0, s, start, p, p + 4, 10000);
        i := (i * 10000 + v) % W64;
        SkipDigits(s, p, p + 4);
        p := p + 4;
      } else {
        ShortRun(s, p, 4);
      }
    }
    SkipDigits(s, start, p);
  }

  /** If the next n bytes are not all digits, the run stops within them. */
  lemma ShortRun(s: seq<Byte>, p: nat, n: nat)
    requires p <= |s|
    requires p + n <= |s| ==> !AllDigits(s, p, p + n)
    ensures DigitEnd(s, p) < p + n
  {
    if p + n <= DigitEnd(s, p) {
      assert false;
    }
  }

  lemma SkipDigits(s: seq<Byte>, p: nat, m: nat)
    requires p <= m <= |s| && AllDigits(s, p, m)
    ensures DigitEnd(s, m) == DigitEnd(s, p)
  {
    DigitEndUnique(s, p, DigitEnd(s, m));
  }

  /** The straight-line tail after the scan: three steps always reach the end of the run. */
  method ScanFraction(s: seq<Byte>, start: nat, i0: U64) returns (p: nat, i: U64)
    requires start <= |s|
    ensures p == DigitEnd(s, start)
    ensures i == Accumulated(i0, s, start, p)
  {
    p, i := LoopParseIfEightDigits(s, start, i0);
    if p != |s| && IsDigit(s[p]) {
      p, i := OneDigit(s, start, i0, p, i);
      if p != |s| && IsDigit(s[p]) {
        p, i := OneDigit(s, start, i0, p, i);
        if p != |s| && IsDigit(s[p]) {
          p, i := OneDigit(s, start, i0, p, i);
        }
      }
    }
    assert DigitEnd(s, p) == p;
  }

  /** FFC_DIGIT_ACC10. */
  method OneDigit(s: seq<Byte>, ghost start: nat, ghost i0: nat, p: nat, i: U64) returns (p': nat, i': U64)
    requires start <= p < |s| && AllDigits(s, start, p) && IsDigit(s[p]) && i == Accumulated(i0, s, start, p)
    ensures p' == p + 1 && AllDigits(s, start, p') && i' == Accumulated(i0, s, start, p')
    ensures DigitEnd(s, p') == DigitEnd(s, p)
  {
    TenPowers(1);
    assert Dec(s, p, p + 1) == s[p] - 48;
    AccumulateMore(i0, s, start, p, p + 1, 10);
    i' := (i * 10 + (s[p] - 48)) % W64;
    p' := p + 1;
  }
}
