/** The powers of five that ffc.h tabulates. */
module Fives {
  import opened Powers
  import opened Words
  import opened Limbs

  /** pow5_tables_small_powers: 5^0 to 5^27, all below 2^64. */
  const SMALL_POWERS: seq<U64> := [
    1, 5, 25, 125, 625, 3125, 15625, 78125, 390625, 1953125, 9765625, 48828125, 244140625, 1220703125,
    6103515625, 30517578125, 152587890625, 762939453125, 3814697265625, 19073486328125, 95367431640625,
    476837158203125, 2384185791015625, 11920928955078125, 59604644775390625, 298023223876953125,
    1490116119384765625, 7450580596923828125]

  const LARGE_STEP: nat := 135
  const SMALL_STEP: nat := 27
  const MAX_NATIVE: U64 := 7450580596923828125

  /** ffc_large_power_of_5: 5^135 in five limbs. */
  const LARGE_POWER: seq<U64> := [
    1414648277510068013, 9180637584431281687, 4539964771860779200, 10482974169319127550, 198276706040285095]

  /** Every table entry is the power its index names. */
  lemma {:induction false} SmallPowerValue(e: nat)
    requires e < |SMALL_POWERS|
    ensures SMALL_POWERS[e] == Scale(1, Five, e)
  {
    if e > 0 {
      SmallPowerValue(e - 1);
      SmallPowerStep(e);
    }
  }

  lemma SmallPowerStep(e: nat)
    requires 0 < e < |SMALL_POWERS|
    ensures SMALL_POWERS[e] == 5 * SMALL_POWERS[e - 1]
  {
    assert |SMALL_POWERS| == 28;
    if e <= 14 {
      assert e in {1, 2, 3, 4, 5, 6, 7, 8, 9, 10, 11, 12, 13, 14};
    } else {
      assert e in {15, 16, 17, 18, 19, 20, 21, 22, 23, 24, 25, 26, 27};
    }
  }

  /** 27 factors of five, as one multiplication by a limb. */
  lemma SmallStepValue(x: nat, n: nat)
    requires n == SMALL_STEP
    ensures Scale(x, Five, n) == 7450580596923828125 * x
  {
    SmallPowerValue(27);
    ScaleMul(x, 1, Five, n);
  }

  lemma NextSmallStep(x: nat, k: nat)
    ensures Scale(x, Five, k + SMALL_STEP) == 7450580596923828125 * Scale(x, Five, k)
  {
    ScaleCompose(x, Five, k, SMALL_STEP);
    SmallStepValue(Scale(x, Five, k), SMALL_STEP);
  }

  /** 135 factors of five, as one multiplication by a five-limb number. */
  lemma LargeStepValue(x: nat)
    ensures Scale(x, Five, LARGE_STEP) == x * Val(LARGE_POWER)
  {
    var k1 := SMALL_STEP;
    var k2 := k1 + SMALL_STEP;
    var k3 := k2 + SMALL_STEP;
    var k4 := k3 + SMALL_STEP;
    SmallStepValue(x, k1);
    NextSmallStep(x, k1);
    NextSmallStep(x, k2);
    NextSmallStep(x, k3);
    NextSmallStep(x, k4);
    LargePowerValue();
    FiveFactors(x, Scale(x, Five, k1), Scale(x, Five, k2), Scale(x, Five, k3), Scale(x, Five, k4), Scale(x, Five, k4 + SMALL_STEP), Val(LARGE_POWER));
  }

  lemma FiveFactors(x: nat, a: nat, b: nat, c: nat, d: nat, e: nat, p: nat)
    requires a == 7450580596923828125 * x && b == 7450580596923828125 * a && c == 7450580596923828125 * b
    requires d == 7450580596923828125 * c && e == 7450580596923828125 * d
    requires p == 7450580596923828125 * (7450580596923828125 * (7450580596923828125 * (7450580596923828125 * 7450580596923828125)))
    ensures e == x * p
  {
  }

  lemma LargePowerValue()
    ensures Val(LARGE_POWER) == 7450580596923828125 * (7450580596923828125 * (7450580596923828125 * (7450580596923828125 * 7450580596923828125)))
  {
    var l := LARGE_POWER;
    assert l[1..] == [9180637584431281687, 4539964771860779200, 10482974169319127550, 198276706040285095];
    assert l[1..][1..] == [4539964771860779200, 10482974169319127550, 198276706040285095];
    assert l[1..][1..][1..] == [10482974169319127550, 198276706040285095];
    assert l[1..][1..][1..][1..] == [198276706040285095];
    assert Val(l[1..][1..][1..][1..]) == 198276706040285095;
  }
}
