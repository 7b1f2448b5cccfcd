/**
 kroundup32: rounding a requested bucket count up to a power of two by smearing
 the highest set bit to the right. The words are numbers below 2^32 here, and the
 bitwise operators are defined on their binary digits.
 */
module RoundUp {
  import opened Probing

  const WORD: nat := 0x1_0000_0000

  /** Bitwise or. */
  function Or(x: nat, y: nat): nat
  {
    if x == 0 then y
    else if y == 0 then x
    else 2 * Or(x / 2, y / 2) + (if x % 2 == 1 || y % 2 == 1 then 1 else 0)
  }

  /** Right shift by s bits. */
  function Shr(x: nat, s: nat): nat
  {
    if s == 0 then x else Shr(x / 2, s - 1)
  }

  function SmearStep(x: nat, s: nat): nat
  {
    Or(x, Shr(x, s))
  }

  function SmearAll(x: nat): nat
  {
    SmearStep(SmearStep(SmearStep(SmearStep(SmearStep(x, 1), 2), 4), 8), 16)
  }

  /** The macro: decrement, smear, increment, all on 32-bit words. */
  function KRoundUp32(x: nat): nat
    requires x < WORD
  {
    (SmearAll((x + WORD - 1) % WORD) + 1) % WORD
  }

  /** x has k binary digits, and the topmost digits down to position low are all 1. */
  ghost predicate TopOnes(x: nat, k: nat, low: nat)
  {
    low <= k && Exp2(k) - Exp2(low) <= x < Exp2(k)
  }

  function Minus(a: nat, b: nat): nat
  {
    if a >= b then a - b else 0
  }

  lemma {:induction false} Exp2Monotone(i: nat, j: nat)
    requires i <= j
    ensures Exp2(i) <= Exp2(j)
  {
    if i < j { Exp2Monotone(i, j - 1); }
  }

  lemma {:induction false} ShrTopOnes(x: nat, k: nat, low: nat, s: nat)
    requires TopOnes(x, k, low) && s <= k
    ensures TopOnes(Shr(x, s), k - s, Minus(low, s))
  {
    if s > 0 {
      ShrTopOnes(x / 2, k - 1, Minus(low, 1), s - 1);
    }
  }

  /** Or-ing a number under the run of ones fills digits in without disturbing the run. */
  lemma {:induction false} OrUnderTopOnes(x: nat, y: nat, k: nat, low: nat)
    requires TopOnes(x, k, low) && y < Exp2(low)
    ensures Exp2(k) - Exp2(low) + y <= Or(x, y) < Exp2(k)
  {
    Exp2Monotone(low, k);
    if low > 0 && x > 0 && y > 0 {
      OrUnderTopOnes(x / 2, y / 2, k - 1, low - 1);
    }
  }

  /** One step of the smear doubles the run of leading ones. */
  lemma SmearDoubles(x: nat, k: nat, low: nat, s: nat)
    requires TopOnes(x, k, low) && low == Minus(k, s)
    ensures TopOnes(SmearStep(x, s), k, Minus(low, s))
  {
    if s <= k {
      ShrTopOnes(x, k, low, s);
      OrUnderTopOnes(x, Shr(x, s), k, low);
    } else {
      assert x == Exp2(k) - 1;
      ShrOut(x, k, s);
    }
  }

  lemma {:induction false} ShrOut(x: nat, k: nat, s: nat)
    requires x < Exp2(k) && k <= s
    ensures Shr(x, s) == 0
  {
    if k > 0 {
      ShrOut(x / 2, k - 1, s - 1);
    } else if s > 0 {
      ShrOut(0, 0, s - 1);
    }
  }

  lemma {:induction false} Digits(x: nat) returns (k: nat)
    requires 0 < x
    ensures k > 0 && Exp2(k - 1) <= x < Exp2(k)
  {
    if x == 1 {
      k := 1;
    } else {
      k := Digits(x / 2);
      k := k + 1;
    }
  }

  lemma Exp2Word()
    ensures Exp2(31) == 0x8000_0000 && Exp2(32) == WORD
  {
    assert Exp2(8) == 0x100;
    assert Exp2(16) == 0x1_0000;
    assert Exp2(24) == 0x100_0000;
  }

  /** The five steps turn a number of k digits into k ones. */
  lemma SmearFills(x: nat, k: nat)
    requires 0 < k <= 32 && Exp2(k - 1) <= x < Exp2(k)
    ensures SmearAll(x) == Exp2(k) - 1
  {
    assert TopOnes(x, k, Minus(k, 1));
    SmearDoubles(x, k, Minus(k, 1), 1);
    var b := SmearStep(x, 1);
    SmearDoubles(b, k, Minus(k, 2), 2);
    var c := SmearStep(b, 2);
    SmearDoubles(c, k, Minus(k, 4), 4);
    var d := SmearStep(c, 4);
    SmearDoubles(d, k, Minus(k, 8), 8);
    SmearDoubles(SmearStep(d, 8), k, Minus(k, 16), 16);
  }

  lemma SmearZero()
    ensures SmearAll(0) == 0
  {
    ShrOut(0, 0, 1);
    ShrOut(0, 0, 2);
    ShrOut(0, 0, 4);
    ShrOut(0, 0, 8);
    ShrOut(0, 0, 16);
  }

  lemma Exp2InWord(k: nat)
    requires k <= 32
    ensures Exp2(k) % WORD == if k == 32 then 0 else Exp2(k)
  {
    Exp2Word();
    if k < 32 { Exp2Monotone(k, 31); }
  }

  /** The result in terms of the number of binary digits of x - 1. */
  lemma RoundsToDigits(x: nat, k: nat) returns (r: nat)
    requires 1 < x < WORD && 0 < k <= 32 && Exp2(k - 1) <= x - 1 < Exp2(k)
    ensures KRoundUp32(x) == r && r == if k == 32 then 0 else Exp2(k)
  {
    hide SmearAll, Exp2;
    assert (x + WORD - 1) % WORD == x - 1;
    SmearFills(x - 1, k);
    r := Exp2(k) % WORD;
    Exp2InWord(k);
  }

  lemma RoundsZero()
    ensures KRoundUp32(0) == 0
  {
    Exp2Word();
    assert (0 + WORD - 1) % WORD == WORD - 1;
    SmearFills(WORD - 1, 32);
  }

  lemma RoundsOne()
    ensures KRoundUp32(1) == 1
  {
    assert (1 + WORD - 1) % WORD == 0;
    SmearZero();
  }

  /** Which power of two the digit count of x - 1 leads to. */
  lemma DigitsBound(x: nat, k: nat)
    requires 1 < x < WORD && 0 < k && Exp2(k - 1) <= x - 1 < Exp2(k)
    ensures k <= 32 && x <= Exp2(k) < 2 * x
    ensures if k == 32 then x > 0x8000_0000 else x <= 0x8000_0000 && Exp2(k) < WORD
  {
    Exp2Word();
    if k > 32 { Exp2Monotone(32, k - 1); }
    if k < 32 { Exp2Monotone(k, 31); }
  }

  lemma RoundsLarge(x: nat) returns (r: nat)
    requires 1 < x < WORD
    ensures KRoundUp32(x) == r
    ensures r == 0 <==> x > 0x8000_0000
    ensures x <= 0x8000_0000 ==> IsPow2(r) && x <= r < 2 * x
  {
    var k := Digits(x - 1);
    DigitsBound(x, k);
    r := RoundsToDigits(x, k);
    if k < 32 { assert IsPow2(Exp2(k)); }
  }

  /** What the bit trick computes: the least power of two at or above x, and 0 where 32 bits hold none. */
  lemma RoundsUp(x: nat)
    requires x < WORD
    ensures KRoundUp32(x) == 0 <==> x == 0 || x > 0x8000_0000
    ensures 0 < x <= 0x8000_0000 ==> IsPow2(KRoundUp32(x)) && x <= KRoundUp32(x) < 2 * x
  {
    if x == 0 {
      RoundsZero();
    } else if x == 1 {
      RoundsOne();
      assert Exp2(0) == 1;
    } else {
      var r := RoundsLarge(x);
    }
  }
}
