/** The bits of numbers: what `x & m` and `x & ~m` are, and when a mask rounds down. */
module Masks {
  import opened Arith

  /** Binary digit `k`. */
  function Digit(x: nat, k: nat): nat {
    if k == 0 then x % 2 else Digit(x / 2, k - 1)
  }

  /** `x & m`. */
  function Common(x: nat, m: nat): (r: nat)
    ensures r <= x && r <= m
  {
    if x == 0 then 0 else 2 * Common(x / 2, m / 2) + if x % 2 == 1 && m % 2 == 1 then 1 else 0
  }

  /** `x & ~m`. */
  function WithoutBits(x: nat, m: nat): (r: nat)
    ensures r <= x
  {
    if x == 0 then 0 else 2 * WithoutBits(x / 2, m / 2) + if x % 2 == 1 && m % 2 == 0 then 1 else 0
  }

  lemma {:induction false} ZeroDigit(k: nat)
    ensures Digit(0, k) == 0
  {
    if k == 0 {
    } else {
      ZeroDigit(k - 1);
    }
  }

  /** Both operations work digit by digit. */
  lemma {:induction false} MaskedDigits(x: nat, m: nat, k: nat)
    ensures Digit(Common(x, m), k) == if Digit(m, k) == 1 then Digit(x, k) else 0
    ensures Digit(WithoutBits(x, m), k) == if Digit(m, k) == 1 then 0 else Digit(x, k)
  {
    ZeroDigit(k);
    if k == 0 {
    } else {
      MaskedDigits(x / 2, m / 2, k - 1);
    }
  }

  /** Every digit of `x` is in one of the two. */
  lemma {:induction false} MaskSplits(x: nat, m: nat)
    ensures Common(x, m) + WithoutBits(x, m) == x
  {
    if x == 0 {
    } else {
      MaskSplits(x / 2, m / 2);
    }
  }

  lemma {:induction false} NothingLeft(x: nat, m: nat)
    ensures Common(WithoutBits(x, m), m) == 0
  {
    if x == 0 {
    } else {
      NothingLeft(x / 2, m / 2);
      var r := WithoutBits(x / 2, m / 2);
      assert WithoutBits(x, m) / 2 == r;
    }
  }

  // ----- powers of two -----

  predicate IsPowerOfTwo(a: nat) {
    a == 1 || (a > 1 && a % 2 == 0 && IsPowerOfTwo(a / 2))
  }

  /** `x` rounded down to a multiple of `a`. */
  function RoundDown(x: nat, a: nat): (r: nat)
    requires a > 0
    ensures r <= x < r + a
  {
    x - x % a
  }

  lemma RoundDownAligned(x: nat, a: nat)
    requires a > 0
    ensures RoundDown(x, a) % a == 0
  {
    UniqueQuotient(RoundDown(x, a), a, x / a, 0);
  }

  lemma RoundDownTimes(x: nat, a: nat)
    requires a > 0
    ensures RoundDown(x, a) == x / a * a
  {
  }

  /** Halving both numbers halves the result. */
  lemma HalvedRoundDown(x: nat, a: nat)
    requires a > 0
    ensures RoundDown(x, 2 * a) == 2 * RoundDown(x / 2, a)
  {
    var y := x / 2;
    assert x == y / a * (2 * a) + (2 * (y % a) + x % 2) by {
      assert y == y / a * a + y % a;
    }
    UniqueQuotient(x, 2 * a, y / a, 2 * (y % a) + x % 2);
  }

  /** For a power of two the mask rounds down. */
  lemma {:induction false} MaskRounds(x: nat, a: nat)
    requires IsPowerOfTwo(a)
    ensures WithoutBits(x, a - 1) == RoundDown(x, a)
    decreases a
  {
    if a == 1 {
      MaskNothing(x);
    } else {
      MaskRounds(x / 2, a / 2);
      HalvedRoundDown(x, a / 2);
    }
  }

  lemma {:induction false} MaskNothing(x: nat)
    ensures WithoutBits(x, 0) == x
  {
    if x == 0 {
    } else {
      MaskNothing(x / 2);
    }
  }

  function PowerOf(k: nat): (r: nat)
    ensures r > 0
  {
    if k == 0 then 1 else 2 * PowerOf(k - 1)
  }

  /** With all digits set, the mask subtracts. */
  lemma {:induction false} MaskAllOnes(k: nat, m: nat)
    requires m < PowerOf(k)
    ensures WithoutBits(PowerOf(k) - 1, m) == PowerOf(k) - 1 - m
  {
    if k == 0 {
    } else {
      MaskAllOnes(k - 1, m / 2);
      assert (PowerOf(k) - 1) / 2 == PowerOf(k - 1) - 1;
    }
  }

  lemma EightDoublings(k: nat)
    ensures PowerOf(k + 8) == 0x100 * PowerOf(k)
  {
    assert PowerOf(k + 2) == 2 * PowerOf(k + 1) == 4 * PowerOf(k);
    assert PowerOf(k + 4) == 2 * PowerOf(k + 3) == 4 * PowerOf(k + 2);
    assert PowerOf(k + 6) == 2 * PowerOf(k + 5) == 4 * PowerOf(k + 4);
    assert PowerOf(k + 8) == 2 * PowerOf(k + 7) == 4 * PowerOf(k + 6);
  }

  lemma WordPower()
    ensures PowerOf(32) == 0x1_0000_0000
  {
    assert PowerOf(0) == 1;
    EightDoublings(0);
    EightDoublings(8);
    EightDoublings(16);
    EightDoublings(24);
  }

  lemma TimesDouble(q: nat, b: nat)
    ensures Times(q, 2 * b) == 2 * Times(q, b) && Times(2 * q, b) == 2 * Times(q, b)
  {
  }

  lemma TimesOdd(h: nat, b: nat)
    ensures Times(2 * h + 1, 2 * b + 1) % 2 == 1
  {
    assert Times(2 * h + 1, 2 * b + 1) == 2 * (2 * (h * b) + h + b) + 1;
  }

  lemma TimesOne(q: nat, a: nat)
    requires Times(q, a) == 1
    ensures a == 1
  {
  }

  /** Only powers of two divide a power of two. */
  lemma {:induction false} DividesPower(a: nat, k: nat, q: nat)
    requires a > 0 && PowerOf(k) == Times(q, a)
    ensures IsPowerOfTwo(a)
    decreases k
  {
    hide Times;
    if k == 0 {
      TimesOne(q, a);
    } else if a % 2 == 0 {
      TimesDouble(q, a / 2);
      DividesPower(a / 2, k - 1, q);
    } else {
      TimesOdd(q / 2, a / 2);
      assert PowerOf(k) % 2 == 0;
      TimesDouble(q / 2, a);
      DividesPower(a, k - 1, q / 2);
    }
  }

  /** For any other alignment the mask of `a - 1` misses the multiples of `a` at the largest word. */
  lemma MaskMisses(a: nat)
    requires 0 < a < 0x1_0000_0000 && !IsPowerOfTwo(a)
    ensures WithoutBits(0xFFFF_FFFF, a - 1) % a != 0
  {
    WordPower();
    MaskAllOnes(32, a - 1);
    LeftOver(a);
  }

  lemma LeftOver(a: nat)
    requires 0 < a < 0x1_0000_0000 && PowerOf(32) == 0x1_0000_0000
    ensures (0x1_0000_0000 - a) % a == 0 ==> IsPowerOfTwo(a)
  {
    hide IsPowerOfTwo, PowerOf;
    var x := 0x1_0000_0000 - a;
    if x % a == 0 {
      Divided(x, a);
      assert Rem(x, a) == 0;
      TimesNext(Quot(x, a), a);
      DividesPower(a, 32, Quot(x, a) + 1);
    }
  }

  lemma {:induction false} CommonSelf(x: nat)
    ensures Common(x, x) == x
  {
    if x == 0 {
    } else {
      CommonSelf(x / 2);
    }
  }

  /** Only a power of two has no digit in common with the number below it. */
  lemma {:induction false} ApartFromPredecessor(a: nat)
    requires a > 0 && Common(a, a - 1) == 0
    ensures IsPowerOfTwo(a)
  {
    if a % 2 == 1 {
      CommonSelf(a / 2);
    } else {
      assert (a - 1) / 2 == a / 2 - 1;
      ApartFromPredecessor(a / 2);
    }
  }
}
