/** 32-bit arithmetic on natural numbers, as the hash of the sharded map uses it. */
module Bits {
  import Division

  const TWO32 := 0x1_0000_0000

  function And(a: nat, b: nat): nat {
    if a == 0 || b == 0 then 0 else 2 * And(a / 2, b / 2) + (if a % 2 == 1 && b % 2 == 1 then 1 else 0)
  }

  function Xor(a: nat, b: nat): nat
    decreases a + b
  {
    if a == 0 then b else if b == 0 then a
    else 2 * Xor(a / 2, b / 2) + (if a % 2 != b % 2 then 1 else 0)
  }

  /** `Math.imul`, as an unsigned number. */
  function Imul(a: nat, b: nat): nat { a * b % TWO32 }

  const TWO31 := 0x8000_0000

  /** A number read as a signed 32-bit integer. */
  function ToInt32(x: nat): int {
    var m := x % TWO32; if m < TWO31 then m else m - TWO32
  }

  /** The `&` operator: both sides are cut to 32 bits, the result is signed. */
  function And32(a: nat, b: nat): int { ToInt32(And(a % TWO32, b % TWO32)) }

  /** The test `(n & (n - 1)) === 0`. */
  predicate PowerTest(n: nat)
    requires n > 0
  {
    And32(n, n - 1) == 0
  }

  predicate IsPowerOfTwo(n: nat)
    requires n > 0
  {
    And(n, n - 1) == 0
  }

  lemma {:induction false} AndSelf(n: nat)
    ensures And(n, n) == n
  {
    if n == 0 {
    } else {
      AndSelf(n / 2);
    }
  }

  /** The test finds exactly 1 and the doubles of what it finds. */
  lemma {:induction false} PowerOfTwoHalves(n: nat)
    requires n > 1
    ensures IsPowerOfTwo(n) <==> n % 2 == 0 && IsPowerOfTwo(n / 2)
  {
    if n % 2 == 1 {
      AndSelf(n / 2);
      assert (n - 1) / 2 == n / 2;
    } else {
      assert (n - 1) / 2 == n / 2 - 1;
    }
  }

  /** For a power of two the mask is the remainder. */
  lemma {:induction false} MaskIsMod(h: nat, n: nat)
    requires n > 0 && IsPowerOfTwo(n)
    ensures And(h, n - 1) == h % n
    decreases n
  {
    if n == 1 {
    } else {
      PowerOfTwoHalves(n);
      var m := n / 2;
      MaskIsMod(h / 2, m);
      assert (n - 1) / 2 == m - 1 && (n - 1) % 2 == 1;
      DoubleMod(h, m);
    }
  }

  lemma {:induction false} AndBelow(a: nat, b: nat)
    ensures And(a, b) <= b
  {
    if a == 0 || b == 0 {
    } else {
      AndBelow(a / 2, b / 2);
    }
  }

  /** Below twice a power of two there is no larger power of two. */
  lemma {:induction false} NoPowerBetween(n: nat, p: nat)
    requires n > 0 && p > 0 && IsPowerOfTwo(n) && IsPowerOfTwo(p) && n < 2 * p
    ensures n <= p
  {
    if n == 1 {
    } else {
      PowerOfTwoHalves(n);
      PowerOfTwoHalves(p);
      NoPowerBetween(n / 2, p / 2);
    }
  }

  function Pow2(e: nat): nat { if e == 0 then 1 else 2 * Pow2(e - 1) }

  lemma {:induction false} Pow2IsPower(e: nat)
    ensures Pow2(e) > 0 && IsPowerOfTwo(Pow2(e))
  {
    if e == 0 {
    } else {
      Pow2IsPower(e - 1);
      PowerOfTwoHalves(Pow2(e));
    }
  }

  /** Within 32 bits the test finds the powers of two, and the mask is the remainder: the sign bit is never
      reached, since a power of two that fits is at most 2^31. */
  lemma {:induction false} Mask32IsMod(h: nat, n: nat)
    requires h < TWO32 && 0 < n < TWO32
    ensures PowerTest(n) <==> IsPowerOfTwo(n)
    ensures PowerTest(n) ==> And32(h, n - 1) == h % n
  {
    hide And, ToInt32;
    AndBelow(n, n - 1);
    FitsInt32(And(n, n - 1));
    if IsPowerOfTwo(n) {
      HighBitIsPower();
      NoPowerBetween(n, TWO31);
      MaskIsMod(h, n);
      FitsInt32(h % n);
    }
  }

  lemma {:induction false} FitsInt32(x: nat)
    ensures x < TWO32 ==> (ToInt32(x) == 0 <==> x == 0)
    ensures x < TWO31 ==> ToInt32(x) == x
  {
  }

  lemma {:induction false} HighBitIsPower()
    ensures IsPowerOfTwo(TWO31)
  {
    hide IsPowerOfTwo;
    Pow2IsPower(31);
    assert Pow2(8) == 0x100;
    assert Pow2(16) == 0x1_0000;
    assert Pow2(24) == 0x100_0000;
    assert Pow2(31) == TWO31;
  }

  lemma {:induction false} DoubleMod(h: nat, m: nat)
    requires m > 0
    ensures h % (2 * m) == 2 * (h / 2 % m) + h % 2
  {
    var q, r := h / 2 / m, h / 2 % m;
    assert h / 2 == m * q + r;
    assert h == 2 * (h / 2) + h % 2;
    assert h == (2 * m) * q + (2 * r + h % 2);
    Division.ModUnique(h, 2 * m, q, 2 * r + h % 2);
  }

  lemma {:induction false} XorZero(a: nat)
    ensures Xor(a, 0) == a == Xor(0, a)
  {
  }

  lemma {:induction false} XorBit(a: nat, b: nat, c: nat, d: nat)
    requires c < 2 && d < 2
    ensures Xor(2 * a + c, 2 * b + d) == 2 * Xor(a, b) + (if c == d then 0 else 1)
  {
    XorZero(a);
    XorZero(b);
    assert (2 * a + c) / 2 == a && (2 * b + d) / 2 == b;
  }

  lemma {:induction false} XorPair(a: nat, b: nat, c: nat, d: nat)
    requires c < 4 && d < 4
    ensures Xor(4 * a + c, 4 * b + d) == 4 * Xor(a, b) + Xor(c, d)
    ensures Xor(c, d) == (if c / 2 == d / 2 then 0 else 2) + (if c % 2 == d % 2 then 0 else 1)
  {
    hide Xor;
    XorBit(2 * a + c / 2, 2 * b + d / 2, c % 2, d % 2);
    XorBit(a, b, c / 2, d / 2);
    XorBit(c / 2, d / 2, c % 2, d % 2);
    XorBit(0, 0, c / 2, d / 2);
    XorZero(0);
  }

  /** Hexadecimal digits are combined one by one, each bit by bit. */
  lemma {:induction false} XorDigit(a: nat, b: nat, c: nat, d: nat)
    requires c < 16 && d < 16
    ensures Xor(16 * a + c, 16 * b + d) == 16 * Xor(a, b) + Xor(c, d)
  {
    hide Xor;
    XorPair(4 * a + c / 4, 4 * b + d / 4, c % 4, d % 4);
    XorPair(a, b, c / 4, d / 4);
    XorPair(c / 4, d / 4, c % 4, d % 4);
  }
}
