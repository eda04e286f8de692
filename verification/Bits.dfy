/** The bitwise operators on unsigned integers, defined digit by digit, and what they
    mean: which bits a result has, when a mask is contained, when a mask is a remainder. */
module Bits {

  function Pow2(k: nat): nat {
    if k == 0 then 1 else 2 * Pow2(k - 1)
  }

  /** Whether bit k of x is one. */
  predicate TestBit(x: nat, k: nat) {
    if k == 0 then x % 2 == 1 else TestBit(x / 2, k - 1)
  }

  function BitAnd(a: nat, b: nat): nat {
    if a == 0 || b == 0 then 0
    else (if a % 2 == 1 && b % 2 == 1 then 1 else 0) + 2 * BitAnd(a / 2, b / 2)
  }

  function BitOr(a: nat, b: nat): nat {
    if a == 0 then b else if b == 0 then a
    else (if a % 2 == 1 || b % 2 == 1 then 1 else 0) + 2 * BitOr(a / 2, b / 2)
  }

  /** The complement of x as a number of `width` bits. */
  function BitNot(x: nat, width: nat): nat {
    if width == 0 then 0 else (1 - x % 2) + 2 * BitNot(x / 2, width - 1)
  }

  /** The number of one bits. */
  function CountOnes(x: nat): nat {
    if x == 0 then 0 else x % 2 + CountOnes(x / 2)
  }

  lemma {:induction false} Pow2Positive(k: nat)
    ensures Pow2(k) >= 1
  {
    if k > 0 { Pow2Positive(k - 1); }
  }

  lemma {:induction false} Pow2Monotone(j: nat, k: nat)
    requires j <= k
    ensures Pow2(j) <= Pow2(k)
  {
    if j < k { Pow2Monotone(j, k - 1); }
  }

  lemma {:induction false} ZeroHasNoBits(k: nat)
    ensures !TestBit(0, k)
  {
    if k > 0 { ZeroHasNoBits(k - 1); }
  }

  lemma LastDigit(digit: nat, rest: nat)
    requires digit < 2
    ensures (digit + 2 * rest) % 2 == digit && (digit + 2 * rest) / 2 == rest
  {
  }

  lemma AndDigits(a: nat, b: nat)
    requires a > 0 && b > 0
    ensures BitAnd(a, b) % 2 == 1 <==> a % 2 == 1 && b % 2 == 1
    ensures BitAnd(a, b) / 2 == BitAnd(a / 2, b / 2)
  {
    var digit, rest := if a % 2 == 1 && b % 2 == 1 then 1 else 0, BitAnd(a / 2, b / 2);
    assert BitAnd(a, b) == digit + 2 * rest;
    LastDigit(digit, rest);
  }

  lemma {:induction false} BitOfAnd(a: nat, b: nat, k: nat)
    ensures TestBit(BitAnd(a, b), k) <==> TestBit(a, k) && TestBit(b, k)
  {
    if a == 0 || b == 0 {
      ZeroHasNoBits(k);
    } else {
      AndDigits(a, b);
      if k > 0 { BitOfAnd(a / 2, b / 2, k - 1); }
    }
  }

  lemma OrDigits(a: nat, b: nat)
    requires a > 0 && b > 0
    ensures BitOr(a, b) % 2 == 1 <==> a % 2 == 1 || b % 2 == 1
    ensures BitOr(a, b) / 2 == BitOr(a / 2, b / 2)
  {
    var digit, rest := if a % 2 == 1 || b % 2 == 1 then 1 else 0, BitOr(a / 2, b / 2);
    assert BitOr(a, b) == digit + 2 * rest;
    LastDigit(digit, rest);
  }

  lemma {:induction false} BitOfOr(a: nat, b: nat, k: nat)
    ensures TestBit(BitOr(a, b), k) <==> TestBit(a, k) || TestBit(b, k)
  {
    if a == 0 || b == 0 {
      ZeroHasNoBits(k);
    } else {
      OrDigits(a, b);
      if k > 0 { BitOfOr(a / 2, b / 2, k - 1); }
    }
  }

  /** The last digit of a complement, and the digits before it. */
  lemma NotDigits(x: nat, width: nat)
    requires width > 0
    ensures BitNot(x, width) % 2 == 1 - x % 2
    ensures BitNot(x, width) / 2 == BitNot(x / 2, width - 1)
  {
    var digit, rest := 1 - x % 2, BitNot(x / 2, width - 1);
    assert BitNot(x, width) == digit + 2 * rest;
    LastDigit(digit, rest);
  }

  lemma {:induction false} BitOfNot(x: nat, width: nat, k: nat)
    ensures TestBit(BitNot(x, width), k) <==> k < width && !TestBit(x, k)
  {
    if width == 0 {
      ZeroHasNoBits(k);
    } else {
      NotDigits(x, width);
      if k > 0 { BitOfNot(x / 2, width - 1, k - 1); }
    }
  }

  /** Which bits `(x & !clear) | added` has. */
  lemma BitOfReplacement(x: nat, clear: nat, width: nat, added: nat, k: nat)
    ensures TestBit(BitOr(BitAnd(x, BitNot(clear, width)), added), k) <==>
              (TestBit(x, k) && k < width && !TestBit(clear, k)) || TestBit(added, k)
  {
    BitOfOr(BitAnd(x, BitNot(clear, width)), added, k);
    BitOfAnd(x, BitNot(clear, width), k);
    BitOfNot(clear, width, k);
  }

  lemma {:induction false} BitOfPow2(n: nat, k: nat)
    ensures TestBit(Pow2(n), k) <==> k == n
  {
    if n == 0 {
      if k > 0 { ZeroHasNoBits(k - 1); }
    } else if k > 0 {
      BitOfPow2(n - 1, k - 1);
      assert Pow2(n) / 2 == Pow2(n - 1);
    }
  }

  lemma {:induction false} BitOfLowMask(n: nat, k: nat)
    ensures Pow2(n) >= 1 && (TestBit(Pow2(n) - 1, k) <==> k < n)
  {
    Pow2Positive(n);
    if n == 0 {
      ZeroHasNoBits(k);
    } else if k > 0 {
      BitOfLowMask(n - 1, k - 1);
      assert (Pow2(n) - 1) / 2 == Pow2(n - 1) - 1;
    }
  }

  lemma {:induction false} BoundedNumberBits(x: nat, n: nat, k: nat)
    requires x < Pow2(n) && TestBit(x, k)
    ensures k < n
  {
    if n == 0 {
      ZeroHasNoBits(k);
    } else if k > 0 {
      BoundedNumberBits(x / 2, n - 1, k - 1);
    }
  }

  lemma {:induction false} NonZeroHasABit(x: nat) returns (k: nat)
    requires x > 0
    ensures TestBit(x, k)
  {
    if x % 2 == 1 { k := 0; } else {
      var j := NonZeroHasABit(x / 2);
      k := j + 1;
    }
  }

  lemma {:induction false} SameBitsSameNumber(a: nat, b: nat)
    requires forall k: nat :: TestBit(a, k) == TestBit(b, k)
    ensures a == b
  {
    if a == 0 && b == 0 {
    } else if a == 0 || b == 0 {
      var k := NonZeroHasABit(a + b);
      ZeroHasNoBits(k);
    } else {
      assert TestBit(a, 0) == TestBit(b, 0);
      forall k: nat ensures TestBit(a / 2, k) == TestBit(b / 2, k) {
        assert TestBit(a, k + 1) == TestBit(b, k + 1);
      }
      SameBitsSameNumber(a / 2, b / 2);
    }
  }

  /** Every one bit of b is a one bit of a. */
  ghost predicate Covers(a: nat, b: nat) {
    forall k: nat :: TestBit(b, k) ==> TestBit(a, k)
  }

  /** `a & b == b` says exactly that a covers b. */
  lemma MaskContained(a: nat, b: nat)
    ensures BitAnd(a, b) == b <==> Covers(a, b)
  {
    if BitAnd(a, b) == b {
      forall k: nat | TestBit(b, k) ensures TestBit(a, k) { BitOfAnd(a, b, k); }
    }
    if Covers(a, b) {
      forall k: nat ensures TestBit(BitAnd(a, b), k) == TestBit(b, k) { BitOfAnd(a, b, k); }
      SameBitsSameNumber(BitAnd(a, b), b);
    }
  }

  /** `a & b == 0` says exactly that a and b have no one bit in common. */
  lemma MaskDisjoint(a: nat, b: nat)
    ensures BitAnd(a, b) == 0 <==> forall k: nat :: !(TestBit(a, k) && TestBit(b, k))
  {
    if BitAnd(a, b) == 0 {
      forall k: nat ensures !(TestBit(a, k) && TestBit(b, k)) {
        BitOfAnd(a, b, k);
        ZeroHasNoBits(k);
      }
    } else {
      var k := NonZeroHasABit(BitAnd(a, b));
      BitOfAnd(a, b, k);
    }
  }

  /** Masking with one less than a power of two is taking the remainder. */
  lemma {:induction false} LowMaskIsRemainder(p: nat, k: nat)
    ensures Pow2(k) >= 1 && BitAnd(p, Pow2(k) - 1) == p % Pow2(k)
  {
    Pow2Positive(k);
    if k == 0 {
    } else if p == 0 {
      ZeroRemainder(Pow2(k));
    } else {
      LowMaskIsRemainder(p / 2, k - 1);
      MaskStep(p, Pow2(k - 1));
    }
  }

  lemma MaskStep(p: nat, m: nat)
    requires p > 0 && m > 0 && BitAnd(p / 2, m - 1) == (p / 2) % m
    ensures BitAnd(p, 2 * m - 1) == p % (2 * m)
  {
    AndWithOddMask(p, m);
    RemainderByDouble(p, m);
  }

  lemma ZeroRemainder(d: nat)
    requires d > 0
    ensures 0 % d == 0
  {
  }

  lemma AndWithOddMask(p: nat, m: nat)
    requires p > 0 && m > 0
    ensures BitAnd(p, 2 * m - 1) == p % 2 + 2 * BitAnd(p / 2, m - 1)
  {
  }

  lemma RemainderByDouble(p: nat, m: nat)
    requires m > 0
    ensures p % (2 * m) == p % 2 + 2 * ((p / 2) % m)
  {
    var h, q, r := p / 2, p / 2 / m, p / 2 % m;
    assert h == q * m + r;
    var s := p % 2 + 2 * r;
    assert p == q * (2 * m) + s;
    assert 0 <= s < 2 * m;
    QuotientIsUnique(p, 2 * m, q, s);
  }

  lemma QuotientIsUnique(p: nat, d: nat, q: nat, r: nat)
    requires p == q * d + r && r < d
    ensures p % d == r
  {
    var q', r' := p / d, p % d;
    assert p == q' * d + r';
    var diff := q' - q;
    assert diff * d == r - r' by {
      assert diff * d == q' * d - q * d;
    }
    SmallMultipleIsZero(diff, d);
  }

  lemma SmallMultipleIsZero(x: int, d: int)
    requires -d < x * d < d
    ensures x == 0
  {
  }

  /** A number with exactly one one bit is a power of two, and conversely. */
  lemma {:induction false} OneBitIsPow2(x: nat) returns (k: nat)
    requires CountOnes(x) == 1
    ensures x == Pow2(k)
  {
    if x % 2 == 1 {
      NoBitsIsZero(x / 2);
      k := 0;
    } else {
      var j := OneBitIsPow2(x / 2);
      k := j + 1;
    }
  }

  lemma {:induction false} Pow2HasOneBit(k: nat)
    ensures CountOnes(Pow2(k)) == 1
  {
    if k > 0 {
      Pow2HasOneBit(k - 1);
      Pow2Positive(k - 1);
      assert Pow2(k) / 2 == Pow2(k - 1);
    }
  }

  lemma {:induction false} NoBitsIsZero(x: nat)
    requires CountOnes(x) == 0
    ensures x == 0
  {
    if x > 0 { NoBitsIsZero(x / 2); }
  }

  lemma {:induction false} AndIsSmaller(a: nat, b: nat)
    ensures BitAnd(a, b) <= a && BitAnd(a, b) <= b
  {
    if a > 0 && b > 0 { AndIsSmaller(a / 2, b / 2); }
  }

  lemma {:induction false} OrFits(a: nat, b: nat, n: nat)
    requires a < Pow2(n) && b < Pow2(n)
    ensures BitOr(a, b) < Pow2(n)
  {
    if a > 0 && b > 0 && n > 0 { OrFits(a / 2, b / 2, n - 1); }
  }

  /** `a & 2^k == 2^k` says exactly that bit k of a is one. */
  lemma OneBitMask(a: nat, k: nat)
    ensures BitAnd(a, Pow2(k)) == Pow2(k) <==> TestBit(a, k)
    ensures BitAnd(a, Pow2(k)) != 0 <==> TestBit(a, k)
  {
  }

  /** No bit past the first n: a reserved-bits check accepts exactly the numbers below 2^n. */
  lemma ReservedBitsMask(x: nat, n: nat, width: nat)
    requires x < Pow2(width)
    ensures Pow2(n) >= 1
    ensures BitAnd(x, BitNot(Pow2(n) - 1, width)) == 0 <==> x < Pow2(n)
  {
    Pow2Positive(n);
    var low := Pow2(n) - 1;
    var mask := BitNot(low, width);
    MaskDisjoint(x, mask);
    forall k: nat ensures TestBit(mask, k) <==> n <= k < width {
      BitOfNot(low, width, k);
      BitOfLowMask(n, k);
    }
    if x < Pow2(n) {
      forall k: nat ensures !(TestBit(x, k) && TestBit(mask, k)) {
        if TestBit(x, k) { BoundedNumberBits(x, n, k); }
      }
    }
    if BitAnd(x, mask) == 0 {
      forall k: nat | TestBit(x, k) ensures TestBit(low, k) {
        BoundedNumberBits(x, width, k);
        BitOfLowMask(n, k);
        assert !(TestBit(x, k) && TestBit(mask, k));
      }
      MaskContained(low, x);
      AndIsSmaller(low, x);
    }
  }

  lemma Pow2Values()
    ensures Pow2(1) == 2 && Pow2(3) == 8 && Pow2(5) == 32 && Pow2(6) == 64 && Pow2(15) == 0x8000
    ensures Pow2(32) == 0x1_0000_0000 && Pow2(64) == 0x1_0000_0000_0000_0000
  {
    assert Pow2(4) == 16;
    assert Pow2(8) == 256;
    assert Pow2(12) == 4096;
    assert Pow2(16) == 0x1_0000;
    assert Pow2(20) == 0x10_0000;
    assert Pow2(24) == 0x100_0000;
    assert Pow2(28) == 0x1000_0000;
    assert Pow2(36) == 0x10_0000_0000;
    assert Pow2(40) == 0x100_0000_0000;
    assert Pow2(44) == 0x1000_0000_0000;
    assert Pow2(48) == 0x1_0000_0000_0000;
    assert Pow2(52) == 0x10_0000_0000_0000;
    assert Pow2(56) == 0x100_0000_0000_0000;
    assert Pow2(60) == 0x1000_0000_0000_0000;
  }
}
