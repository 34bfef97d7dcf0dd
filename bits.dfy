/**
 * Two's-complement bit operations on mathematical integers, as Java's `&`
 * and `|` see them. Dafny's `/` and `%` by 2 floor toward minus infinity,
 * which is exactly an arithmetic shift right and the lowest bit of the
 * two's-complement pattern, so the recursive definitions below agree with
 * Java on negative operands as well.
 */
module Bits {

  /** 2 to the power k. */
  function Pow2(k: nat): (r: nat)
    ensures r >= 1
  {
    if k == 0 then 1 else 2 * Pow2(k - 1)
  }

  /** 2^24, the size of the RGB colour space. */
  lemma Pow2At24()
    ensures Pow2(24) == 0x100_0000
  {
    assert Pow2(8) == 0x100;
    assert Pow2(16) == 0x1_0000;
  }

  /** 2^63, the bound of a non-negative Java long. */
  lemma Pow2At63()
    ensures Pow2(63) == 0x8000_0000_0000_0000
  {
    assert Pow2(7) == 0x80 && Pow2(8) == 0x100;
    Pow2Add(8, 8);
    Pow2Add(16, 16);
    Pow2Add(32, 16);
    Pow2Add(48, 8);
    Pow2Add(56, 7);
  }

  /** Powers of two multiply by adding exponents. */
  lemma {:induction false} Pow2Add(i: nat, j: nat)
    ensures Pow2(i + j) == Pow2(i) * Pow2(j)
    decreases i
  {
    if i > 0 {
      Pow2Add(i - 1, j);
    }
  }

  /** Bit k of the two's-complement pattern of a. */
  function TestBit(a: int, k: nat): bool
    decreases k
  {
    if k == 0 then a % 2 == 1 else TestBit(a / 2, k - 1)
  }

  /**
   * Java's `a & b` when `b` is not negative (the sign bit of b is clear, so
   * the result is not negative either). Defined bit by bit from the low end.
   */
  function BitAnd(a: int, b: nat): (r: nat)
    ensures r <= b
    decreases b
  {
    if b == 0 then 0 else 2 * BitAnd(a / 2, b / 2) + (a % 2) * (b % 2)
  }

  /** Java's `a | b` on non-negative operands. */
  function BitOr(a: nat, b: nat): (r: nat)
    decreases a + b
  {
    if a == 0 then b
    else if b == 0 then a
    else 2 * BitOr(a / 2, b / 2) + (if a % 2 == 1 || b % 2 == 1 then 1 else 0)
  }

  /** The bits of `a & b` are the bits both operands have. */
  lemma {:induction false} TestBitAnd(a: int, b: nat, k: nat)
    ensures TestBit(BitAnd(a, b), k) <==> TestBit(a, k) && TestBit(b, k)
    decreases b
  {
    if b == 0 {
      TestBitZero(k);
    } else if k > 0 {
      TestBitAnd(a / 2, b / 2, k - 1);
    }
  }

  /** The bits of `a | b` are the bits either operand has. */
  lemma {:induction false} TestBitOr(a: nat, b: nat, k: nat)
    ensures TestBit(BitOr(a, b), k) <==> TestBit(a, k) || TestBit(b, k)
    decreases a + b
  {
    if a == 0 {
      TestBitZero(k);
    } else if b == 0 {
      TestBitZero(k);
    } else if k > 0 {
      TestBitOr(a / 2, b / 2, k - 1);
    }
  }

  /** Zero has no bit set. */
  lemma {:induction false} TestBitZero(k: nat)
    ensures !TestBit(0, k)
  {
    if k > 0 {
      TestBitZero(k - 1);
    }
  }

  /** 2^o has exactly bit o set. */
  lemma {:induction false} TestBitPow2(o: nat, k: nat)
    ensures TestBit(Pow2(o), k) <==> o == k
  {
    if o == 0 {
      if k > 0 {
        TestBitZero(k - 1);
      }
    } else if k == 0 {
    } else {
      TestBitPow2(o - 1, k - 1);
    }
  }

  /**
   * Masking with 2^k - 1 keeps the k low bits: `a & (2^k - 1)` is the
   * remainder of a modulo 2^k, for negative a as well.
   */
  lemma {:induction false} BitAndLowMask(a: int, k: nat)
    ensures BitAnd(a, Pow2(k) - 1) == a % Pow2(k)
    decreases k
  {
    if k > 0 {
      var p := Pow2(k - 1);
      BitAndLowMask(a / 2, k - 1);
      BitAndOddMask(a, p);
      ModDouble(a, p);
    }
  }

  /** One step of `a & (2p - 1)`: the low bit of a, then `(a / 2) & (p - 1)` above it. */
  lemma BitAndOddMask(a: int, p: nat)
    requires p > 0
    ensures BitAnd(a, 2 * p - 1) == 2 * BitAnd(a / 2, p - 1) + a % 2
  {
    assert (2 * p - 1) / 2 == p - 1 && (2 * p - 1) % 2 == 1;
  }

  /** The remainder modulo 2p, from the remainder of the halved value modulo p. */
  lemma ModDouble(a: int, p: int)
    requires p > 0
    ensures a % (2 * p) == 2 * ((a / 2) % p) + a % 2
  {
    var q, s := (a / 2) / p, (a / 2) % p;
    assert a / 2 == p * q + s;
    assert a == (2 * p) * q + (2 * s + a % 2);
    DivModUnique(a, 2 * p, q, 2 * s + a % 2);
  }

  /** The remainder is determined by any decomposition with a remainder in range. */
  lemma DivModUnique(a: int, d: int, q: int, r: int)
    requires d > 0 && a == d * q + r && 0 <= r < d
    ensures a % d == r
  {
    var q', r' := a / d, a % d;
    assert a == d * q' + r';
    assert d * (q - q') == r' - r by {
      assert d * (q - q') == d * q - d * q';
    }
    if q - q' >= 1 {
      MulAtLeast(d, q - q');
    } else if q' - q >= 1 {
      MulAtLeast(d, q' - q);
    }
  }

  /** A positive multiple of d is at least d. */
  lemma MulAtLeast(d: int, t: int)
    requires d > 0 && t >= 1
    ensures d * t >= d
  {
    assert d * t == d * (t - 1) + d;
  }

  /**
   * A non-negative number whose set bits are all set in b is at most b:
   * bit inclusion implies the numeric order (not the converse).
   */
  lemma {:induction false} BitsIncludedLe(a: nat, b: nat)
    requires forall k: nat :: TestBit(a, k) ==> TestBit(b, k)
    ensures a <= b
    decreases a
  {
    if a > 0 {
      assert TestBit(a, 0) ==> TestBit(b, 0);
      forall k: nat ensures TestBit(a / 2, k) ==> TestBit(b / 2, k) {
        assert TestBit(a, k + 1) == TestBit(a / 2, k);
        assert TestBit(b, k + 1) == TestBit(b / 2, k);
      }
      BitsIncludedLe(a / 2, b / 2);
    }
  }

  /** `a | b` stays below 2^n when both operands do. */
  lemma {:induction false} BitOrBelow(a: nat, b: nat, n: nat)
    requires a < Pow2(n) && b < Pow2(n)
    ensures BitOr(a, b) < Pow2(n)
    decreases a + b
  {
    if a != 0 && b != 0 {
      assert n > 0;
      BitOrBelow(a / 2, b / 2, n - 1);
    }
  }

  /** 2^i is below 2^n when i is below n. */
  lemma {:induction false} Pow2Below(i: nat, n: nat)
    requires i < n
    ensures Pow2(i) < Pow2(n)
  {
    if i + 1 < n {
      Pow2Below(i, n - 1);
    }
  }
}
