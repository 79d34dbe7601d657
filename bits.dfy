/**
 * Unsigned machine words as natural numbers: powers of two and the bitwise
 * AND, which the hash map uses to mask a hash into a bucket index and the
 * allocator uses to align positions.
 */
module Bits {
  /** 2^64: one more than the largest `u64`/`usize` value. */
  const WordLimit: nat := 0x1_0000_0000_0000_0000

  /** A `u64` value. */
  type U64 = x: int | 0 <= x < WordLimit

  function Pow2(k: nat): (r: nat)
    ensures r >= 1
  {
    if k == 0 then 1 else 2 * Pow2(k - 1)
  }

  /** `n` is a power of two: halving it reaches 1 through even numbers only. */
  predicate IsPow2(n: nat)
    decreases n
  {
    n == 1 || (n >= 2 && n % 2 == 0 && IsPow2(n / 2))
  }

  lemma {:induction false} Pow2IsPow2(k: nat)
    ensures IsPow2(Pow2(k))
  {
    if k > 0 {
      Pow2IsPow2(k - 1);
      assert Pow2(k) / 2 == Pow2(k - 1);
    }
  }

  lemma {:induction false} DoublePow2(n: nat)
    requires IsPow2(n)
    ensures IsPow2(2 * n)
  {
    assert (2 * n) / 2 == n;
  }

  lemma MulMonotone(n: nat, d: int)
    requires d >= 1
    ensures n * d >= n
  {
    var e := d - 1;
    assert n * d == n * e + n;
  }

  /** Quotient and remainder are unique. */
  lemma ModUnique(x: nat, n: nat, q: int, r: int)
    requires 0 <= r < n && x == q * n + r
    ensures x % n == r && x / n == q
  {
    var d := x / n - q;
    assert n * d == r - x % n;
    if d >= 1 {
      MulMonotone(n, d);
    } else if d <= -1 {
      MulMonotone(n, -d);
    }
  }

  /** Exponents add under multiplication. */
  lemma {:induction false} Pow2Add(a: nat, b: nat)
    ensures Pow2(a + b) == Pow2(a) * Pow2(b)
    decreases b
  {
    if b > 0 {
      Pow2Add(a, b - 1);
      assert Pow2(a + b) == 2 * Pow2(a + b - 1);
    }
  }

  /** Exponent addition with the powers given as literals. */
  lemma Pow2Sum(a: nat, b: nat, pa: nat, pb: nat)
    requires Pow2(a) == pa && Pow2(b) == pb
    ensures Pow2(a + b) == pa * pb
  {
    Pow2Add(a, b);
  }

  /** The word limit is 2^64. */
  lemma Pow2Word()
    ensures Pow2(64) == WordLimit
  {
    assert Pow2(4) == 0x10;
    Pow2Sum(4, 4, 0x10, 0x10);
    Pow2Sum(8, 8, 0x100, 0x100);
    Pow2Sum(16, 16, 0x1_0000, 0x1_0000);
    Pow2Sum(32, 32, 0x1_0000_0000, 0x1_0000_0000);
  }

  /** The bitwise AND of two unsigned numbers, bit by bit from the lowest; it never exceeds either operand. */
  function And(x: nat, y: nat): (r: nat)
    ensures r <= x && r <= y
    decreases x
  {
    if x == 0 || y == 0 then 0
    else 2 * And(x / 2, y / 2) + (if x % 2 == 1 && y % 2 == 1 then 1 else 0)
  }

  /** Splitting a remainder modulo an even number into its lowest bit and the rest. */
  lemma ModEven(x: nat, n: nat)
    requires n >= 2 && n % 2 == 0
    ensures x % n == 2 * ((x / 2) % (n / 2)) + x % 2
  {
    var h := n / 2;
    var q, r := (x / 2) / h, (x / 2) % h;
    assert x / 2 == q * h + r;
    assert x == 2 * (x / 2) + x % 2;
    assert 2 * (q * h) == q * n;
    ModUnique(x, n, q, 2 * r + x % 2);
  }

  /** Masking with `n - 1`, for a power of two `n`, keeps the remainder modulo `n`. */
  lemma {:induction false} AndLowMask(x: nat, n: nat)
    requires IsPow2(n)
    ensures And(x, n - 1) == x % n
    decreases n
  {
    if n > 1 && x != 0 {
      AndLowMask(x / 2, n / 2);
      ModEven(x, n);
      assert (n - 1) / 2 == n / 2 - 1 && (n - 1) % 2 == 1;
      if n == 2 {
        assert And(x / 2, 0) == 0;
      }
    }
  }

  /** The exponent of a power of two. */
  function Log2(n: nat): (k: nat)
    requires IsPow2(n)
    ensures Pow2(k) == n
    decreases n
  {
    if n == 1 then 0 else Log2(n / 2) + 1
  }

  lemma {:induction false} Pow2Monotone(i: nat, j: nat)
    requires i <= j
    ensures Pow2(i) <= Pow2(j)
    decreases j
  {
    if i < j {
      Pow2Monotone(i, j - 1);
    }
  }

  /**
   * Masking a number below 2^w with 2^w - 2^i, the complement of 2^i - 1
   * in a w-bit word, rounds it down to a multiple of 2^i.
   */
  lemma {:induction false} AndHighMask(x: nat, i: nat, w: nat)
    requires i <= w && x < Pow2(w)
    ensures Pow2(i) <= Pow2(w) && And(x, Pow2(w) - Pow2(i)) == x - x % Pow2(i)
    decreases i, 1
  {
    Pow2Monotone(i, w);
    if i == 0 {
      AndFullMask(x, w);
    } else if i == w {
      AndEmptyMask(x, Pow2(i));
    } else if x != 0 {
      AndHighMaskStep(x, i, w);
    } else {
      AndZero(Pow2(w) - Pow2(i), Pow2(i));
    }
  }

  /** Masking with all ones below 2^w keeps a number below 2^w. */
  lemma AndFullMask(x: nat, w: nat)
    requires x < Pow2(w)
    ensures And(x, Pow2(w) - Pow2(0)) == x - x % Pow2(0)
  {
    Pow2IsPow2(w);
    AndLowMask(x, Pow2(w));
    ModUnique(x, Pow2(w), 0, x);
    ModUnique(x, 1, x, 0);
  }

  /** Masking with zero clears a number below `m`, which is its own remainder modulo `m`. */
  lemma AndEmptyMask(x: nat, m: nat)
    requires 0 < m && x < m
    ensures And(x, m - m) == x - x % m
  {
    ModUnique(x, m, 0, x);
  }

  lemma AndZero(y: nat, m: nat)
    requires 0 < m
    ensures And(0, y) == 0 - 0 % m
  {
    ModUnique(0, m, 0, 0);
  }

  /** The inductive step of `AndHighMask`: one low bit off `x`, one off each exponent. */
  lemma {:induction false} AndHighMaskStep(x: nat, i: nat, w: nat)
    requires x != 0 && 0 < i < w && x < Pow2(w)
    ensures Pow2(i) <= Pow2(w) && And(x, Pow2(w) - Pow2(i)) == x - x % Pow2(i)
    decreases i, 0
  {
    assert Pow2(i) == 2 * Pow2(i - 1) && Pow2(w) == 2 * Pow2(w - 1);
    AndHighMask(x / 2, i - 1, w - 1);
    AndHalfStep(x, Pow2(i), Pow2(i - 1), Pow2(w), Pow2(w - 1));
  }

  /** The arithmetic of the inductive step, for p = 2^i, q = 2^(i-1), P = 2^w and Q = 2^(w-1). */
  lemma AndHalfStep(x: nat, p: nat, q: nat, P: nat, Q: nat)
    requires x != 0 && 1 <= q <= Q && p == 2 * q && P == 2 * Q
    requires And(x / 2, Q - q) == x / 2 - (x / 2) % q
    ensures And(x, P - p) == x - x % p
  {
    var half, low := x / 2, (x / 2) % q;
    AndEven(x, Q - q);
    assert P - p == 2 * (Q - q);
    var and := And(x, P - p);
    assert and == 2 * (half - low);
    assert p / 2 == q;
    ModEven(x, p);
    assert x % p == 2 * low + x % 2;
    assert x == 2 * half + x % 2;
    Rearrange(x, half, low, x % 2, x % p, and);
  }

  /** ANDing with an even number drops the lowest bit. */
  lemma AndEven(x: nat, m: nat)
    ensures And(x, 2 * m) == 2 * And(x / 2, m)
  {
    if x != 0 && m != 0 {
      assert (2 * m) / 2 == m && (2 * m) % 2 == 0;
    }
  }

  lemma Rearrange(x: int, half: int, low: int, bit: int, rem: int, and: int)
    requires and == 2 * (half - low) && rem == 2 * low + bit && x == 2 * half + bit
    ensures and == x - rem
  {
  }
}
