/**
  * Fixed-width integer types of the C program and its bitwise operators,
  * written over unbounded integers.  A C `int` is a 32-bit two's-complement
  * value; its bit `i` is `(x / 2^i) % 2` with Dafny's Euclidean `/` and `%`,
  * which also holds for negative values.
  */
module Bits {

  /** C `int` (32 bits, two's complement). */
  type int32 = x: int | -0x8000_0000 <= x < 0x8000_0000

  /** C `uint8_t`. */
  type u8 = x: int | 0 <= x < 0x100

  /** C `int8_t`. */
  type int8 = x: int | -0x80 <= x < 0x80

  /** Width in bits of a C `int`. */
  const INT_BITS: nat := 32

  function Pow2(n: nat): (r: nat)
    ensures r >= 1
  {
    if n == 0 then 1 else 2 * Pow2(n - 1)
  }

  /** Powers of two multiply by adding exponents. */
  lemma {:induction false} Pow2Add(a: nat, b: nat)
    ensures Pow2(a + b) == Pow2(a) * Pow2(b)
    decreases a
  {
    if a > 0 {
      Pow2Add(a - 1, b);
    }
  }

  /** The powers of two the program's constants are built from. */
  lemma Pow2Constants()
    ensures Pow2(8) == 0x100 && Pow2(16) == 0x1_0000 && Pow2(INT_BITS) == 0x1_0000_0000
  {
    Pow2Add(8, 8);
    Pow2Add(16, 16);
  }

  /** `x & y`, restricted to the low `w` bits of the operands: a `w`-bit value, never above a non-negative mask. */
  function And(x: int, y: int, w: nat): (r: int)
    ensures 0 <= r < Pow2(w)
    ensures 0 <= y ==> r <= y
  {
    AndBitsBound(x, y, w);
    AndBits(x, y, w)
  }

  /** Bit `i` of the conjunction is the product of bit `i` of the operands, for the `w` lowest bits. */
  function AndBits(x: int, y: int, w: nat): int
    decreases w
  {
    if w == 0 then 0 else 2 * AndBits(x / 2, y / 2, w - 1) + (x % 2) * (y % 2)
  }

  /** The bit walk of `&` yields `w` bits, no more than a non-negative mask. */
  lemma {:induction false} AndBitsBound(x: int, y: int, w: nat)
    ensures 0 <= AndBits(x, y, w) < Pow2(w)
    ensures 0 <= y ==> AndBits(x, y, w) <= y
    decreases w
  {
    if w > 0 {
      AndBitsBound(x / 2, y / 2, w - 1);
    }
  }

  /** `x | y`, restricted to the low `w` bits of the operands: a `w`-bit value, never above the sum of non-negative operands. */
  function Or(x: int, y: int, w: nat): (r: int)
    ensures 0 <= r < Pow2(w)
    ensures 0 <= x && 0 <= y ==> r <= x + y
  {
    OrBitsBound(x, y, w);
    OrBits(x, y, w)
  }

  /** Bit `i` of the disjunction is set when bit `i` of either operand is, for the `w` lowest bits. */
  function OrBits(x: int, y: int, w: nat): int
    decreases w
  {
    if w == 0 then 0
    else 2 * OrBits(x / 2, y / 2, w - 1) + (if x % 2 == 1 || y % 2 == 1 then 1 else 0)
  }

  /** The bit walk of `|` yields `w` bits, no more than the sum of non-negative operands. */
  lemma {:induction false} OrBitsBound(x: int, y: int, w: nat)
    ensures 0 <= OrBits(x, y, w) < Pow2(w)
    ensures 0 <= x && 0 <= y ==> OrBits(x, y, w) <= x + y
    decreases w
  {
    if w > 0 {
      OrBitsBound(x / 2, y / 2, w - 1);
    }
  }

  /** Arithmetic `x >> n`: drops the `n` lowest bits, keeping the sign. */
  function ShiftRight(x: int, n: nat): (r: int)
    ensures r < 0 <==> x < 0
    ensures 0 <= x ==> r <= x
  {
    ShiftBitsSign(x, n);
    ShiftBits(x, n)
  }

  /** Halving `n` times, rounding towards minus infinity. */
  function ShiftBits(x: int, n: nat): int
    decreases n
  {
    if n == 0 then x else ShiftBits(x / 2, n - 1)
  }

  /** Halving keeps the sign and never grows a non-negative value. */
  lemma {:induction false} ShiftBitsSign(x: int, n: nat)
    ensures ShiftBits(x, n) < 0 <==> x < 0
    ensures 0 <= x ==> ShiftBits(x, n) <= x
    decreases n
  {
    if n > 0 {
      ShiftBitsSign(x / 2, n - 1);
    }
  }

  /** `x << n` for a value whose shifted bits stay inside the word: a right shift by `n` undoes it. */
  function ShiftLeft(x: int, n: nat): (r: int)
    ensures ShiftRight(r, n) == x
  {
    ShiftRightIsDiv(x * Pow2(n), n);
    DivModUnique(x * Pow2(n), Pow2(n), x, 0);
    x * Pow2(n)
  }

  /** Euclidean division has exactly one quotient and remainder. */
  lemma DivModUnique(x: int, d: int, q: int, r: int)
    requires d > 0 && x == d * q + r && 0 <= r < d
    ensures x / d == q && x % d == r
  {
    var q', r' := x / d, x % d;
    assert d * (q - q') == r' - r;
    if q > q' {
      MulAtLeast(d, q - q');
      assert false;
    } else if q < q' {
      MulAtLeast(d, q' - q);
      assert false;
    }
  }

  /** A positive multiple of `d` is at least `d`. */
  lemma {:induction false} MulAtLeast(d: nat, k: int)
    requires k >= 1
    ensures d * k >= d
    decreases k
  {
    if k > 1 {
      MulAtLeast(d, k - 1);
    }
  }

  /** Dividing by `2 * m` is halving, then dividing by `m`. */
  lemma DivModHalf(x: int, m: int)
    requires m > 0
    ensures x / (2 * m) == (x / 2) / m
    ensures x % (2 * m) == 2 * ((x / 2) % m) + x % 2
  {
    var q := x / 2;
    assert q == m * (q / m) + q % m;
    assert x == (2 * m) * (q / m) + (2 * (q % m) + x % 2);
    DivModUnique(x, 2 * m, q / m, 2 * (q % m) + x % 2);
  }

  /** Masking with `2^k - 1` keeps the remainder modulo `2^k`. */
  lemma {:induction false} AndLowMask(x: int, k: nat, w: nat)
    requires k <= w
    ensures And(x, Pow2(k) - 1, w) == x % Pow2(k)
    decreases k
  {
    if k == 0 {
      AndZero(x, w);
    } else {
      var m := Pow2(k - 1);
      DivModUnique(2 * m - 1, 2, m - 1, 1);
      AndLowMask(x / 2, k - 1, w - 1);
      DivModHalf(x, m);
      calc {
        And(x, Pow2(k) - 1, w);
        2 * AndBits(x / 2, m - 1, w - 1) + x % 2;
        2 * ((x / 2) % m) + x % 2;
        x % Pow2(k);
      }
    }
  }

  /** Masking with zero clears every bit. */
  lemma {:induction false} AndZero(x: int, w: nat)
    ensures And(x, 0, w) == 0
    decreases w
  {
    if w > 0 {
      AndZero(x / 2, w - 1);
    }
  }

  /** An arithmetic right shift by `n` is floor division by `2^n`. */
  lemma {:induction false} ShiftRightIsDiv(x: int, n: nat)
    ensures ShiftRight(x, n) == x / Pow2(n)
    decreases n
  {
    if n > 0 {
      ShiftRightIsDiv(x / 2, n - 1);
      DivModHalf(x, Pow2(n - 1));
    }
  }

  /** Or-ing bits below position `k` into a value shifted left by `k` is addition. */
  lemma {:induction false} OrDisjoint(h: int, l: int, k: nat, w: nat)
    requires k <= w && 0 <= l < Pow2(k) && 0 <= h && h * Pow2(k) + l < Pow2(w)
    ensures Or(h * Pow2(k), l, w) == h * Pow2(k) + l
    decreases k
  {
    if k == 0 {
      OrZero(h, w);
    } else {
      assert h * Pow2(k) == 2 * (h * Pow2(k - 1));
      OrDisjoint(h, l / 2, k - 1, w - 1);
    }
  }

  /** Or-ing zero into a value that fits in `w` bits leaves it unchanged. */
  lemma {:induction false} OrZero(x: int, w: nat)
    requires 0 <= x < Pow2(w)
    ensures Or(x, 0, w) == x
    decreases w
  {
    if w > 0 {
      OrZero(x / 2, w - 1);
    }
  }
}
