/** Rust's unsigned 64-bit integers and the bit operators the codec uses.

`u64` is the naturals below 2^64. Bitwise `|` and `&` are defined bit by bit on
naturals (least significant bit first), `<<` multiplies by a power of two and
drops everything from bit 64 up, `>>` is floor division by a power of two. The
lemmas connect the bitwise operators to arithmetic: OR of disjoint bit ranges is
addition, AND with a low mask is a remainder.
 */
module Bits {

  /** 2^64. */
  const U64Modulus: nat := 0x1_0000_0000_0000_0000

  type u64 = x: int | 0 <= x < 0x1_0000_0000_0000_0000

  function Pow2(n: nat): (p: nat)
    ensures p >= 1
  {
    if n == 0 then 1 else 2 * Pow2(n - 1)
  }

  /** Whether bit `i` of `x` is set. */
  predicate Bit(x: nat, i: nat)
  {
    (x / Pow2(i)) % 2 == 1
  }

  /** Bitwise OR (`a | b`). */
  function Or(a: nat, b: nat): nat
    decreases a + b
  {
    if a == 0 then b
    else if b == 0 then a
    else 2 * Or(a / 2, b / 2) + (if a % 2 == 1 || b % 2 == 1 then 1 else 0)
  }

  /** Bitwise AND (`a & b`). */
  function And(a: nat, b: nat): nat
    decreases a + b
  {
    if a == 0 || b == 0 then 0
    else 2 * And(a / 2, b / 2) + (if a % 2 == 1 && b % 2 == 1 then 1 else 0)
  }

  /** `x << n` on u64: the bits pushed past bit 63 are lost. */
  function Shl(x: u64, n: nat): (r: u64)
    ensures n <= 64 && x < Pow2(64 - n) ==> r == x * Pow2(n)
  {
    var shifted := x * Pow2(n);
    ShlFits(x, n);
    ModOfSmaller(shifted, U64Modulus);
    shifted % U64Modulus
  }

  /** `x >> n` on u64 (logical shift). */
  function Shr(x: u64, n: nat): (r: u64)
    ensures r <= x
  {
    var d := Pow2(n);
    DivLeq(x, d);
    x / d
  }

  // ---------------------------------------------------------------------------
  // Arithmetic helpers
  // ---------------------------------------------------------------------------

  lemma ModOfSmaller(a: nat, m: nat)
    requires m > 0
    ensures a < m ==> a % m == a
  {
  }

  lemma DivLeq(x: nat, d: nat)
    requires d >= 1
    ensures 0 <= x / d <= x
  {
  }

  /** Powers of two add their exponents. */
  lemma {:induction false} Pow2Add(a: nat, b: nat)
    ensures Pow2(a + b) == Pow2(a) * Pow2(b)
    decreases a
  {
    if a > 0 {
      Pow2Add(a - 1, b);
    }
  }

  lemma Pow2Constants()
    ensures Pow2(10) == 0x400
    ensures Pow2(12) == 0x1000
    ensures Pow2(16) == 0x1_0000
    ensures Pow2(22) == 0x40_0000
    ensures Pow2(41) == 0x200_0000_0000
    ensures Pow2(42) == 0x400_0000_0000
    ensures Pow2(52) == 0x10_0000_0000_0000
    ensures Pow2(63) == 0x8000_0000_0000_0000
    ensures Pow2(64) == U64Modulus
  {
    assert Pow2(2) == 4;
    assert Pow2(6) == 64;
    assert Pow2(10) == 0x400;
    Pow2Add(10, 2);
    Pow2Add(10, 6);
    Pow2Add(12, 10);
    Pow2Add(22, 16);
    Pow2Add(38, 2);
    Pow2Add(40, 1);
    Pow2Add(41, 1);
    Pow2Add(42, 10);
    Pow2Add(41, 22);
    Pow2Add(63, 1);
  }

  /** Division and remainder are determined by any decomposition `x == d*q + r`
      with `0 <= r < d`. */
  lemma DivModUnique(x: int, d: int, q: int, r: int)
    requires d > 0 && 0 <= r < d && x == d * q + r
    ensures x / d == q && x % d == r
  {
    var q', r' := x / d, x % d;
    assert d * (q - q') == r' - r;
    assert -d < r' - r < d;
    MultipleBelowIsZero(d, q - q');
  }

  lemma MultipleBelowIsZero(d: int, k: int)
    requires d > 0 && -d < d * k < d
    ensures k == 0
  {
    MulBounds(d, k);
  }

  lemma MulBounds(d: int, k: int)
    requires d > 0
    ensures k >= 1 ==> d * k >= d
    ensures k <= -1 ==> d * k <= -d
  {
  }

  /** A value below 2^(64-n) shifted left by n still fits in 64 bits. */
  lemma ShlFits(x: nat, n: nat)
    ensures n <= 64 && x < Pow2(64 - n) ==> x * Pow2(n) < U64Modulus
  {
    if n <= 64 && x < Pow2(64 - n) {
      Pow2Add(64 - n, n);
      Pow2Constants();
      MulStrictMono(x, Pow2(64 - n), Pow2(n));
    }
  }

  lemma MulStrictMono(a: nat, b: nat, c: nat)
    requires a < b && c >= 1
    ensures a * c < b * c
  {
  }

  /** Splitting off the lowest bit: `x % 2P == 2 * ((x / 2) % P) + x % 2`. */
  lemma ModDoubleStep(x: nat, p: nat)
    requires p >= 1
    ensures x % (2 * p) == 2 * ((x / 2) % p) + x % 2
    ensures x / (2 * p) == (x / 2) / p
  {
    var h := x / 2;
    var q := h / p;
    var r := h % p;
    assert h == p * q + r;
    assert x == 2 * h + x % 2;
    assert x == (2 * p) * q + (2 * r + x % 2);
    DivModUnique(x, 2 * p, q, 2 * r + x % 2);
  }

  // ---------------------------------------------------------------------------
  // Properties of the bitwise operators
  // ---------------------------------------------------------------------------

  /** `Or` is bitwise: a bit of the result is set exactly when it is set in
      either argument. */
  lemma {:induction false} OrBit(a: nat, b: nat, i: nat)
    ensures Bit(Or(a, b), i) <==> Bit(a, i) || Bit(b, i)
    decreases i
  {
    if a == 0 || b == 0 {
      assert Bit(0, i) == false;
    } else if i == 0 {
    } else {
      var c := if a % 2 == 1 || b % 2 == 1 then 1 else 0;
      OrBit(a / 2, b / 2, i - 1);
      ShiftedBit(a, i);
      ShiftedBit(b, i);
      ShiftedBit(Or(a, b), i);
      assert Or(a, b) / 2 == Or(a / 2, b / 2);
    }
  }

  /** `And` is bitwise: a bit of the result is set exactly when it is set in
      both arguments. */
  lemma {:induction false} AndBit(a: nat, b: nat, i: nat)
    ensures Bit(And(a, b), i) <==> Bit(a, i) && Bit(b, i)
    decreases i
  {
    if a == 0 || b == 0 {
      assert Bit(0, i) == false;
    } else if i == 0 {
    } else {
      AndBit(a / 2, b / 2, i - 1);
      ShiftedBit(a, i);
      ShiftedBit(b, i);
      ShiftedBit(And(a, b), i);
      assert And(a, b) / 2 == And(a / 2, b / 2);
    }
  }

  /** Bit `i` of `x` is bit `i - 1` of `x / 2`. */
  lemma ShiftedBit(x: nat, i: nat)
    requires i >= 1
    ensures Bit(x, i) <==> Bit(x / 2, i - 1)
  {
    ModDoubleStep(x, Pow2(i - 1));
  }

  /** Dividing twice is dividing by the product. */
  lemma DivDiv(x: nat, a: nat, b: nat)
    requires a >= 1 && b >= 1
    ensures x / a / b == x / (a * b)
  {
    var q, r := x / a, x % a;
    var q2, r2 := q / b, q % b;
    assert x == a * q + r;
    assert q == b * q2 + r2;
    assert a * q == a * (b * q2) + a * r2;
    assert x == (a * b) * q2 + (a * r2 + r);
    assert a * r2 <= a * (b - 1) by {
      MulLeq(a, r2, b - 1);
    }
    DivModUnique(x, a * b, q2, a * r2 + r);
  }

  lemma MulLeq(a: nat, x: nat, y: nat)
    requires x <= y
    ensures a * x <= a * y
  {
  }

  /** `>>` moves every bit down by `n` places. */
  lemma ShrBit(x: u64, n: nat, i: nat)
    ensures Bit(Shr(x, n), i) <==> Bit(x, i + n)
  {
    var a, b := Pow2(n), Pow2(i);
    DivDiv(x, a, b);
    Pow2Add(i, n);
    assert Pow2(i + n) == a * b;
    assert Shr(x, n) / b == x / Pow2(i + n);
  }

  /** OR of a multiple of 2^k with a value below 2^k is their sum: the bit
      ranges do not overlap. */
  lemma {:induction false} OrDisjoint(m: nat, b: nat, k: nat)
    requires b < Pow2(k)
    ensures Or(m * Pow2(k), b) == m * Pow2(k) + b
    decreases k
  {
    var a := m * Pow2(k);
    if k == 0 {
      assert b == 0;
    } else if a == 0 || b == 0 {
    } else {
      assert a == 2 * (m * Pow2(k - 1));
      assert a / 2 == m * Pow2(k - 1) && a % 2 == 0;
      OrDisjoint(m, b / 2, k - 1);
    }
  }

  /** OR with 1 sets the lowest bit: an even value goes up by one, an odd one
      is unchanged. */
  lemma OrOne(x: nat)
    ensures x % 2 == 0 ==> Or(x, 1) == x + 1
    ensures x % 2 == 1 ==> Or(x, 1) == x
  {
    if x > 0 {
      assert Or(x, 1) == 2 * Or(x / 2, 0) + 1;
    }
  }

  /** OR commutes with a common shift: `(m << k) | (c << k) == (m | c) << k`
      when nothing is shifted out. */
  lemma {:induction false} OrScaled(m: nat, c: nat, k: nat)
    ensures Or(m * Pow2(k), c * Pow2(k)) == Or(m, c) * Pow2(k)
    decreases k
  {
    if k > 0 {
      var p := Pow2(k - 1);
      var a, b, o := m * p, c * p, Or(m, c);
      assert Pow2(k) == 2 * p;
      MulDouble(m, p);
      MulDouble(c, p);
      MulDouble(o, p);
      OrDouble(a, b);
      OrScaled(m, c, k - 1);
    }
  }

  lemma MulDouble(o: nat, p: nat)
    ensures o * (2 * p) == 2 * (o * p)
  {
  }

  lemma OrDouble(a: nat, b: nat)
    ensures Or(2 * a, 2 * b) == 2 * Or(a, b)
  {
    if a > 0 && b > 0 {
      assert (2 * a) / 2 == a && (2 * b) / 2 == b;
    }
  }

  /** OR of two values below 2^n stays below 2^n. */
  lemma {:induction false} OrBound(a: nat, b: nat, n: nat)
    requires a < Pow2(n) && b < Pow2(n)
    ensures Or(a, b) < Pow2(n)
    decreases n
  {
    if a == 0 || b == 0 {
    } else {
      assert n > 0;
      OrBound(a / 2, b / 2, n - 1);
    }
  }

  /** AND with the mask 2^k - 1 keeps the low k bits: it is `x % 2^k`. */
  lemma {:induction false} AndLowMask(x: nat, k: nat)
    ensures And(x, Pow2(k) - 1) == x % Pow2(k)
    decreases k
  {
    if k == 0 {
    } else if x == 0 {
    } else {
      var p := Pow2(k - 1);
      assert Pow2(k) - 1 == 2 * (p - 1) + 1;
      assert (Pow2(k) - 1) / 2 == p - 1 && (Pow2(k) - 1) % 2 == 1;
      AndLowMask(x / 2, k - 1);
      ModDoubleStep(x, p);
    }
  }
}
