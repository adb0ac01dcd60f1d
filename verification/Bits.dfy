/** Bitwise `|` on unbounded naturals, and the facts page-table entries need about it. */
module Bits {

  const TWO12: nat := 0x1000
  const TWO32: nat := 0x1_0000_0000
  const TWO48: nat := 0x1_0000_0000_0000
  const TWO52: nat := 0x10_0000_0000_0000
  const TWO64: nat := 0x1_0000_0000_0000_0000

  type Word = w: nat | w < TWO64

  /** Arithmetic on `uintptr_t` and `size_t` wraps at 64 bits. */
  function U64(x: nat): (r: Word)
  {
    x % TWO64
  }

  function Or(a: nat, b: nat): nat
    decreases a + b
  {
    if a == 0 then b
    else if b == 0 then a
    else 2 * Or(a / 2, b / 2) + (if a % 2 == 1 || b % 2 == 1 then 1 else 0)
  }

  function Pow2(k: nat): nat
  {
    if k == 0 then 1 else 2 * Pow2(k - 1)
  }

  lemma MulAtLeast(c: int, d: int)
    requires c > 0 && d >= 1
    ensures c * d >= c
  {
    assert c * d == c * (d - 1) + c;
  }

  lemma MulAtMost(c: int, d: int)
    requires c > 0 && d <= -1
    ensures c * d <= -c
  {
    assert c * d == c * (d + 1) - c;
  }

  lemma MulMono(c: nat, x: nat, y: nat)
    ensures x <= y ==> c * x <= c * y
  {
  }

  /** Division by any divisor, from its quotient and remainder. */
  lemma DivMod(x: int, c: int, q: int, r: int)
    requires c > 0 && 0 <= r < c && x == c * q + r
    ensures x / c == q && x % c == r
  {
    var d := x / c - q;
    assert c * d == r - x % c by {
      assert x == c * (x / c) + x % c;
      assert c * d == c * (x / c) - c * q;
    }
    if d >= 1 {
      MulAtLeast(c, d);
    } else if d <= -1 {
      MulAtMost(c, d);
    }
  }

  lemma OrStep(a: nat, b: nat)
    ensures Or(a, b) == 2 * Or(a / 2, b / 2) + (if a % 2 == 1 || b % 2 == 1 then 1 else 0)
  {
  }

  /** `|` of operands with no common bit position is addition. */
  lemma {:induction false} OrOfDisjoint(a: nat, b: nat, k: nat)
    requires b < Pow2(k)
    ensures Or(a * Pow2(k), b) == a * Pow2(k) + b
  {
    hide Or;
    if k == 0 {
      OrZero(a * Pow2(k));
    } else {
      var half := a * Pow2(k - 1);
      MulTwice(a, Pow2(k - 1));
      OrOfEven(half, b);
      OrOfDisjoint(a, b / 2, k - 1);
    }
  }

  lemma OrZero(a: nat)
    ensures Or(a, 0) == a
  {
  }

  lemma MulTwice(a: int, p: int)
    ensures a * (2 * p) == 2 * (a * p)
  {
  }

  lemma OrOfEven(half: nat, b: nat)
    ensures Or(2 * half, b) == 2 * Or(half, b / 2) + b % 2
  {
    OrStep(2 * half, b);
  }

  lemma OrPage(base: nat, low: nat)
    requires base % TWO12 == 0 && low < TWO12
    ensures Or(base, low) == base + low
  {
    var a := base / TWO12;
    assert Pow2(12) == TWO12;
    OrOfDisjoint(a, low, 12);
  }

  /** Setting bit 0. */
  lemma OrOne(x: nat)
    ensures Or(x, 1) == if x % 2 == 1 then x else x + 1
  {
    OrStep(x, 1);
  }

  function Bit(x: nat, k: nat): bool
  {
    if k == 0 then x % 2 == 1 else Bit(x / 2, k - 1)
  }

  /** Setting bit k. */
  lemma {:induction false} OrOfBit(x: nat, k: nat)
    ensures Or(x, Pow2(k)) == if Bit(x, k) then x else x + Pow2(k)
  {
    if k == 0 {
      OrOne(x);
    } else {
      OrStep(x, Pow2(k));
      OrOfBit(x / 2, k - 1);
    }
  }

  lemma BitSeven(x: nat)
    ensures Bit(x, 7) == ((x / 0x80) % 2 == 1)
  {
    var x1 := x / 2; var x2 := x1 / 2; var x3 := x2 / 2; var x4 := x3 / 2;
    var x5 := x4 / 2; var x6 := x5 / 2; var x7 := x6 / 2;
    assert Bit(x, 7) == Bit(x1, 6) == Bit(x2, 5) == Bit(x3, 4) == Bit(x4, 3);
    assert Bit(x4, 3) == Bit(x5, 2) == Bit(x6, 1) == Bit(x7, 0);
    assert x7 == x / 0x80;
  }

  /** Setting bit 7, `PG_SIZE`. */
  lemma OrBit7(x: nat)
    ensures Or(x, 0x80) == if (x / 0x80) % 2 == 1 then x else x + 0x80
  {
    assert Pow2(7) == 0x80;
    OrOfBit(x, 7);
    BitSeven(x);
  }

  lemma {:induction false} OrBounded(a: nat, b: nat, k: nat)
    requires a < Pow2(k) && b < Pow2(k)
    ensures Or(a, b) < Pow2(k)
  {
    if k > 0 && a != 0 && b != 0 {
      OrBounded(a / 2, b / 2, k - 1);
    }
  }

  lemma {:induction false} Pow2Sum(j: nat, k: nat)
    ensures Pow2(j + k) == Pow2(j) * Pow2(k)
  {
    if j > 0 {
      Pow2Sum(j - 1, k);
    }
  }

  lemma Pow2Double(k: nat, c: nat)
    requires Pow2(k) == c
    ensures Pow2(2 * k) == c * c
  {
    Pow2Sum(k, k);
  }

  lemma OrIsWord(a: Word, b: Word)
    ensures Or(a, b) < TWO64
  {
    assert Pow2(64) == TWO64 by {
      assert Pow2(8) == 0x100;
      Pow2Double(8, 0x100);
      Pow2Double(16, 0x1_0000);
      Pow2Double(32, 0x1_0000_0000);
    }
    OrBounded(a, b, 64);
  }
}
