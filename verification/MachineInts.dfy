/** Fixed-width machine integers of the Cortex-M3, as ranges of int with explicit wrap-around. */
module MachineInts {

  type u8 = x: int | 0 <= x < 0x100
  type u16 = x: int | 0 <= x < 0x1_0000
  type u32 = x: int | 0 <= x < 0x1_0000_0000

  function U8(x: int): u8 { x % 0x100 }

  function U16(x: int): u16 { x % 0x1_0000 }

  function U32(x: int): u32 { x % 0x1_0000_0000 }

  /** The result of a signed operation: overflow has no meaning in C. */
  datatype Checked = Overflow | Fits(value: int) {
    predicate IsFailure() { Overflow? }

    function PropagateFailure(): Checked
      requires Overflow?
    {
      Overflow
    }

    function Extract(): int
      requires Fits?
    {
      value
    }
  }

  /** The cast of an unsigned 32-bit word to a signed one. */
  function AsI32(x: u32): int { if x < 0x8000_0000 then x else x - 0x1_0000_0000 }

  function I32(x: int): Checked { if -0x8000_0000 <= x < 0x8000_0000 then Fits(x) else Overflow }

  function I64(x: int): Checked
  {
    if -0x8000_0000_0000_0000 <= x < 0x8000_0000_0000_0000 then Fits(x) else Overflow
  }

  /** Bitwise exclusive-or, bit by bit from the least significant one. */
  function Xor(a: nat, b: nat): nat
  {
    if a == 0 && b == 0 then 0 else 2 * Xor(a / 2, b / 2) + (a + b) % 2
  }

  lemma XorCommutes(a: nat, b: nat)
    ensures Xor(a, b) == Xor(b, a)
  {
  }

  lemma {:induction false} XorStep(a: nat, b: nat)
    ensures Xor(a, b) == 2 * Xor(a / 2, b / 2) + (a + b) % 2
  {
  }

  lemma {:induction false} XorCancels(a: nat, b: nat, c: nat)
    requires Xor(a, b) == Xor(a, c)
    ensures b == c
    decreases a + b + c
  {
    if a + b + c != 0 {
      XorStep(a, b);
      XorStep(a, c);
      SameHalf(Xor(a / 2, b / 2), Xor(a / 2, c / 2), a + b, a + c);
      XorCancels(a / 2, b / 2, c / 2);
      SameNumber(a, b, c);
    }
  }

  lemma SameHalf(p: int, q: int, x: int, y: int)
    requires 2 * p + x % 2 == 2 * q + y % 2
    ensures p == q && x % 2 == y % 2
  {
  }

  lemma SameNumber(a: int, b: int, c: int)
    requires (a + b) % 2 == (a + c) % 2 && b / 2 == c / 2
    ensures b == c
  {
  }

  lemma XorSelf(a: nat)
    ensures Xor(a, a) == 0
  {
  }

  /** Exclusive-or needs no more bits than its operands. */
  lemma XorBound(a: nat, b: nat, k: nat)
    requires a < Pow2(k) && b < Pow2(k)
    ensures Xor(a, b) < Pow2(k)
  {
  }

  function Pow2(k: nat): (p: nat)
    ensures p > 0
  {
    if k == 0 then 1 else 2 * Pow2(k - 1)
  }

  lemma Pow2Values()
    ensures Pow2(7) == 0x80 && Pow2(8) == 0x100 && Pow2(15) == 0x8000 && Pow2(16) == 0x1_0000
  {
    assert Pow2(4) == 16;
    assert Pow2(8) == 0x100;
    assert Pow2(12) == 0x1000;
  }

  lemma MulMonotone(a: int, b: int, c: int)
    requires a <= b && 0 <= c
    ensures a * c <= b * c
  {
  }

  /** Quotient and remainder are determined by their defining equation. */
  lemma Quotient(a: int, q: int, m: int, r: int)
    requires a == q * m + r && 0 <= r < m
    ensures a / m == q && a % m == r
  {
    var d, e := a / m, a % m;
    assert a == d * m + e;
    if q < d {
      MulMonotone(q + 1, d, m);
    } else if d < q {
      MulMonotone(d + 1, q, m);
    }
  }

  lemma ModPlusMultiple(x: int, k: int, m: int)
    requires m > 0
    ensures (x + k * m) % m == x % m
  {
    var q := x / m;
    assert x + k * m == (q + k) * m + x % m by {
      assert (q + k) * m == q * m + k * m;
    }
    Quotient(x + k * m, q + k, m, x % m);
  }
}
