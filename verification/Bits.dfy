/** Bitwise OR, shifts and two's complement on unbounded naturals.

    The emitters build a 32-bit word by OR-ing shifted fields into an opcode.
    Words here are naturals, a shift left by k is a product with Pow2(k), and OR is
    defined bit by bit; OrField says when OR-ing in a field just adds it. */
module Bits {

  const TWO32 := 0x1_0000_0000
  const TWO64 := 0x1_0000_0000_0000_0000

  type u8 = x: int | 0 <= x < 0x100
  type u32 = x: int | 0 <= x < 0x1_0000_0000
  type u64 = x: int | 0 <= x < 0x1_0000_0000_0000_0000
  type i64 = x: int | -0x8000_0000_0000_0000 <= x < 0x8000_0000_0000_0000

  /** The two's complement pattern of x in 32 and 64 bits. */
  function U32(x: int): u32 { x % 0x1_0000_0000 }

  function U64(x: int): u64 { x % 0x1_0000_0000_0000_0000 }

  function Add64(x: int, y: int): u64 { (x + y) % 0x1_0000_0000_0000_0000 }

  function Pow2(k: nat): (p: nat)
    ensures p > 0
  {
    if k == 0 then 1 else 2 * Pow2(k - 1)
  }

  function Or(a: nat, b: nat): nat
    decreases a + b
  {
    if a == 0 && b == 0 then 0
    else 2 * Or(a / 2, b / 2) + (if a % 2 == 1 || b % 2 == 1 then 1 else 0)
  }

  lemma MulGrows(p: nat, k: int)
    requires k >= 1
    ensures p * k >= p
  {
    assert p * k == p + p * (k - 1);
  }

  lemma DivUnique(x: int, p: nat, q: int, r: int)
    requires p > 0 && 0 <= r < p && x == p * q + r
    ensures x / p == q && x % p == r
  {
    var q', r' := x / p, x % p;
    assert p * (q - q') == r' - r && p * (q' - q) == r - r';
    if q > q' { MulGrows(p, q - q'); } else if q < q' { MulGrows(p, q' - q); }
  }

  lemma Half(w: nat, p: nat)
    requires p > 0
    ensures w / (2 * p) == (w / 2) / p
  {
    var q, r := w / (2 * p), w % (2 * p);
    assert w == 2 * (p * q) + r by { assert (2 * p) * q == 2 * (p * q); }
    DivUnique(w / 2, p, q, r / 2);
  }

  lemma {:induction false} OrZero(a: nat)
    ensures Or(a, 0) == a
  {
    if a > 0 { OrZero(a / 2); }
  }

  /** OR-ing a value below 2^n into a multiple of 2^n adds it. */
  lemma {:induction false} OrLow(h: nat, v: nat, n: nat)
    requires v < Pow2(n)
    ensures Or(h * Pow2(n), v) == h * Pow2(n) + v
  {
    if n == 0 {
      OrZero(h);
    } else {
      var a := h * Pow2(n - 1);
      assert h * Pow2(n) == 2 * a;
      OrLow(h, v / 2, n - 1);
    }
  }

  lemma OrDouble(w: nat, u: nat)
    ensures Or(w, 2 * u) == 2 * Or(w / 2, u) + w % 2
  {
  }

  /** OR-ing an n-bit field into n clear bits at position k adds it. */
  lemma {:induction false} OrField(w: nat, v: nat, k: nat, n: nat)
    requires (w / Pow2(k)) % Pow2(n) == 0 && v < Pow2(n)
    ensures Or(w, v * Pow2(k)) == w + v * Pow2(k)
  {
    if k == 0 {
      assert Pow2(k) == 1;
      hide Or, Pow2;
      Multiple(w, Pow2(n));
      OrLow(w / Pow2(n), v, n);
    } else {
      var p := Pow2(k - 1);
      assert Pow2(k) == 2 * p;
      hide Or, Pow2;
      Half(w, p);
      OrField(w / 2, v, k - 1, n);
      OrDouble(w, v * p);
      Doubled(v, p);
    }
  }

  lemma Multiple(w: nat, p: nat)
    requires p > 0 && w % p == 0
    ensures w == (w / p) * p
  {}

  lemma Doubled(v: nat, p: nat)
    ensures v * (2 * p) == 2 * (v * p)
  {}

  function ShiftRight(x: nat, k: nat): nat {
    if k == 0 then x else ShiftRight(x / 2, k - 1)
  }

  lemma {:induction false} ShiftRightDivides(x: nat, k: nat)
    ensures ShiftRight(x, k) == x / Pow2(k)
  {
    if k > 0 {
      ShiftRightDivides(x / 2, k - 1);
      Half(x, Pow2(k - 1));
    }
  }

  lemma OrStep(a: nat, b: nat)
    ensures Or(a, b) / 2 == Or(a / 2, b / 2)
    ensures Or(a, b) % 2 == if a % 2 == 1 || b % 2 == 1 then 1 else 0
  {}

  /** OR commutes with shifting right ... */
  lemma {:induction false} OrShiftRight(a: nat, b: nat, k: nat)
    ensures ShiftRight(Or(a, b), k) == Or(ShiftRight(a, k), ShiftRight(b, k))
  {
    if k > 0 {
      OrStep(a, b);
      OrShiftRight(a / 2, b / 2, k - 1);
    }
  }

  lemma {:induction false} OrZeroLeft(b: nat)
    ensures Or(0, b) == b
  {
    if b > 0 { OrZeroLeft(b / 2); }
  }

  lemma ModDouble(x: nat, p: nat)
    requires p > 0
    ensures x % (2 * p) == 2 * ((x / 2) % p) + x % 2
  {
    var q, r := (x / 2) / p, (x / 2) % p;
    assert x == (2 * p) * q + (2 * r + x % 2) by { assert x / 2 == p * q + r; assert (2 * p) * q == 2 * (p * q); }
    DivUnique(x, 2 * p, q, 2 * r + x % 2);
  }

  /** ... and with keeping the low bits. */
  lemma {:induction false} OrLowBits(a: nat, b: nat, k: nat)
    ensures Or(a, b) % Pow2(k) == Or(a % Pow2(k), b % Pow2(k))
  {
    if k > 0 {
      var p := Pow2(k - 1);
      OrLowBits(a / 2, b / 2, k - 1);
      ModDouble(a, p);
      ModDouble(b, p);
      ModDouble(Or(a, b), p);
      OrStep(a, b);
      OrStep(a % Pow2(k), b % Pow2(k));
    }
  }

  /** A set bit stays set under OR. */
  lemma OrKeepsBit(a: nat, b: nat, k: nat)
    requires (a / Pow2(k)) % 2 == 1
    ensures (Or(a, b) / Pow2(k)) % 2 == 1
  {
    hide Or, Pow2;
    OrShiftRight(a, b, k);
    ShiftRightDivides(a, k);
    ShiftRightDivides(Or(a, b), k);
    OrStep(ShiftRight(a, k), ShiftRight(b, k));
  }
}
