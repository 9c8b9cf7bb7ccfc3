/**
 * Rust's fixed-width unsigned integers and the three u64 bit operations that
 * `new_reference` uses (`<<`, `|`, `&`), written out over natural numbers.
 * A bit operation on naturals is defined one bit at a time, least significant
 * bit first; `<<` on a u64 drops every bit shifted past bit 63.
 */
module Bits {

  type u8 = x: int | 0 <= x < 0x100
  type u32 = x: int | 0 <= x < 0x1_0000_0000
  type u64 = x: int | 0 <= x < 0x1_0000_0000_0000_0000
  type i64 = x: int | -0x8000_0000_0000_0000 <= x < 0x8000_0000_0000_0000

  const U32_LIMIT: nat := 0x1_0000_0000
  const U64_LIMIT: nat := 0x1_0000_0000_0000_0000
  const I64_LIMIT: nat := 0x8000_0000_0000_0000

  function Pow2(k: nat): (r: nat)
    ensures r >= 1
  {
    if k == 0 then 1 else 2 * Pow2(k - 1)
  }

  /** The powers of two the reference layout is built from. */
  lemma Pow2Values()
    ensures Pow2(28) == 0x1000_0000
    ensures Pow2(32) == 0x1_0000_0000
    ensures Pow2(60) == 0x1000_0000_0000_0000
  {
    Pow2Of4();
    Pow2Add(4, 4);
    Pow2Add(8, 8);
    Pow2Add(16, 16);
    assert Pow2(16) == 0x1_0000;
    Pow2Add(16, 4);
    Pow2Add(20, 8);
    assert Pow2(28) == 0x1000_0000;
    Pow2Add(32, 28);
  }

  lemma Pow2Of4()
    ensures Pow2(4) == 0x10
  {
    assert Pow2(1) == 2;
    assert Pow2(2) == 4;
    assert Pow2(3) == 8;
  }

  lemma {:induction false} Pow2Add(j: nat, k: nat)
    ensures Pow2(j + k) == Pow2(j) * Pow2(k)
  {
    if j > 0 {
      Pow2Add(j - 1, k);
    }
  }

  /** Bitwise OR of two naturals. */
  function Or(a: nat, b: nat): (r: nat)
    decreases a + b
  {
    if a == 0 then b
    else if b == 0 then a
    else 2 * Or(a / 2, b / 2) + (if a % 2 == 1 || b % 2 == 1 then 1 else 0)
  }

  /** Bitwise AND of two naturals. */
  function And(a: nat, b: nat): (r: nat)
    decreases a
  {
    if a == 0 || b == 0 then 0
    else 2 * And(a / 2, b / 2) + (if a % 2 == 1 && b % 2 == 1 then 1 else 0)
  }

  /**
   * `a << k` on a u64: k one-bit shifts, each dropping the bit pushed past
   * bit 63.
   */
  function ShiftLeft64(a: u64, k: nat): (r: u64)
    decreases k
  {
    if k == 0 then a else ShiftLeft64((2 * a) % U64_LIMIT, k - 1)
  }

  /** Shifting left by k is multiplying by 2^k and keeping the low 64 bits. */
  lemma {:induction false} ShiftLeft64Value(a: u64, k: nat)
    ensures ShiftLeft64(a, k) == (a * Pow2(k)) % U64_LIMIT
    decreases k
  {
    if k == 0 {
      DivModUnique(a, U64_LIMIT, 0, a);
    } else {
      var doubled := (2 * a) % U64_LIMIT;
      ShiftLeft64Value(doubled, k - 1);
      ModThenMul(2 * a, Pow2(k - 1), U64_LIMIT);
      assert (2 * a) * Pow2(k - 1) == a * Pow2(k);
    }
  }

  /** Reducing before a multiplication does not change the result modulo m. */
  lemma ModThenMul(x: nat, c: nat, m: nat)
    requires m > 0
    ensures ((x % m) * c) % m == (x * c) % m
  {
    var q, r := x / m, x % m;
    assert x * c == (q * c) * m + r * c;
    ModAddMultiple(q * c, r * c, m);
  }

  lemma ModAddMultiple(n: nat, r: nat, m: nat)
    requires m > 0
    ensures (n * m + r) % m == r % m
  {
    assert n * m + r == (n + r / m) * m + r % m;
    DivModUnique(n * m + r, m, n + r / m, r % m);
  }

  /**
   * When the low operand fits below bit k and the high operand has only zeros
   * there, OR-ing them cannot produce a carry: the OR is the sum.
   */
  lemma {:induction false} OrOfDisjoint(hi: nat, lo: nat, k: nat)
    requires lo < Pow2(k)
    ensures Or(hi * Pow2(k), lo) == hi * Pow2(k) + lo
  {
    if k == 0 {
      assert lo == 0;
    } else if hi == 0 {
    } else if lo == 0 {
    } else {
      var h := hi * Pow2(k);
      assert h == 2 * (hi * Pow2(k - 1));
      assert h / 2 == hi * Pow2(k - 1) && h % 2 == 0;
      assert lo / 2 < Pow2(k - 1);
      OrOfDisjoint(hi, lo / 2, k - 1);
    }
  }

  /** AND with the mask of the k low bits keeps exactly those bits. */
  lemma {:induction false} AndLowMask(a: nat, k: nat)
    ensures And(a, Pow2(k) - 1) == a % Pow2(k)
  {
    if k == 0 {
      assert Pow2(k) == 1;
    } else if a == 0 {
      DivModUnique(0, Pow2(k), 0, 0);
    } else {
      AndLowMask(a / 2, k - 1);
      AndMaskStep(a, Pow2(k - 1));
    }
  }

  /** If the mask of the p-1 low bits works for a / 2, the mask of the 2p-1 low bits works for a. */
  lemma AndMaskStep(a: nat, p: nat)
    requires a > 0 && p >= 1
    requires And(a / 2, p - 1) == (a / 2) % p
    ensures And(a, 2 * p - 1) == a % (2 * p)
  {
    AndOddMask(a, p);
    ModDouble(a, p);
  }

  /** One step of `And` against a mask whose lowest bit is set. */
  lemma AndOddMask(a: nat, p: nat)
    requires a > 0 && p >= 1
    ensures And(a, 2 * p - 1) == 2 * And(a / 2, p - 1) + a % 2
  {
    var mask := 2 * p - 1;
    assert mask / 2 == p - 1 && mask % 2 == 1;
  }

  lemma ModDouble(a: nat, p: nat)
    requires p >= 1
    ensures a % (2 * p) == 2 * ((a / 2) % p) + a % 2
  {
    var q := (a / 2) / p;
    var r := (a / 2) % p;
    assert a / 2 == q * p + r;
    assert a == q * (2 * p) + (2 * r + a % 2);
    DivModUnique(a, 2 * p, q, 2 * r + a % 2);
  }

  lemma DivModUnique(a: nat, d: nat, q: nat, r: nat)
    requires d > 0 && r < d && a == q * d + r
    ensures a % d == r && a / d == q
  {
    var q0, r0 := a / d, a % d;
    assert q * d <= a < (q0 + 1) * d;
    MulMonotone(q, q0 + 1, d);
    assert q0 * d <= a < (q + 1) * d;
    MulMonotone(q0, q + 1, d);
  }

  lemma MulMonotone(x: int, y: int, d: int)
    requires d > 0 && x * d < y * d
    ensures x < y
  {
    assert (y - x) * d > 0;
  }
}
