/** Fixed-width machine arithmetic shared by every module: bytes, 32- and 64-bit
    wrap-around, powers of two and the bitwise OR of a C program. */
module Words {
  type byte = x: int | 0 <= x < 256
  type bit = x: int | 0 <= x < 2

  datatype Option<+T> = None | Some(value: T)

  const WORD32 := 0x1_0000_0000
  const WORD64 := 0x1_0000_0000_0000_0000

  type u32 = x: int | 0 <= x < WORD32
  type u64 = x: int | 0 <= x < WORD64

  /** The value C's unsigned 32-bit arithmetic gives to the exact result `x`. */
  function Wrap32(x: int): u32 {
    x % WORD32
  }

  /** The value C's unsigned 64-bit arithmetic gives to the exact result `x`. */
  function Wrap64(x: int): u64 {
    x % WORD64
  }

  /** 2 to the power `n`; `x << n` is `x * Pow2(n)` and `x >> n` is `x / Pow2(n)`. */
  function Pow2(n: nat): (p: nat)
    ensures p > 0
  {
    if n == 0 then 1 else 2 * Pow2(n - 1)
  }

  lemma {:induction false} Pow2Add(a: nat, b: nat)
    ensures Pow2(a + b) == Pow2(a) * Pow2(b)
  {
    if a == 0 {
    } else {
      Pow2Add(a - 1, b);
      assert 2 * (Pow2(a - 1) * Pow2(b)) == (2 * Pow2(a - 1)) * Pow2(b);
    }
  }

  lemma {:induction false} Pow2Monotone(a: nat, b: nat)
    requires a <= b
    ensures Pow2(a) <= Pow2(b)
    decreases b - a
  {
    if a < b {
      Pow2Monotone(a, b - 1);
    }
  }

  lemma Pow2Values()
    ensures Pow2(0) == 1 && Pow2(1) == 2 && Pow2(2) == 4 && Pow2(3) == 8
    ensures Pow2(4) == 16 && Pow2(5) == 32 && Pow2(6) == 64 && Pow2(7) == 128
    ensures Pow2(8) == 256 && Pow2(9) == 512 && Pow2(10) == 1024 && Pow2(11) == 2048
    ensures Pow2(12) == 4096 && Pow2(13) == 8192 && Pow2(14) == 16384 && Pow2(15) == 32768
    ensures Pow2(16) == 65536 && Pow2(32) == WORD32 && Pow2(64) == WORD64
  {
    assert Pow2(4) == 16;
    assert Pow2(8) == 256;
    assert Pow2(12) == 4096;
    assert Pow2(16) == 65536;
    Pow2Add(16, 16);
    Pow2Add(32, 32);
  }

  /** Bitwise OR. */
  function Or(a: nat, b: nat): nat
    decreases a + b
  {
    if a == 0 && b == 0 then 0
    else 2 * Or(a / 2, b / 2) + (if a % 2 == 1 || b % 2 == 1 then 1 else 0)
  }

  lemma {:induction false} OrZero(a: nat)
    ensures Or(a, 0) == a
  {
    if a != 0 {
      OrZero(a / 2);
    }
  }

  lemma MulLe(c: int, a: int, b: int)
    requires c >= 0 && a <= b
    ensures c * a <= c * b
  {
    assert c * (b - a) >= 0;
    assert c * (b - a) == c * b - c * a;
  }

  /** Quotient and remainder are the only numbers that satisfy the division equation. */
  lemma DivModUnique(x: int, d: int, q: int, r: int)
    requires d > 0 && x == d * q + r && 0 <= r < d
    ensures x / d == q && x % d == r
  {
    var q0, r0 := x / d, x % d;
    assert d * (q - q0) == r0 - r && d * (q0 - q) == r - r0;
    if q > q0 {
      MulLe(d, 1, q - q0);
    } else if q < q0 {
      MulLe(d, 1, q0 - q);
    }
  }

  lemma MulModZero(p: nat, c: nat)
    requires p > 0
    ensures (p * c) % p == 0
  {
    DivModUnique(p * c, p, c, 0);
  }

  /** OR of a number whose low `k` bits are clear with one that fits in them is addition. */
  lemma {:induction false} OrDisjoint(a: nat, b: nat, k: nat)
    requires a % Pow2(k) == 0 && b < Pow2(k)
    ensures Or(a, b) == a + b
  {
    if k == 0 {
      OrZero(a);
    } else if a == 0 && b == 0 {
    } else {
      var p := Pow2(k - 1);
      assert 2 * p == Pow2(k);
      var c := a / (2 * p);
      assert a == 2 * p * c + a % (2 * p);
      assert a == 2 * (p * c);
      assert a / 2 == p * c;
      MulModZero(p, c);
      OrDisjoint(a / 2, b / 2, k - 1);
    }
  }

  /** Cancelling a positive factor. */
  lemma MulCancel(a: int, b: int, p: int)
    requires p > 0 && a * p < b * p
    ensures a < b
  {
    if a >= b {
      MulLe(p, b, a);
    }
  }

  /** The equation of a division with remainder. */
  lemma DivisionEquation(x: int, d: int)
    requires x >= 0 && d > 0
    ensures x == (x / d) * d + x % d && 0 <= x % d < d && x / d >= 0
  {
    if x / d < 0 {
      MulLe(d, x / d, -1);
    }
  }

  /** The quotient of a number below d * k is below k. */
  lemma DivBelow(x: nat, d: nat, k: nat)
    requires x < d * k
    ensures 0 <= x / d < k
  {
    DivisionEquation(x, d);
    assert d * k == k * d;
    MulCancel(x / d, k, d);
  }

  lemma HalveFirst(x: nat, p: nat)
    requires p > 0
    ensures x / (2 * p) == (x / 2) / p
  {
    var y := x / 2;
    var q := y / p;
    assert y == p * q + y % p;
    assert x == (2 * p) * q + (2 * (y % p) + x % 2);
    DivModUnique(x, 2 * p, q, 2 * (y % p) + x % 2);
  }

  /** OR with a power of two sets that bit. */
  lemma {:induction false} OrBit(x: nat, k: nat)
    ensures Or(x, Pow2(k)) == if x / Pow2(k) % 2 == 1 then x else x + Pow2(k)
  {
    if k == 0 {
      OrZero(x / 2);
      assert Or(x, 1) == 2 * Or(x / 2, 0) + 1;
    } else {
      var p := Pow2(k - 1);
      OrBit(x / 2, k - 1);
      assert Or(x, 2 * p) == 2 * Or(x / 2, p) + x % 2;
      HalveFirst(x, p);
    }
  }
}
