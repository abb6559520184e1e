/** Exclusive or of unsigned numbers, and how it meets shifting and masking. */
module Bitwise {
  import opened Words

  function Xor(a: nat, b: nat): nat
    decreases a + b
  {
    if a == 0 && b == 0 then 0
    else 2 * Xor(a / 2, b / 2) + (if a % 2 != b % 2 then 1 else 0)
  }

  /** Shifting right by one and the lowest bit, also at zero. */
  lemma XorHalf(a: nat, b: nat)
    ensures Xor(a, b) / 2 == Xor(a / 2, b / 2)
    ensures Xor(a, b) % 2 == if a % 2 != b % 2 then 1 else 0
  {
  }

  lemma {:induction false} XorZero(a: nat)
    ensures Xor(a, 0) == a
  {
    if a != 0 {
      XorZero(a / 2);
    }
  }

  lemma {:induction false} XorSelf(a: nat)
    ensures Xor(a, a) == 0
  {
    if a != 0 {
      XorSelf(a / 2);
    }
  }

  lemma {:induction false} XorCommutes(a: nat, b: nat)
    ensures Xor(a, b) == Xor(b, a)
    decreases a + b
  {
    if a != 0 || b != 0 {
      XorCommutes(a / 2, b / 2);
    }
  }

  lemma {:induction false} XorAssociates(a: nat, b: nat, c: nat)
    ensures Xor(Xor(a, b), c) == Xor(a, Xor(b, c))
    decreases a + b + c
  {
    if a != 0 || b != 0 || c != 0 {
      XorHalf(a, b);
      XorHalf(b, c);
      XorHalf(Xor(a, b), c);
      XorHalf(a, Xor(b, c));
      XorAssociates(a / 2, b / 2, c / 2);
    }
  }

  /** The inner two of four operands change places. */
  lemma XorSwap(a: nat, b: nat, c: nat, d: nat)
    ensures Xor(Xor(a, b), Xor(c, d)) == Xor(Xor(a, c), Xor(b, d))
  {
    XorAssociates(a, b, Xor(c, d));
    XorAssociates(b, c, d);
    XorCommutes(b, c);
    XorAssociates(c, b, d);
    XorAssociates(a, c, Xor(b, d));
  }

  /** Equal sums with one operand in common have the other in common. */
  lemma XorCancels(a: nat, b: nat, c: nat)
    requires Xor(a, c) == Xor(b, c)
    ensures a == b
  {
    XorAssociates(a, c, c);
    XorAssociates(b, c, c);
    XorSelf(c);
    XorZero(a);
    XorZero(b);
  }

  lemma {:induction false} XorBound(a: nat, b: nat, n: nat)
    requires a < Pow2(n) && b < Pow2(n)
    ensures Xor(a, b) < Pow2(n)
    decreases n
  {
    if n > 0 && (a != 0 || b != 0) {
      XorBound(a / 2, b / 2, n - 1);
    }
  }

  lemma HalfSplit(a: nat, c: nat, p: nat)
    ensures (2 * p) * a + c >= 0 && p * a + c / 2 >= 0
    ensures ((2 * p) * a + c) / 2 == p * a + c / 2 && ((2 * p) * a + c) % 2 == c % 2
  {
    assert (2 * p) * a == 2 * (p * a);
    MulLe(p, 0, a);
  }

  /** Exclusive or treats the low n bits and the others apart. */
  lemma {:induction false} XorSplits(a: nat, b: nat, n: nat, ha: nat, la: nat, hb: nat, lb: nat)
    requires a == Pow2(n) * ha + la && la < Pow2(n) && b == Pow2(n) * hb + lb && lb < Pow2(n)
    ensures Xor(a, b) == Pow2(n) * Xor(ha, hb) + Xor(la, lb)
    decreases n
  {
    if n > 0 {
      HalfSplit(ha, la, Pow2(n - 1));
      HalfSplit(hb, lb, Pow2(n - 1));
      XorSplits(a / 2, b / 2, n - 1, ha, la / 2, hb, lb / 2);
      XorHalf(a, b);
      XorHalf(la, lb);
      HalfSplit(Xor(ha, hb), Xor(la, lb), Pow2(n - 1));
    }
  }

  /** `a & (2^n - 1)`. */
  function Low(a: nat, n: nat): (r: nat)
    ensures r < Pow2(n)
  {
    DivisionEquation(a, Pow2(n));
    a % Pow2(n)
  }

  /** `a >> n`. */
  function High(a: nat, n: nat): nat {
    DivisionEquation(a, Pow2(n));
    a / Pow2(n)
  }

  lemma HighAndLow(a: nat, n: nat)
    ensures a == Pow2(n) * High(a, n) + Low(a, n)
  {
    DivisionEquation(a, Pow2(n));
  }

  lemma HighAndLowUnique(a: nat, n: nat, h: nat, l: nat)
    requires a == Pow2(n) * h + l && l < Pow2(n)
    ensures High(a, n) == h && Low(a, n) == l
  {
    DivModUnique(a, Pow2(n), h, l);
  }

  lemma HighIs(a: nat, n: nat) returns (h: nat, l: nat)
    ensures a == Pow2(n) * h + l && l < Pow2(n) && h == High(a, n) && l == Low(a, n)
  {
    HighAndLow(a, n);
    h, l := High(a, n), Low(a, n);
  }

  lemma SplitXor(a: nat, b: nat, n: nat, ha: nat, la: nat, hb: nat, lb: nat)
    requires a == Pow2(n) * ha + la && la < Pow2(n) && b == Pow2(n) * hb + lb && lb < Pow2(n)
    ensures Low(Xor(a, b), n) == Xor(la, lb) && High(Xor(a, b), n) == Xor(ha, hb)
  {
    var x, h, l := Xor(a, b), Xor(ha, hb), Xor(la, lb);
    assert x == Pow2(n) * h + l && l < Pow2(n) by {
      XorBound(la, lb, n);
      XorSplits(a, b, n, ha, la, hb, lb);
    }
    HighAndLowUnique(x, n, h, l);
  }

  /** Masking and shifting right distribute over exclusive or. */
  lemma XorShifts(a: nat, b: nat, n: nat)
    ensures Low(Xor(a, b), n) == Xor(Low(a, n), Low(b, n)) && High(Xor(a, b), n) == Xor(High(a, n), High(b, n))
  {
    var ha, la := HighIs(a, n);
    var hb, lb := HighIs(b, n);
    SplitXor(a, b, n, ha, la, hb, lb);
  }

  /** Shifting left distributes over exclusive or. */
  lemma XorShiftsLeft(a: nat, b: nat, n: nat)
    ensures Pow2(n) * a >= 0 && Pow2(n) * b >= 0
    ensures Xor(Pow2(n) * a, Pow2(n) * b) == Pow2(n) * Xor(a, b)
  {
    MulLe(Pow2(n), 0, a);
    MulLe(Pow2(n), 0, b);
    XorSplits(Pow2(n) * a, Pow2(n) * b, n, a, 0, b, 0);
  }

  /** Where no bits meet, exclusive or is addition. */
  lemma XorDisjoint(a: nat, c: nat, n: nat)
    requires c < Pow2(n)
    ensures Pow2(n) * a >= 0 && Xor(Pow2(n) * a, c) == Pow2(n) * a + c
  {
    MulLe(Pow2(n), 0, a);
    XorSplits(Pow2(n) * a, c, n, a, 0, 0, c);
    XorZero(a);
    XorCommutes(0, c);
    XorZero(c);
  }

  // ---------- hexadecimal digits ----------

  /** The number with the first n hexadecimal digits of w. */
  function Hex(w: seq<nat>, n: nat): nat
    requires n <= |w|
  {
    if n == 0 then 0 else 16 * Hex(w, n - 1) + w[n - 1]
  }

  lemma HexOfEight(w: seq<nat>)
    requires |w| == 8
    ensures Hex(w, 8) == 16 * (16 * (16 * (16 * (16 * (16 * (16 * w[0] + w[1]) + w[2]) + w[3]) + w[4]) + w[5]) + w[6]) + w[7]
  {
    assert Hex(w, 0) == 0 && Hex(w, 1) == w[0];
    assert Hex(w, 2) == 16 * w[0] + w[1];
    assert Hex(w, 4) == 16 * (16 * Hex(w, 2) + w[2]) + w[3];
    assert Hex(w, 6) == 16 * (16 * Hex(w, 4) + w[4]) + w[5];
  }

  /** Exclusive or of two digits. */
  function XorNibble(a: nat, b: nat): nat {
    (if a / 8 % 2 != b / 8 % 2 then 8 else 0) + (if a / 4 % 2 != b / 4 % 2 then 4 else 0) +
    (if a / 2 % 2 != b / 2 % 2 then 2 else 0) + (if a % 2 != b % 2 then 1 else 0)
  }

  lemma NibbleXor(a: nat, b: nat)
    requires a < 16 && b < 16
    ensures Xor(a, b) == XorNibble(a, b)
  {
    XorHalf(a, b);
    XorHalf(a / 2, b / 2);
    XorHalf(a / 4, b / 4);
    XorHalf(a / 8, b / 8);
    assert a / 2 / 2 == a / 4 && a / 4 / 2 == a / 8;
    assert b / 2 / 2 == b / 4 && b / 4 / 2 == b / 8;
    XorZero(0);
  }

  /** A bit of a digit added to the bits below it. */
  lemma NibbleSum(h: nat, r: nat)
    requires (h == 2 || h == 4 || h == 8) && 0 < r < h
    ensures Xor(h, r) == h + r
  {
    NibbleXor(h, r);
  }

  /** Digit by digit z is the exclusive or of x and y. */
  ghost predicate HexXor(x: seq<nat>, y: seq<nat>, z: seq<nat>) {
    |x| == |y| == |z| && forall k :: 0 <= k < |x| ==> x[k] < 16 && y[k] < 16 && z[k] == XorNibble(x[k], y[k])
  }

  lemma {:induction false} XorHex(x: seq<nat>, y: seq<nat>, z: seq<nat>, n: nat)
    requires HexXor(x, y, z) && n <= |x|
    ensures Xor(Hex(x, n), Hex(y, n)) == Hex(z, n)
  {
    if n > 0 {
      XorHex(x, y, z, n - 1);
      NibbleXor(x[n - 1], y[n - 1]);
      assert Pow2(4) == 16;
      XorSplits(Hex(x, n), Hex(y, n), 4, Hex(x, n - 1), x[n - 1], Hex(y, n - 1), y[n - 1]);
    }
  }
}
