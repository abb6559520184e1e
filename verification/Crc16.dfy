/** The CRC of the IEEE 1212 configuration ROM (standalone/crc16.c): a step per nibble with an
    accumulator whose high bits are never masked, against polynomial division. */
module Crc16 {
  import opened Words
  import opened Bits
  import opened Bitwise

  /** x^12 + x^5 + 1; with the x^16 it is the divisor. */
  const POLYNOMIAL := 0x1021
  const DIVISOR := 0x1_1021
  const LIMIT := 0x1_0000

  // ---------- one bit at a time ----------

  /** One more bit of the message, most significant first. */
  function BitStep(c: nat, b: bit): (r: nat) {
    var moved := c * 2 % LIMIT;
    if c / 0x8000 % 2 != b then Xor(moved, POLYNOMIAL) else moved
  }

  /** The register after the first n bits of w. */
  ghost function Register(c: nat, w: bits, n: nat): nat
    requires n <= |w|
  {
    if n == 0 then c else BitStep(Register(c, w, n - 1), w[n - 1])
  }

  /** The register after the first n quadlets. */
  ghost function Quadlets(c: nat, data: seq<u32>, n: nat): nat
    requires n <= |data|
  {
    if n == 0 then c else Register(Quadlets(c, data, n - 1), Msb(data[n - 1], 32), 32)
  }

  ghost function Crc(data: seq<u32>): nat {
    Quadlets(0, data, |data|)
  }

  lemma BitStepBound(c: nat, b: bit)
    ensures BitStep(c, b) < LIMIT
  {
    Pow2Values();
    XorBound(c * 2 % LIMIT, POLYNOMIAL, 16);
  }

  lemma {:induction false} RegisterBound(c: nat, w: bits, n: nat)
    requires n <= |w| && c < LIMIT
    ensures Register(c, w, n) < LIMIT
  {
    if n > 0 {
      BitStepBound(Register(c, w, n - 1), w[n - 1]);
    }
  }

  // ---------- linearity ----------

  function XorBit(a: bit, b: bit): bit {
    if a != b then 1 else 0
  }

  lemma MovedIsLow(c: nat)
    ensures c * 2 % LIMIT == Low(2 * c, 16) && c / 0x8000 == High(c, 15)
  {
    assert Pow2(16) == LIMIT && Pow2(15) == 0x8000 by {
      Pow2Values();
    }
  }

  lemma DoubleSum(a: nat, b: nat)
    ensures Xor(2 * a, 2 * b) == 2 * Xor(a, b)
  {
    XorHalf(2 * a, 2 * b);
  }

  /** The shifted register and the top bit of a sum. */
  lemma MovedSum(a: nat, b: nat)
    ensures Xor(a, b) * 2 % LIMIT == Xor(a * 2 % LIMIT, b * 2 % LIMIT)
    ensures Xor(a, b) / 0x8000 % 2 == if a / 0x8000 % 2 != b / 0x8000 % 2 then 1 else 0
  {
    MovedIsLow(a);
    MovedIsLow(b);
    MovedIsLow(Xor(a, b));
    DoubleSum(a, b);
    XorShifts(2 * a, 2 * b, 16);
    XorShifts(a, b, 15);
    XorHalf(High(a, 15), High(b, 15));
  }

  lemma SumWithPolynomial(p: nat, q: nat)
    ensures Xor(Xor(p, POLYNOMIAL), Xor(q, POLYNOMIAL)) == Xor(p, q)
    ensures Xor(Xor(p, POLYNOMIAL), q) == Xor(Xor(p, q), POLYNOMIAL)
    ensures Xor(p, Xor(q, POLYNOMIAL)) == Xor(Xor(p, q), POLYNOMIAL)
  {
    XorSwap(p, POLYNOMIAL, q, POLYNOMIAL);
    XorSelf(POLYNOMIAL);
    XorZero(Xor(p, q));
    XorAssociates(p, POLYNOMIAL, q);
    XorCommutes(POLYNOMIAL, q);
    XorAssociates(p, q, POLYNOMIAL);
  }

  lemma BitStepLinear(c: nat, d: nat, a: bit, b: bit)
    ensures BitStep(Xor(c, d), XorBit(a, b)) == Xor(BitStep(c, a), BitStep(d, b))
  {
    MovedSum(c, d);
    SumWithPolynomial(c * 2 % LIMIT, d * 2 % LIMIT);
  }

  /** Exclusive or of bit strings. */
  ghost function XorBits(v: bits, w: bits): (r: bits)
    requires |v| == |w|
    ensures |r| == |v|
  {
    seq(|v|, i requires 0 <= i < |v| => XorBit(v[i], w[i]))
  }

  lemma {:induction false} RegisterLinear(c: nat, d: nat, v: bits, w: bits, n: nat)
    requires |v| == |w| && n <= |v|
    ensures Register(Xor(c, d), XorBits(v, w), n) == Xor(Register(c, v, n), Register(d, w, n))
  {
    if n > 0 {
      RegisterLinear(c, d, v, w, n - 1);
      BitStepLinear(Register(c, v, n - 1), Register(d, w, n - 1), v[n - 1], w[n - 1]);
    }
  }

  ghost function Zeros(n: nat): (w: bits)
    ensures |w| == n
  {
    seq(n, i => 0)
  }

  lemma StepUp(c: nat)
    requires c < 0x8000
    ensures BitStep(c, 0) == 2 * c
  {
  }

  lemma Doubled(c: nat, n: nat)
    requires n > 0
    ensures c * Pow2(n - 1) >= 0 && c * Pow2(n) == 2 * (c * Pow2(n - 1))
  {
    MulLe(Pow2(n - 1), 0, c);
    assert c * (2 * Pow2(n - 1)) == 2 * (c * Pow2(n - 1));
  }

  /** As long as nothing reaches the top, the register just moves on. */
  lemma {:induction false} RegisterShift(c: nat, w: bits, n: nat)
    requires n <= |w| && n <= 16 && c * Pow2(n) < LIMIT && forall i :: 0 <= i < n ==> w[i] == 0
    ensures Register(c, w, n) == c * Pow2(n)
  {
    if n == 0 {
      assert c * Pow2(0) == c;
    } else {
      Doubled(c, n);
      RegisterShift(c, w, n - 1);
      StepUp(Register(c, w, n - 1));
    }
  }

  lemma {:induction false} RegisterOfPrefix(c: nat, v: bits, w: bits, n: nat)
    requires n <= |v|
    ensures Register(c, v + w, n) == Register(c, v, n)
  {
    if n > 0 {
      RegisterOfPrefix(c, v, w, n - 1);
    }
  }

  lemma BitParts(h: nat, b: bit, p: nat)
    requires p > 0
    ensures 0 <= p * b < 2 * p && p * (2 * h + b) == (2 * p) * h + p * b
  {
    assert p * b == if b == 1 then p else 0;
    assert p * (2 * h) == (2 * p) * h;
  }

  lemma BitBelow(h: nat, b: bit, p: nat, k: nat)
    requires p == Pow2(k)
    ensures (2 * p) * h >= 0 && p * b >= 0 && p * (2 * h + b) == Xor((2 * p) * h, p * b)
  {
    assert Pow2(k + 1) == 2 * p;
    BitParts(h, b, p);
    XorDisjoint(h, p * b, k + 1);
  }

  /** A single bit reaches the top in n - 1 steps. */
  lemma TopBit(b: bit, n: nat)
    requires 0 < n <= 16
    ensures Pow2(16 - n) * b >= 0 && Register(Pow2(16 - n) * b, Zeros(n - 1), n - 1) == b * 0x8000
  {
    assert Pow2(15) == 0x8000 by {
      Pow2Values();
    }
    Pow2Add(16 - n, n - 1);
    var c: nat := if b == 1 then Pow2(16 - n) else 0;
    assert Pow2(16 - n) * b == c && c * Pow2(n - 1) == b * 0x8000;
    RegisterShift(c, Zeros(n - 1), n - 1);
  }

  lemma SumOfZeros(c: nat, d: nat, n: nat)
    ensures Register(Xor(c, d), Zeros(n), n) == Xor(Register(c, Zeros(n), n), Register(d, Zeros(n), n))
  {
    RegisterLinear(c, d, Zeros(n), Zeros(n), n);
    assert XorBits(Zeros(n), Zeros(n)) == Zeros(n);
  }

  lemma TopLeaves(c: nat)
    requires c == 0x8000
    ensures BitStep(c, 1) == 0
  {
  }

  /** A bit of the message is a bit at the top of the register. */
  lemma InputBit(r: nat, b: bit)
    ensures BitStep(Xor(r, b * 0x8000), 0) == BitStep(r, b)
  {
    if b == 0 {
      XorZero(r);
    } else {
      var top: nat := b * 0x8000;
      BitStepLinear(r, top, 1, 1);
      TopLeaves(top);
      XorZero(BitStep(r, 1));
    }
  }

  /** One more bit of the message, where the first n - 1 have entered as a state. */
  lemma InputNext(r: nat, h: nat, b: bit, p: nat, n: nat)
    requires 0 < n <= 16 && p == Pow2(16 - n) && r == Register(2 * p * h, Zeros(n - 1), n - 1)
    ensures p * (2 * h + b) >= 0 && BitStep(r, b) == Register(p * (2 * h + b), Zeros(n), n)
  {
    BitBelow(h, b, p, 16 - n);
    TopBit(b, n);
    SumOfZeros(2 * p * h, p * b, n - 1);
    RegisterOfPrefix(p * (2 * h + b), Zeros(n - 1), [0], n - 1);
    assert Zeros(n) == Zeros(n - 1) + [0];
    InputBit(r, b);
  }

  /** A message that enters an empty register might as well have stood in it from the start. */
  lemma {:induction false} InputAsState(x: nat, n: nat)
    requires n <= 16 && x < Pow2(n)
    ensures Pow2(16 - n) * x >= 0
    ensures Register(0, Msb(x, n), n) == Register(Pow2(16 - n) * x, Zeros(n), n)
  {
    MulLe(Pow2(16 - n), 0, x);
    if n > 0 {
      var h, b, p := x / 2, x % 2, Pow2(16 - n);
      InputAsState(h, n - 1);
      RegisterOfPrefix(0, Msb(h, n - 1), [b], n - 1);
      assert Pow2(17 - n) == 2 * p && x == 2 * h + b;
      InputNext(Register(2 * p * h, Zeros(n - 1), n - 1), h, b, p, n);
    }
  }

  /** So a message is added to the register, and then moves on with it. */
  lemma MessageAsState(c: nat, x: nat, n: nat)
    requires n <= 16 && x < Pow2(n)
    ensures Pow2(16 - n) * x >= 0
    ensures Register(c, Msb(x, n), n) == Register(Xor(c, Pow2(16 - n) * x), Zeros(n), n)
  {
    InputAsState(x, n);
    var w := Msb(x, n);
    RegisterLinear(c, 0, Zeros(n), w, n);
    assert XorBits(Zeros(n), w) == w;
    XorZero(c);
    SumOfZeros(c, Pow2(16 - n) * x, n);
  }

  // ---------- four bits at a time ----------

  /** What four steps make of the top nibble s. */
  function Fold(s: nat): nat {
    Xor(Xor(0x1000 * s, 0x20 * s), s)
  }

  lemma FoldLinear(s: nat, t: nat)
    ensures Fold(Xor(s, t)) == Xor(Fold(s), Fold(t))
  {
    assert Pow2(12) == 0x1000 && Pow2(5) == 0x20;
    XorShiftsLeft(s, t, 12);
    XorShiftsLeft(s, t, 5);
    XorSwap(0x1000 * s, 0x1000 * t, 0x20 * s, 0x20 * t);
    XorSwap(Xor(0x1000 * s, 0x20 * s), Xor(0x1000 * t, 0x20 * t), s, t);
  }

  lemma XorNothing(z: nat, a: nat)
    requires z == 0
    ensures Xor(z, a) == a
  {
    XorCommutes(z, a);
    XorZero(a);
  }

  lemma StepOver(c: nat)
    requires c == 0x8000
    ensures BitStep(c, 0) == POLYNOMIAL
  {
    var p: nat := POLYNOMIAL;
    var moved := c * 2 % LIMIT;
    XorNothing(moved, p);
  }

  lemma DisjointCopies(a: nat, c: nat, k: nat, p: nat)
    requires k <= 12 && p == Pow2(k) && c < p
    ensures p * a >= 0 && Xor(p * a, c) == p * a + c
  {
    XorDisjoint(a, c, k);
  }

  /** For a single bit the three copies do not overlap. */
  lemma FoldIs(s: nat)
    requires s == 1 || s == 2 || s == 4 || s == 8
    ensures Fold(s) == POLYNOMIAL * s
  {
    DisjointCopies(s, 0x20 * s, 12, 0x1000);
    DisjointCopies(0x80 * s + s, s, 5, 0x20);
  }

  lemma FourSteps(c: nat)
    ensures Register(c, Zeros(4), 4) == BitStep(BitStep(BitStep(BitStep(c, 0), 0), 0), 0)
  {
    var w := Zeros(4);
    assert Register(c, w, 0) == c && Register(c, w, 1) == BitStep(c, 0);
    assert Register(c, w, 2) == BitStep(BitStep(c, 0), 0);
    assert Register(c, w, 3) == BitStep(BitStep(BitStep(c, 0), 0), 0);
  }

  /** A single bit moves to the top, leaves the polynomial behind, and that moves on. */
  lemma FoldOfBit(s: nat, k: nat)
    requires k < 4 && s == Pow2(k)
    ensures Register(0x1000 * s, Zeros(4), 4) == Fold(s)
  {
    Pow2Monotone(k, 3);
    var c := 0x1000 * s;
    FoldIs(s);
    FourSteps(c);
    if s < 8 {
      StepUp(c);
    } else {
      StepOver(c);
    }
    var c1 := BitStep(c, 0);
    if s == 4 {
      StepOver(c1);
    } else {
      StepUp(c1);
    }
    var c2 := BitStep(c1, 0);
    if s == 2 {
      StepOver(c2);
    } else {
      StepUp(c2);
    }
    var c3 := BitStep(c2, 0);
    if s == 1 {
      StepOver(c3);
    } else {
      StepUp(c3);
    }
  }

  lemma FoldOfNothing(s: nat)
    requires s == 0
    ensures Register(0x1000 * s, Zeros(4), 4) == Fold(s)
  {
    FourSteps(s);
    XorZero(s);
  }

  lemma TopSum(h: nat, r: nat)
    requires Xor(h, r) == h + r
    ensures Xor(0x1000 * h, 0x1000 * r) == 0x1000 * (h + r)
  {
    assert Pow2(12) == 0x1000;
    XorShiftsLeft(h, r, 12);
  }

  lemma FoldOfSum(h: nat, r: nat)
    requires Xor(h, r) == h + r
    requires Register(0x1000 * h, Zeros(4), 4) == Fold(h) && Register(0x1000 * r, Zeros(4), 4) == Fold(r)
    ensures Register(0x1000 * (h + r), Zeros(4), 4) == Fold(h + r)
  {
    var a, b, f, g := 0x1000 * h, 0x1000 * r, Fold(h), Fold(r);
    assert Fold(h + r) == Xor(f, g) by {
      FoldLinear(h, r);
    }
    assert Xor(a, b) == 0x1000 * (h + r) by {
      TopSum(h, r);
    }
    SumOfZeros(a, b, 4);
  }

  lemma {:induction false} FoldIsFourSteps(s: nat)
    requires s < 16
    ensures Register(0x1000 * s, Zeros(4), 4) == Fold(s)
  {
    if s == 0 {
      FoldOfNothing(s);
    } else if s == 1 || s == 2 || s == 4 || s == 8 {
      FoldOfBit(s, if s == 1 then 0 else if s == 2 then 1 else if s == 4 then 2 else 3);
    } else {
      var h := if s < 4 then 2 else if s < 8 then 4 else 8;
      NibbleSum(h, s - h);
      FoldIsFourSteps(h);
      FoldIsFourSteps(s - h);
      FoldOfSum(h, s - h);
    }
  }

  /** `sum`: the top nibble of the 16 low bits, plus a nibble of the message. */
  function NibbleSumOf(acc: u32, d: nat): nat {
    Low(Xor(High(acc, 12), d), 4)
  }

  /** `(crc << 4) ^ (sum << 12) ^ (sum << 5) ^ sum`, in 32 bits. */
  function NibbleStep(acc: u32, sum: nat): nat {
    Xor(Xor(Xor(Wrap32(16 * acc), 0x1000 * sum), 0x20 * sum), sum)
  }

  lemma NibbleMessage(c: nat, d: nat)
    requires d < 16
    ensures Register(c, Msb(d, 4), 4) == Register(Xor(c, 0x1000 * d), Zeros(4), 4)
  {
    assert Pow2(4) == 16 && Pow2(12) == 0x1000;
    MessageAsState(c, d, 4);
  }

  lemma NibbleAbove(s: nat, l: nat)
    requires s < 16 && l < 0x1000
    ensures Xor(0x1000 * s, l) == 0x1000 * s + l
  {
    assert Pow2(12) == 0x1000;
    XorDisjoint(s, l, 12);
  }

  lemma LowShifted(l: nat)
    requires l < 0x1000
    ensures Register(l, Zeros(4), 4) == 16 * l
  {
    assert Pow2(4) == 16;
    RegisterShift(l, Zeros(4), 4);
  }

  lemma RegisterOfNibble(s: nat, l: nat)
    requires s < 16 && l < 0x1000
    ensures Register(0x1000 * s + l, Zeros(4), 4) == Xor(16 * l, Fold(s))
  {
    NibbleAbove(s, l);
    SumOfZeros(0x1000 * s, l, 4);
    FoldIsFourSteps(s);
    LowShifted(l);
    XorCommutes(16 * l, Fold(s));
  }

  lemma LowOfLow(acc: u32)
    ensures Low(acc, 16) == 0x1000 * Low(High(acc, 12), 4) + Low(acc, 12)
  {
    assert Pow2(16) == 0x1_0000 by {
      Pow2Values();
    }
    assert Pow2(4) == 16 && Pow2(12) == 0x1000;
    var h, l := HighIs(acc, 12);
    var hh, hl := HighIs(h, 4);
    HighAndLowUnique(acc, 16, hh, 0x1000 * hl + l);
  }

  /** The nibble is added to the top of the register. */
  lemma NibbleMerge(acc: u32, d: nat)
    requires d < 16
    ensures Low(acc, 12) < 0x1000 && NibbleSumOf(acc, d) < 16
    ensures Xor(Low(acc, 16), 0x1000 * d) == 0x1000 * NibbleSumOf(acc, d) + Low(acc, 12)
  {
    assert Pow2(4) == 16 && Pow2(12) == 0x1000;
    XorShifts(High(acc, 12), d, 4);
    HighAndLowUnique(d, 4, 0, d);
    var t, l := Low(High(acc, 12), 4), Low(acc, 12);
    LowOfLow(acc);
    XorSplits(Low(acc, 16), 0x1000 * d, 12, t, l, d, 0);
    XorZero(l);
  }

  lemma SmallIsLow(x: nat)
    requires x < 0x1_0000
    ensures Low(x, 16) == x
  {
    assert Pow2(16) == 0x1_0000 by {
      Pow2Values();
    }
    HighAndLowUnique(x, 16, 0, x);
  }

  lemma ShiftedLow(acc: u32)
    ensures Low(Wrap32(16 * acc), 16) == 16 * Low(acc, 12)
  {
    assert Pow2(16) == 0x1_0000 by {
      Pow2Values();
    }
    assert Pow2(12) == 0x1000;
    var h, l := HighIs(acc, 12);
    var top, rest := h / 0x1_0000, 0x1_0000 * (h % 0x1_0000) + 16 * l;
    assert 16 * acc == WORD32 * top + rest;
    DivModUnique(16 * acc, WORD32, top, rest);
    HighAndLowUnique(rest, 16, h % 0x1_0000, 16 * l);
  }

  /** The low 16 bits of a nibble step. */
  lemma LowOfStep(acc: u32, s: nat)
    requires s < 16
    ensures Low(NibbleStep(acc, s), 16) == Xor(16 * Low(acc, 12), Fold(s))
  {
    var a, b, c := Wrap32(16 * acc), 0x1000 * s, 0x20 * s;
    SmallIsLow(b);
    SmallIsLow(c);
    SmallIsLow(s);
    XorShifts(Xor(Xor(a, b), c), s, 16);
    XorShifts(Xor(a, b), c, 16);
    XorShifts(a, b, 16);
    ShiftedLow(acc);
    var m := 16 * Low(acc, 12);
    XorAssociates(m, b, c);
    XorAssociates(m, Xor(b, c), s);
  }

  /** A nibble step is four bit steps on the low 16 bits, whatever stands above them. */
  lemma NibbleIsFourBits(acc: u32, d: nat)
    requires d < 16
    ensures Low(NibbleStep(acc, NibbleSumOf(acc, d)), 16) == Register(Low(acc, 16), Msb(d, 4), 4)
  {
    var s, l := NibbleSumOf(acc, d), Low(acc, 12);
    NibbleMerge(acc, d);
    LowOfStep(acc, s);
    NibbleMessage(Low(acc, 16), d);
    RegisterOfNibble(s, l);
  }

  // ---------- the program ----------

  lemma {:induction false} RegisterConcat(c: nat, v: bits, w: bits, n: nat)
    requires n <= |w|
    ensures Register(c, v + w, |v| + n) == Register(Register(c, v, |v|), w, n)
  {
    if n == 0 {
      RegisterOfPrefix(c, v, w, |v|);
    } else {
      RegisterConcat(c, v, w, n - 1);
    }
  }

  lemma HalfParts(y: nat, m: nat)
    requires m > 0
    ensures High(y / 2, m - 1) == High(y, m) && Low(y, m) == 2 * Low(y / 2, m - 1) + y % 2
  {
    var h, l := HighIs(y / 2, m - 1);
    var p := Pow2(m - 1);
    assert y == 2 * (p * h) + (2 * l + y % 2);
    assert (2 * p) * h == 2 * (p * h);
    HighAndLowUnique(y, m, h, 2 * l + y % 2);
  }

  lemma {:induction false} MsbSplit(y: nat, n: nat, m: nat)
    ensures Msb(y, n + m) == Msb(High(y, m), n) + Msb(Low(y, m), m)
  {
    if m == 0 {
      assert Pow2(0) == 1;
    } else {
      MsbSplit(y / 2, n, m - 1);
      HalfParts(y, m);
    }
  }

  lemma NestedParts(p: nat, q: nat, hh: nat, hl: nat, l: nat)
    ensures p * (q * hh + hl) + l == (p * q) * hh + (p * hl + l)
  {
    assert p * (q * hh + hl) == p * (q * hh) + p * hl;
    assert p * (q * hh) == (p * q) * hh;
  }

  lemma LowJoin(h: nat, l: nat, p: nat, q: nat)
    requires h < q && l < p
    ensures 0 <= p * h + l < p * q
  {
    MulLe(p, 0, h);
    MulLe(p, h, q - 1);
    assert p * (q - 1) == p * q - p;
  }

  lemma HighHigh(x: nat, a: nat, b: nat)
    ensures High(High(x, a), b) == High(x, a + b)
  {
    var h, l := HighIs(x, a);
    var hh, hl := HighIs(h, b);
    Pow2Add(a, b);
    LowJoin(hl, l, Pow2(a), Pow2(b));
    NestedParts(Pow2(a), Pow2(b), hh, hl, l);
    HighAndLowUnique(x, a + b, hh, Pow2(a) * hl + l);
  }

  /** The sum is masked, so the message need not be. */
  lemma UnmaskedNibble(acc: u32, d: nat)
    ensures NibbleSumOf(acc, d) == NibbleSumOf(acc, Low(d, 4))
  {
    XorShifts(High(acc, 12), d, 4);
    XorShifts(High(acc, 12), Low(d, 4), 4);
    HighAndLowUnique(Low(d, 4), 4, 0, Low(d, 4));
  }

  /** After n more bits have been taken from the top of x. */
  ghost predicate Taken(acc: u32, c: nat, x: u32, n: nat) {
    n <= 32 && Low(acc, 16) == Register(c, Msb(High(x, 32 - n), n), n)
  }

  lemma TakenNext(acc: u32, acc': u32, c: nat, x: u32, n: nat)
    requires n <= 28 && Taken(acc, c, x, n) && acc' == NibbleStep(acc, NibbleSumOf(acc, High(x, 28 - n)))
    ensures Taken(acc', c, x, n + 4)
  {
    var y := High(x, 28 - n);
    assert Pow2(4) == 16;
    UnmaskedNibble(acc, y);
    NibbleIsFourBits(acc, Low(y, 4));
    MsbSplit(y, n, 4);
    HighHigh(x, 28 - n, 4);
    RegisterConcat(c, Msb(High(y, 4), n), Msb(Low(y, 4), 4), 4);
  }

  lemma NibbleStepWord(acc: u32, sum: nat)
    requires sum < 16
    ensures 0 <= NibbleStep(acc, sum) < WORD32
  {
    Pow2Values();
    XorBound(Wrap32(16 * acc), 0x1000 * sum, 32);
    XorBound(Xor(Wrap32(16 * acc), 0x1000 * sum), 0x20 * sum, 32);
    XorBound(Xor(Xor(Wrap32(16 * acc), 0x1000 * sum), 0x20 * sum), sum, 32);
  }

  /** The body of the loop. */
  method NibbleTurn(acc: u32, data: u32, shift: nat, ghost crc: nat) returns (acc': u32)
    requires shift <= 28 && Taken(acc, crc, data, 28 - shift)
    ensures Taken(acc', crc, data, 32 - shift)
  {
    var sum := NibbleSumOf(acc, High(data, shift));
    assert sum < 16 by {
      assert Pow2(4) == 16;
    }
    NibbleStepWord(acc, sum);
    acc' := NibbleStep(acc, sum);
    TakenNext(acc, acc', crc, data, 28 - shift);
  }

  lemma TakenNone(c: u32, x: u32)
    requires c < LIMIT
    ensures Taken(c, c, x, 0)
  {
    SmallIsLow(c);
  }

  lemma HighOfNothing(x: nat)
    ensures High(x, 0) == x
  {
    assert Pow2(0) == 1;
  }

  lemma TakenAll(acc: u32, c: nat, x: u32)
    requires Taken(acc, c, x, 32) && c < LIMIT
    ensures Low(acc, 16) == Register(c, Msb(x, 32), 32) < LIMIT
  {
    HighOfNothing(x);
    RegisterBound(c, Msb(x, 32), 32);
  }

  /** crc16_step. */
  method Crc16Step(crc: u32, data: u32) returns (r: u32)
    requires crc < LIMIT
    ensures r == Register(crc, Msb(data, 32), 32) < LIMIT
  {
    var acc := crc;
    var shift: int := 28;
    ghost var k: nat := 0;
    TakenNone(crc, data);
    while shift >= 0
      invariant k <= 8 && shift == 28 - 4 * k
      invariant Taken(acc, crc, data, 4 * k)
      decreases shift
    {
      acc := NibbleTurn(acc, data, shift, crc);
      shift := shift - 4;
      k := k + 1;
    }
    assert k == 8;
    TakenAll(acc, crc, data);
    r := Low(acc, 16);
  }

  /** crc16. */
  method Crc16(data: seq<u32>) returns (r: u32)
    ensures r == Crc(data) < LIMIT
  {
    r := 0;
    var i := 0;
    while i < |data|
      invariant 0 <= i <= |data| && r == Quadlets(0, data, i) < LIMIT
    {
      r := Crc16Step(r, data[i]);
      i := i + 1;
    }
  }

  // ---------- what the CRC is good for ----------

  ghost function XorWord(a: u32, b: u32): u32 {
    Pow2Values();
    XorBound(a, b, 32);
    Xor(a, b)
  }

  ghost function XorQuadlets(v: seq<u32>, w: seq<u32>): (r: seq<u32>)
    requires |v| == |w|
    ensures |r| == |v|
  {
    seq(|v|, i requires 0 <= i < |v| => XorWord(v[i], w[i]))
  }

  lemma {:induction false} MsbSum(a: nat, b: nat, n: nat)
    ensures Msb(Xor(a, b), n) == XorBits(Msb(a, n), Msb(b, n))
  {
    if n > 0 {
      XorHalf(a, b);
      MsbSum(a / 2, b / 2, n - 1);
    }
  }

  /** The CRC is linear over exclusive or of messages of equal length. */
  lemma {:induction false} QuadletsLinear(c: nat, d: nat, v: seq<u32>, w: seq<u32>, n: nat)
    requires |v| == |w| && n <= |v|
    ensures Quadlets(Xor(c, d), XorQuadlets(v, w), n) == Xor(Quadlets(c, v, n), Quadlets(d, w, n))
  {
    if n > 0 {
      QuadletsLinear(c, d, v, w, n - 1);
      MsbSum(v[n - 1], w[n - 1], 32);
      RegisterLinear(Quadlets(c, v, n - 1), Quadlets(d, w, n - 1), Msb(v[n - 1], 32), Msb(w[n - 1], 32), 32);
    }
  }

  lemma CrcLinear(v: seq<u32>, w: seq<u32>)
    requires |v| == |w|
    ensures Crc(XorQuadlets(v, w)) == Xor(Crc(v), Crc(w))
  {
    XorZero(0);
    QuadletsLinear(0, 0, v, w, |v|);
  }

  lemma {:induction false} QuadletsBound(data: seq<u32>, n: nat)
    requires n <= |data|
    ensures Quadlets(0, data, n) < LIMIT
  {
    if n > 0 {
      QuadletsBound(data, n - 1);
      RegisterBound(Quadlets(0, data, n - 1), Msb(data[n - 1], 32), 32);
    }
  }

  lemma {:induction false} QuadletsPrefix(c: nat, data: seq<u32>, x: u32, n: nat)
    requires n <= |data|
    ensures Quadlets(c, data + [x], n) == Quadlets(c, data, n)
  {
    if n > 0 {
      QuadletsPrefix(c, data, x, n - 1);
    }
  }

  lemma {:induction false} MsbOfZero(n: nat)
    ensures forall i :: 0 <= i < n ==> Msb(0, n)[i] == 0
  {
    if n > 0 {
      MsbOfZero(n - 1);
    }
  }

  /** The register is cleared by its own bits and stays so. */
  lemma Cancelled(c: nat, x: nat)
    requires c < LIMIT && x == c * 0x1_0000
    ensures Register(c, Msb(x, 32), 32) == 0
  {
    assert Pow2(16) == 0x1_0000 by {
      Pow2Values();
    }
    HighAndLowUnique(x, 16, c, 0);
    MsbSplit(x, 16, 16);
    RegisterConcat(c, Msb(c, 16), Msb(0, 16), 16);
    assert Register(c, Msb(c, 16), 16) == 0 by {
      assert Pow2(0) == 1;
      MessageAsState(c, c, 16);
      XorSelf(c);
      RegisterShift(0, Zeros(16), 16);
    }
    MsbOfZero(16);
    RegisterShift(0, Msb(0, 16), 16);
  }

  /** A message with its own CRC in the top half of one more quadlet has CRC 0. */
  lemma CrcAppended(data: seq<u32>)
    ensures Crc(data) * 0x1_0000 < WORD32 && Crc(data + [Crc(data) * 0x1_0000]) == 0
  {
    QuadletsBound(data, |data|);
    var c := Crc(data);
    var x: u32 := c * 0x1_0000;
    QuadletsPrefix(0, data, x, |data|);
    assert Crc(data + [x]) == Register(c, Msb(x, 32), 32);
    Cancelled(c, x);
  }

  // ---------- the remainder of a polynomial division ----------

  /** Multiplication of polynomials with coefficients modulo 2. */
  ghost function Product(q: nat, g: nat): nat {
    if q == 0 then 0 else Xor(2 * Product(q / 2, g), if q % 2 == 1 then g else 0)
  }

  /** q is the quotient and r the remainder of m x^16 by the divisor. */
  ghost predicate Divides(m: nat, q: nat, r: nat) {
    r < LIMIT && Xor(Product(q, DIVISOR), r) == m * 0x1_0000
  }

  /** r is the remainder of m x^16 by the divisor. */
  ghost predicate IsRemainder(m: nat, r: nat) {
    exists q: nat :: Divides(m, q, r)
  }

  lemma DivisorSum(moved: nat)
    requires moved < LIMIT
    ensures Xor(DIVISOR, Xor(moved, POLYNOMIAL)) == 0x1_0000 + moved
  {
    assert Pow2(16) == 0x1_0000 by {
      Pow2Values();
    }
    var p: nat, x := POLYNOMIAL, Xor(moved, POLYNOMIAL);
    XorBound(moved, p, 16);
    XorSplits(DIVISOR, x, 16, 1, p, 0, x);
    XorZero(1);
    XorCommutes(p, x);
    XorAssociates(moved, p, p);
    XorSelf(p);
    XorZero(moved);
  }

  /** Moving the divisor from the remainder to the quotient's product. */
  lemma SubtractDivisor(p: nat, moved: nat)
    requires moved < LIMIT
    ensures Xor(Xor(p, DIVISOR), Xor(moved, POLYNOMIAL)) == Xor(p, 0x1_0000 + moved)
  {
    DivisorSum(moved);
    XorAssociates(p, DIVISOR, Xor(moved, POLYNOMIAL));
  }

  lemma ProductParts(a: nat, g: nat)
    ensures Product(a, g) == Xor(2 * Product(a / 2, g), if a % 2 == 1 then g else 0)
  {
    if a == 0 {
      XorZero(0);
    }
  }

  lemma ProductOfShift(q: nat, b: bit, g: nat)
    ensures Product(2 * q + b, g) == if b == 1 then Xor(2 * Product(q, g), g) else 2 * Product(q, g)
  {
    ProductParts(2 * q + b, g);
    XorZero(2 * Product(q, g));
  }

  lemma BitBelow16(m: nat, b: bit)
    requires m % 2 == 0
    ensures Xor(m * 0x1_0000, b * 0x1_0000) == (m + b) * 0x1_0000
  {
    assert Pow2(17) == 0x2_0000 by {
      Pow2Values();
      assert Pow2(17) == 2 * Pow2(16);
    }
    XorDisjoint(m / 2, b * 0x1_0000, 17);
  }

  lemma ShiftedMessage(m: nat, q: nat, r: nat, b: bit)
    requires Divides(m, q, r)
    ensures (2 * m + b) * 0x1_0000 == Xor(2 * Product(q, DIVISOR), Xor(2 * r, b * 0x1_0000))
  {
    var p := 2 * Product(q, DIVISOR);
    DoubleSum(Product(q, DIVISOR), r);
    BitBelow16(2 * m, b);
    XorAssociates(p, 2 * r, b * 0x1_0000);
  }

  /** The doubled register with a bit above it. */
  lemma TopOfSum(r: nat, b: bit)
    requires r < LIMIT
    ensures Xor(2 * r, b * 0x1_0000) == (if r / 0x8000 % 2 != b then 0x1_0000 else 0) + r * 2 % LIMIT
  {
    assert Pow2(16) == 0x1_0000 by {
      Pow2Values();
    }
    var top, moved := r / 0x8000, r * 2 % LIMIT;
    XorSplits(2 * r, b * 0x1_0000, 16, top, moved, b, 0);
    XorZero(moved);
    XorHalf(top, b);
    XorZero(0);
  }

  lemma StepSubtracts(m: nat, q: nat, r: nat, b: bit)
    requires Divides(m, q, r) && r / 0x8000 % 2 != b
    ensures Xor(Product(2 * q + 1, DIVISOR), Xor(r * 2 % LIMIT, POLYNOMIAL)) == (2 * m + b) * 0x1_0000
  {
    ShiftedMessage(m, q, r, b);
    TopOfSum(r, b);
    ProductOfShift(q, 1, DIVISOR);
    SubtractDivisor(2 * Product(q, DIVISOR), r * 2 % LIMIT);
  }

  lemma StepKeeps(m: nat, q: nat, r: nat, b: bit)
    requires Divides(m, q, r) && r / 0x8000 % 2 == b
    ensures Xor(Product(2 * q, DIVISOR), r * 2 % LIMIT) == (2 * m + b) * 0x1_0000
  {
    ShiftedMessage(m, q, r, b);
    TopOfSum(r, b);
    ProductOfShift(q, 0, DIVISOR);
  }

  lemma QuotientStep(m: nat, q: nat, r: nat, b: bit)
    requires Divides(m, q, r)
    ensures Divides(2 * m + b, 2 * q + XorBit(if r / 0x8000 % 2 == 0 then 0 else 1, b), BitStep(r, b))
  {
    BitStepBound(r, b);
    if r / 0x8000 % 2 != b {
      StepSubtracts(m, q, r, b);
    } else {
      StepKeeps(m, q, r, b);
    }
  }

  /** One more bit of the message makes one more step of the division. */
  lemma RemainderStep(m: nat, r: nat, b: bit)
    requires IsRemainder(m, r)
    ensures IsRemainder(2 * m + b, BitStep(r, b))
  {
    var q: nat :| Divides(m, q, r);
    var d := XorBit(if r / 0x8000 % 2 == 0 then 0 else 1, b);
    QuotientStep(m, q, r, b);
    assert Divides(2 * m + b, 2 * q + d, BitStep(r, b));
  }

  /** m moved up by n bits, one at a time. */
  ghost function MovedUp(m: nat, n: nat): nat
    decreases n, m
  {
    if n == 0 then m else 2 * MovedUp(m, n - 1)
  }

  lemma {:induction false} MovedUpIs(m: nat, n: nat)
    ensures MovedUp(m, n) == m * Pow2(n)
  {
    if n > 0 {
      MovedUpIs(m, n - 1);
      Doubled(m, n);
    }
  }

  lemma {:induction false} RegisterIsRemainder(m: nat, c: nat, w: bits, n: nat)
    requires n <= |w| && IsRemainder(m, c)
    ensures IsRemainder(MovedUp(m, n) + CodeOf(w, n), Register(c, w, n))
  {
    if n > 0 {
      RegisterIsRemainder(m, c, w, n - 1);
      RemainderStep(MovedUp(m, n - 1) + CodeOf(w, n - 1), Register(c, w, n - 1), w[n - 1]);
    }
  }

  /** The quadlets as one number, most significant first. */
  ghost function Message(data: seq<u32>, n: nat): nat
    requires n <= |data|
  {
    if n == 0 then 0 else Message(data, n - 1) * WORD32 + data[n - 1]
  }

  /** The CRC is the remainder of the message, moved up by 16 bits, modulo the divisor. */
  lemma {:induction false} CrcIsRemainder(data: seq<u32>, n: nat)
    requires n <= |data|
    ensures IsRemainder(Message(data, n), Quadlets(0, data, n))
  {
    if n == 0 {
      XorZero(0);
      assert Divides(0, 0, 0);
    } else {
      CrcIsRemainder(data, n - 1);
      var m, x := Message(data, n - 1), data[n - 1];
      assert CodeOf(Msb(x, 32), 32) == x && MovedUp(m, 32) == m * WORD32 by {
        Pow2Values();
        CodeOfMsb(x, 32);
        MovedUpIs(m, 32);
      }
      RegisterIsRemainder(m, Quadlets(0, data, n - 1), Msb(x, 32), 32);
    }
  }

  lemma {:induction false} ProductLinear(a: nat, b: nat, g: nat)
    ensures Product(Xor(a, b), g) == Xor(Product(a, g), Product(b, g))
    decreases a + b
  {
    XorZero(0);
    if a == 0 {
      XorNothing(a, b);
      XorNothing(Product(a, g), Product(b, g));
    } else if b == 0 {
      XorZero(a);
      XorZero(Product(a, g));
    } else {
      ProductLinear(a / 2, b / 2, g);
      XorHalf(a, b);
      ProductParts(a, g);
      ProductParts(b, g);
      ProductParts(Xor(a, b), g);
      var p, q := 2 * Product(a / 2, g), 2 * Product(b / 2, g);
      var x, y := if a % 2 == 1 then g else 0, if b % 2 == 1 then g else 0;
      DoubleSum(Product(a / 2, g), Product(b / 2, g));
      XorSwap(p, x, q, y);
      XorSelf(g);
      XorZero(g);
      XorNothing(0, g);
    }
  }

  lemma HighStays(a: nat, g: nat)
    requires a >= 0x2_0000 && g < 0x2_0000
    ensures Xor(a, g) >= 0x2_0000
  {
    assert Pow2(17) == 0x2_0000 by {
      Pow2Values();
      assert Pow2(17) == 2 * Pow2(16);
    }
    var h, l := HighIs(a, 17);
    XorSplits(a, g, 17, h, l, 0, g);
    XorZero(h);
  }

  /** Every multiple of the divisor but zero has degree 16 at least. */
  lemma {:induction false} ProductDegree(d: nat)
    requires d > 0
    ensures Product(d, DIVISOR) >= 0x1_0000
  {
    var g: nat := if d % 2 == 1 then DIVISOR else 0;
    if d == 1 {
      XorNothing(2 * Product(0, DIVISOR), g);
    } else {
      ProductDegree(d / 2);
      HighStays(2 * Product(d / 2, DIVISOR), g);
    }
  }

  /** a + b = c + d gives a + c = b + d. */
  lemma SumsOfDifference(a: nat, b: nat, c: nat, d: nat)
    requires Xor(a, b) == Xor(c, d)
    ensures Xor(a, c) == Xor(b, d)
  {
    XorSwap(a, b, c, d);
    XorSelf(Xor(a, b));
    XorSelf(Xor(b, d));
    XorCancels(Xor(a, c), Xor(b, d), Xor(b, d));
  }

  /** There is only one remainder. */
  lemma RemainderUnique(m: nat, r: nat, r': nat)
    requires IsRemainder(m, r) && IsRemainder(m, r')
    ensures r == r'
  {
    var q: nat :| Divides(m, q, r);
    var q': nat :| Divides(m, q', r');
    var p, p' := Product(q, DIVISOR), Product(q', DIVISOR);
    ProductLinear(q, q', DIVISOR);
    SumsOfDifference(p, r, p', r');
    assert Xor(r, r') < 0x1_0000 by {
      Pow2Values();
      XorBound(r, r', 16);
    }
    if Xor(q, q') > 0 {
      ProductDegree(Xor(q, q'));
    } else {
      XorSelf(q');
      XorCancels(q, q', q');
      XorCommutes(p, r);
      XorCommutes(p, r');
      XorCancels(r, r', p);
    }
  }

  /** The divisor is x^16 + x^12 + x^5 + 1. */
  lemma DivisorIs()
    ensures DIVISOR == Pow2(16) + Pow2(12) + Pow2(5) + Pow2(0)
  {
    Pow2Values();
  }
}
