/** The CRC of gzip (standalone/crc32.c): one table step per nibble, against the reflected CRC
    one bit at a time and the byte table of section 8 of RFC 1952. */
module Crc32 {
  import opened Words
  import opened Bitwise

  const POLYNOMIAL: u32 := 0xEDB88320
  const ONES: u32 := 0xFFFF_FFFF

  // ---------- one bit at a time ----------

  /** Divides by x modulo the polynomial, whose coefficients run from the top bit down. */
  function BitStep(c: nat): nat {
    if c % 2 == 1 then Xor(c / 2, POLYNOMIAL) else c / 2
  }

  function BitSteps(c: nat, n: nat): nat
    decreases n, c
  {
    if n == 0 then c else BitSteps(BitStep(c), n - 1)
  }

  /** The register after the first n bytes of `data` have gone through it, bit by bit. */
  ghost function Register(c: nat, data: seq<byte>, n: nat): nat
    requires n <= |data|
  {
    if n == 0 then c else BitSteps(Xor(Register(c, data, n - 1), data[n - 1]), 8)
  }

  /** The CRC of a byte string. */
  ghost function Crc(data: seq<byte>): nat {
    Xor(Register(ONES, data, |data|), ONES)
  }

  lemma {:induction false} BitStepsAdd(c: nat, m: nat, n: nat)
    ensures BitSteps(c, m + n) == BitSteps(BitSteps(c, m), n)
    decreases m
  {
    if m > 0 {
      BitStepsAdd(BitStep(c), m - 1, n);
    }
  }

  // ---------- linearity ----------

  lemma BitStepLinear(a: nat, b: nat)
    ensures BitStep(Xor(a, b)) == Xor(BitStep(a), BitStep(b))
  {
    var p, q := a / 2, b / 2;
    XorHalf(a, b);
    if a % 2 == 1 && b % 2 == 1 {
      XorSwap(p, POLYNOMIAL, q, POLYNOMIAL);
      XorSelf(POLYNOMIAL);
      XorZero(Xor(p, q));
    } else if a % 2 == 1 {
      XorAssociates(p, POLYNOMIAL, q);
      XorCommutes(POLYNOMIAL, q);
      XorAssociates(p, q, POLYNOMIAL);
    } else if b % 2 == 1 {
      XorAssociates(p, q, POLYNOMIAL);
    }
  }

  lemma {:induction false} BitStepsLinear(a: nat, b: nat, n: nat)
    ensures BitSteps(Xor(a, b), n) == Xor(BitSteps(a, n), BitSteps(b, n))
    decreases n
  {
    if n > 0 {
      BitStepLinear(a, b);
      BitStepsLinear(BitStep(a), BitStep(b), n - 1);
    }
  }

  /** A register whose low bits are clear just moves on. */
  lemma {:induction false} BitStepsShift(h: nat, n: nat)
    ensures Pow2(n) * h >= 0 && BitSteps(Pow2(n) * h, n) == h
    decreases n
  {
    MulLe(Pow2(n), 0, h);
    if n > 0 {
      assert Pow2(n) * h == 2 * (Pow2(n - 1) * h);
      BitStepsShift(h, n - 1);
    }
  }

  // ---------- the nibble table ----------

  /** tinf_crc32tab. */
  function Table(i: nat): u32
    requires i < 16
  {
    if i == 0 then 0x00000000 else if i == 1 then 0x1db71064
    else if i == 2 then 0x3b6e20c8 else if i == 3 then 0x26d930ac
    else if i == 4 then 0x76dc4190 else if i == 5 then 0x6b6b51f4
    else if i == 6 then 0x4db26158 else if i == 7 then 0x5005713c
    else if i == 8 then 0xedb88320 else if i == 9 then 0xf00f9344
    else if i == 10 then 0xd6d6a3e8 else if i == 11 then 0xcb61b38c
    else if i == 12 then 0x9b64c2b0 else if i == 13 then 0x86d3d2d4
    else if i == 14 then 0xa00ae278
    else 0xbdbdf21c
  }

  /** `tinf_crc32tab[crc & 0x0f] ^ (crc >> 4)`. */
  function NibbleStep(c: nat): nat {
    Xor(Table(c % 16), c / 16)
  }

  lemma FourUnrolled(c: nat)
    ensures BitSteps(c, 4) == BitStep(BitStep(BitStep(BitStep(c))))
  {
    var c1 := BitStep(c);
    var c2 := BitStep(c1);
    var c3 := BitStep(c2);
    assert BitSteps(c3, 1) == BitStep(c3);
    assert BitSteps(c2, 2) == BitStep(c3) && BitSteps(c1, 3) == BitStep(c3);
  }

  /** What four steps make of a single bit: the polynomial, moved on by none to three steps. */
  lemma TableBits()
    ensures BitSteps(1, 4) == Table(1) && BitSteps(2, 4) == Table(2)
    ensures BitSteps(4, 4) == Table(4) && BitSteps(8, 4) == Table(8)
  {
    FourUnrolled(1);
    FourUnrolled(2);
    FourUnrolled(4);
    FourUnrolled(8);
    XorCommutes(0, POLYNOMIAL);
    XorZero(POLYNOMIAL);
    assert BitStep(1) == POLYNOMIAL;
    assert BitStep(POLYNOMIAL) == 0x76dc4190 && BitStep(0x76dc4190) == 0x3b6e20c8 && BitStep(0x3b6e20c8) == 0x1db71064;
  }

  /** The digits of the table entries. */
  ghost function Digits(i: nat): (w: seq<nat>)
    requires i < 16
    ensures |w| == 8
  {
    if i == 0 then [0, 0, 0, 0, 0, 0, 0, 0]
    else if i == 1 then [1, 0xd, 0xb, 7, 1, 0, 6, 4]
    else if i == 2 then [3, 0xb, 6, 0xe, 2, 0, 0xc, 8]
    else if i == 3 then [2, 6, 0xd, 9, 3, 0, 0xa, 0xc]
    else if i == 4 then [7, 6, 0xd, 0xc, 4, 1, 9, 0]
    else if i == 5 then [6, 0xb, 6, 0xb, 5, 1, 0xf, 4]
    else if i == 6 then [4, 0xd, 0xb, 2, 6, 1, 5, 8]
    else if i == 7 then [5, 0, 0, 5, 7, 1, 3, 0xc]
    else if i == 8 then [0xe, 0xd, 0xb, 8, 8, 3, 2, 0]
    else if i == 9 then [0xf, 0, 0, 0xf, 9, 3, 4, 4]
    else if i == 10 then [0xd, 6, 0xd, 6, 0xa, 3, 0xe, 8]
    else if i == 11 then [0xc, 0xb, 6, 1, 0xb, 3, 8, 0xc]
    else if i == 12 then [9, 0xb, 6, 4, 0xc, 2, 0xb, 0]
    else if i == 13 then [8, 6, 0xd, 3, 0xd, 2, 0xd, 4]
    else if i == 14 then [0xa, 0, 0, 0xa, 0xe, 2, 7, 8]
    else [0xb, 0xd, 0xb, 0xd, 0xf, 2, 1, 0xc]
  }

  lemma DigitsOfTable(i: nat)
    requires i < 16
    ensures Hex(Digits(i), 8) == Table(i)
  {
    HexOfEight(Digits(i));
  }

  lemma DigitSumsOfTwo(r: nat)
    requires r == 1
    ensures HexXor(Digits(2), Digits(r), Digits(2 + r))
  {
  }

  lemma DigitSumsOfFour(r: nat)
    requires 0 < r < 4
    ensures HexXor(Digits(4), Digits(r), Digits(4 + r))
  {
  }

  lemma DigitSumsOfEight(r: nat)
    requires 0 < r < 8
    ensures HexXor(Digits(8), Digits(r), Digits(8 + r))
  {
  }

  /** The table is linear. */
  lemma TableSum(h: nat, r: nat)
    requires (h == 2 || h == 4 || h == 8) && 0 < r < h
    ensures Xor(Table(h), Table(r)) == Table(h + r)
  {
    if h == 8 {
      DigitSumsOfEight(r);
    } else if h == 4 {
      DigitSumsOfFour(r);
    } else {
      DigitSumsOfTwo(r);
    }
    XorHex(Digits(h), Digits(r), Digits(h + r), 8);
    DigitsOfTable(h);
    DigitsOfTable(r);
    DigitsOfTable(h + r);
  }

  /** The table holds what four steps make of a nibble. */
  lemma {:induction false} TableEntry(i: nat)
    requires i < 16
    ensures BitSteps(i, 4) == Table(i)
  {
    if i == 0 {
      FourUnrolled(0);
    } else if i == 1 || i == 2 || i == 4 || i == 8 {
      TableBits();
    } else {
      var h := if i < 4 then 2 else if i < 8 then 4 else 8;
      TableEntry(h);
      TableEntry(i - h);
      TableSum(h, i - h);
      BitStepsLinear(h, i - h, 4);
      NibbleSum(h, i - h);
    }
  }

  /** In n steps only the low n bits meet the polynomial; the others move on. */
  lemma LowStepsOnly(x: nat, n: nat)
    ensures BitSteps(x, n) == Xor(BitSteps(Low(x, n), n), High(x, n))
  {
    var h, l := HighIs(x, n);
    XorDisjoint(h, l, n);
    BitStepsLinear(Pow2(n) * h, l, n);
    BitStepsShift(h, n);
    XorCommutes(h, BitSteps(l, n));
  }

  /** A table step is four bit steps. */
  lemma NibbleIsFourBits(c: nat)
    ensures NibbleStep(c) == BitSteps(c, 4)
  {
    assert Pow2(4) == 16;
    assert High(c, 4) == c / 16 && Low(c, 4) == c % 16;
    LowStepsOnly(c, 4);
    TableEntry(c % 16);
  }

  /** Two table steps are eight bit steps. */
  lemma ByteIsTwoNibbles(c: nat)
    ensures NibbleStep(NibbleStep(c)) == BitSteps(c, 8)
  {
    NibbleIsFourBits(c);
    NibbleIsFourBits(BitSteps(c, 4));
    BitStepsAdd(c, 4, 4);
  }

  lemma NibbleStepBound(c: u32)
    ensures 0 <= NibbleStep(c) < WORD32
  {
    Pow2Values();
    XorBound(Table(c % 16), c / 16, 32);
  }

  lemma XorWord(a: u32, b: u32)
    ensures 0 <= Xor(a, b) < WORD32
  {
    Pow2Values();
    XorBound(a, b, 32);
  }

  /** The body of the loop. */
  method ByteStep(crc: u32, b: byte) returns (crc': u32)
    ensures crc' == BitSteps(Xor(crc, b), 8)
  {
    XorWord(crc, b);
    var x: u32 := Xor(crc, b);
    ByteIsTwoNibbles(x);
    NibbleStepBound(x);
    var y: u32 := NibbleStep(x);
    NibbleStepBound(y);
    crc' := NibbleStep(y);
  }

  /** tinf_crc32. */
  method Crc32(data: seq<byte>) returns (r: u32)
    ensures r == Crc(data)
  {
    if |data| == 0 {
      XorSelf(ONES);
      return 0;
    }
    var crc: u32 := ONES;
    var i := 0;
    while i < |data|
      invariant 0 <= i <= |data| && crc == Register(ONES, data, i)
    {
      crc := ByteStep(crc, data[i]);
      i := i + 1;
    }
    XorWord(crc, ONES);
    r := Xor(crc, ONES);
  }

  // ---------- the byte table of RFC 1952 ----------

  /** `crc_table[(c ^ b) & 0xff] ^ (c >> 8)`, with the table made by eight bit steps. */
  ghost function ByteTableStep(c: nat, b: byte): nat {
    Xor(BitSteps(Low(Xor(c, b), 8), 8), High(c, 8))
  }

  lemma HighOfByteSum(c: nat, b: byte)
    ensures High(Xor(c, b), 8) == High(c, 8)
  {
    assert Pow2(8) == 256;
    XorShifts(c, b, 8);
    HighAndLowUnique(b, 8, 0, b);
    XorZero(High(c, 8));
  }

  /** The sample code of section 8 of RFC 1952 steps the register the same way. */
  lemma ByteTableIsEightBits(c: nat, b: byte)
    ensures ByteTableStep(c, b) == BitSteps(Xor(c, b), 8)
  {
    HighOfByteSum(c, b);
    LowStepsOnly(Xor(c, b), 8);
  }

  // ---------- composition and error detection ----------

  lemma {:induction false} RegisterPrefix(c: nat, a: seq<byte>, b: seq<byte>, n: nat)
    requires n <= |a|
    ensures Register(c, a + b, n) == Register(c, a, n)
  {
    if n > 0 {
      RegisterPrefix(c, a, b, n - 1);
    }
  }

  /** The register goes through a concatenation part by part. */
  lemma {:induction false} RegisterConcat(c: nat, a: seq<byte>, b: seq<byte>, n: nat)
    requires n <= |b|
    ensures Register(c, a + b, |a| + n) == Register(Register(c, a, |a|), b, n)
  {
    if n == 0 {
      RegisterPrefix(c, a, b, |a|);
    } else {
      RegisterConcat(c, a, b, n - 1);
    }
  }

  lemma RegisterWhole(c: nat, a: seq<byte>, b: seq<byte>, n: nat)
    requires n == |a| + |b|
    ensures Register(c, a + b, n) == Register(Register(c, a, |a|), b, |b|)
  {
    RegisterConcat(c, a, b, |b|);
  }

  /** A step of a 32-bit register keeps its width, and its top bit tells which way it went. */
  lemma BitStepTop(c: u32)
    ensures 0 <= BitStep(c) < WORD32 && (BitStep(c) >= 0x8000_0000 <==> c % 2 == 1)
  {
    if c % 2 == 1 {
      var low := POLYNOMIAL - 0x8000_0000;
      assert Pow2(31) == 0x8000_0000 by {
        Pow2Values();
        assert 2 * Pow2(31) == Pow2(32);
      }
      XorBound(c / 2, low, 31);
      XorSplits(c / 2, POLYNOMIAL, 31, 0, c / 2, 1, low);
      XorCommutes(0, 1);
      XorZero(1);
    }
  }

  lemma BitStepInjective(a: u32, b: u32)
    requires BitStep(a) == BitStep(b)
    ensures a == b
  {
    BitStepTop(a);
    BitStepTop(b);
    if a % 2 == 1 {
      XorCancels(a / 2, b / 2, POLYNOMIAL);
    }
  }

  lemma {:induction false} BitStepsInjective(a: u32, b: u32, n: nat)
    requires BitSteps(a, n) == BitSteps(b, n)
    ensures a == b
    decreases n
  {
    if n > 0 {
      BitStepTop(a);
      BitStepTop(b);
      BitStepsInjective(BitStep(a), BitStep(b), n - 1);
      BitStepInjective(a, b);
    }
  }

  lemma {:induction false} BitStepsWord(c: u32, n: nat)
    ensures 0 <= BitSteps(c, n) < WORD32
    decreases n
  {
    if n > 0 {
      BitStepTop(c);
      BitStepsWord(BitStep(c), n - 1);
    }
  }

  lemma {:induction false} RegisterWord(c: u32, data: seq<byte>, n: nat)
    requires n <= |data|
    ensures 0 <= Register(c, data, n) < WORD32
  {
    if n > 0 {
      RegisterWord(c, data, n - 1);
      var r: u32 := Register(c, data, n - 1);
      XorWord(r, data[n - 1]);
      BitStepsWord(Xor(r, data[n - 1]), 8);
    }
  }

  /** Different registers stay different, whatever follows. */
  lemma {:induction false} RegisterInjective(c: u32, d: u32, data: seq<byte>, n: nat)
    requires n <= |data| && Register(c, data, n) == Register(d, data, n)
    ensures c == d
  {
    if n > 0 {
      RegisterWord(c, data, n - 1);
      RegisterWord(d, data, n - 1);
      var r: u32, s: u32, b := Register(c, data, n - 1), Register(d, data, n - 1), data[n - 1];
      XorWord(r, b);
      XorWord(s, b);
      BitStepsInjective(Xor(r, b), Xor(s, b), 8);
      XorCancels(r, s, b);
      RegisterInjective(c, d, data, n - 1);
    }
  }

  lemma LittleBound(x: nat, p: nat, b: byte)
    requires x < p
    ensures 0 <= p * b + x < p * 256 && Pow2(8) == 256
  {
    Pow2Values();
    MulLe(p, 0, b);
    MulLe(p, b, 255);
  }

  /** The first n bytes as a number, least significant byte first. */
  ghost function Little(w: seq<byte>, n: nat): (x: nat)
    requires n <= |w|
    ensures x < Pow2(8 * n)
  {
    if n == 0 then 0
    else
      Pow2Add(8 * (n - 1), 8);
      LittleBound(Little(w, n - 1), Pow2(8 * (n - 1)), w[n - 1]);
      Pow2(8 * (n - 1)) * w[n - 1] + Little(w, n - 1)
  }

  /** A byte that enters after m steps might as well have entered m bits further up before. */
  lemma ByteAbove(c: nat, x: nat, b: byte, m: nat)
    requires x < Pow2(m)
    ensures Pow2(m) * b + x >= 0
    ensures Xor(BitSteps(Xor(c, x), m), b) == BitSteps(Xor(c, Pow2(m) * b + x), m)
  {
    BitStepsShift(b, m);
    var high: nat := Pow2(m) * b;
    BitStepsLinear(Xor(c, x), high, m);
    XorAssociates(c, x, high);
    XorDisjoint(b, x, m);
    XorCommutes(x, high);
  }

  lemma NextByte(c: nat, x: nat, b: byte, m: nat, k: nat, y: nat, n: nat)
    requires x < Pow2(m) && y == Pow2(m) * b + x && n == m + k
    ensures BitSteps(Xor(BitSteps(Xor(c, x), m), b), k) == BitSteps(Xor(c, y), n)
  {
    ByteAbove(c, x, b, m);
    BitStepsAdd(Xor(c, y), m, k);
  }

  /** Up to four bytes go through the register as one number. */
  lemma {:induction false} RegisterLittle(c: nat, w: seq<byte>, n: nat)
    requires n <= |w|
    ensures Register(c, w, n) == BitSteps(Xor(c, Little(w, n)), 8 * n)
  {
    if n == 0 {
      XorZero(c);
    } else {
      var m, x, b := 8 * (n - 1), Little(w, n - 1), w[n - 1];
      RegisterLittle(c, w, n - 1);
      NextByte(c, x, b, m, 8, Little(w, n), 8 * n);
    }
  }

  lemma {:induction false} LittleInjective(v: seq<byte>, w: seq<byte>, n: nat)
    requires n <= |v| && n <= |w| && Little(v, n) == Little(w, n)
    ensures v[..n] == w[..n]
  {
    if n > 0 {
      var p := Pow2(8 * (n - 1));
      DivModUnique(Little(v, n), p, v[n - 1], Little(v, n - 1));
      DivModUnique(Little(w, n), p, w[n - 1], Little(w, n - 1));
      LittleInjective(v, w, n - 1);
      assert v[..n] == v[..n - 1] + [v[n - 1]] && w[..n] == w[..n - 1] + [w[n - 1]];
    }
  }

  lemma RegisterOfThree(pre: seq<byte>, w: seq<byte>, post: seq<byte>) returns (c: u32, d: u32)
    requires |w| <= 4
    ensures c == Register(ONES, pre, |pre|) && d == BitSteps(Xor(c, Little(w, |w|)), 8 * |w|)
    ensures Register(ONES, pre + (w + post), |pre + (w + post)|) == Register(d, post, |post|)
  {
    RegisterWord(ONES, pre, |pre|);
    c := Register(ONES, pre, |pre|);
    RegisterWord(c, w, |w|);
    d := Register(c, w, |w|);
    RegisterLittle(c, w, |w|);
    RegisterWhole(c, w, post, |w + post|);
    RegisterWhole(ONES, pre, w + post, |pre + (w + post)|);
  }

  lemma LittleWord(w: seq<byte>)
    requires |w| <= 4
    ensures Little(w, |w|) < WORD32
  {
    Pow2Monotone(8 * |w|, 32);
    Pow2Values();
  }

  /** A change that is confined to four consecutive bytes changes the CRC. */
  lemma BurstDetected(pre: seq<byte>, v: seq<byte>, w: seq<byte>, post: seq<byte>)
    requires |v| == |w| <= 4 && Crc(pre + (v + post)) == Crc(pre + (w + post))
    ensures v == w
  {
    var n := |v|;
    var c, d := RegisterOfThree(pre, v, post);
    var c', e := RegisterOfThree(pre, w, post);
    XorCancels(Register(d, post, |post|), Register(e, post, |post|), ONES);
    RegisterInjective(d, e, post, |post|);
    LittleWord(v);
    LittleWord(w);
    var x: u32, y: u32 := Little(v, n), Little(w, n);
    XorWord(c, x);
    XorWord(c, y);
    BitStepsInjective(Xor(c, x), Xor(c, y), 8 * n);
    XorCommutes(c, x);
    XorCommutes(c, y);
    XorCancels(x, y, c);
    LittleInjective(v, w, n);
  }

  // ---------- the constants ----------

  lemma {:induction false} XorOnes(x: nat, n: nat)
    requires x < Pow2(n)
    ensures Xor(x, Pow2(n) - 1) == Pow2(n) - 1 - x
    decreases n
  {
    if n == 0 {
      XorZero(0);
    } else {
      XorHalf(x, Pow2(n) - 1);
      XorOnes(x / 2, n - 1);
    }
  }

  /** The register starts with ones and is complemented at the end. */
  lemma CrcComplements(data: seq<byte>)
    ensures Crc(data) == 0xFFFF_FFFF - Register(0xFFFF_FFFF, data, |data|)
  {
    RegisterWord(ONES, data, |data|);
    Pow2Values();
    XorOnes(Register(ONES, data, |data|), 32);
  }

  /** Entry 0x80 of the byte table is the polynomial of RFC 1952. */
  lemma PolynomialIsPrinted()
    ensures BitSteps(0x80, 8) == 0xEDB88320
  {
    assert Pow2(7) * 1 == 0x80;
    BitStepsShift(1, 7);
    BitStepsAdd(0x80, 7, 1);
    XorCommutes(0, POLYNOMIAL);
    XorZero(POLYNOMIAL);
    assert BitSteps(1, 1) == BitSteps(BitStep(1), 0);
  }
}
