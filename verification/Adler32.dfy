/** The checksum of zlib streams (standalone/adler32.c): the sums are reduced once per block of
    5552 bytes, against the reduction at every byte of section 2.2 of RFC 1950. */
module Adler32 {
  import opened Words

  const BASE := 65521
  const NMAX := 5552

  /** The two sums, reduced at every byte. */
  datatype Sums = Sums(s1: nat, s2: nat)

  ghost function Reduced(data: seq<byte>, n: nat): (s: Sums)
    requires n <= |data|
    ensures s.s1 < BASE && s.s2 < BASE
  {
    if n == 0 then Sums(1, 0)
    else
      var s := Reduced(data, n - 1);
      var s1 := (s.s1 + data[n - 1]) % BASE;
      Sums(s1, (s.s2 + s1) % BASE)
  }

  ghost function Adler(data: seq<byte>): nat {
    var s := Reduced(data, |data|);
    s.s2 * 0x1_0000 + s.s1
  }

  // ---------- how far the sums grow without reduction ----------

  /** The second sum after n bytes at most, from reduced sums. */
  ghost function Bound(n: nat): nat {
    if n == 0 then BASE - 1 else Bound(n - 1) + (BASE - 1) + 255 * n
  }

  lemma {:induction false} BoundClosed(n: nat)
    ensures 2 * Bound(n) == 2 * (BASE - 1) * (n + 1) + 255 * (n * (n + 1))
  {
    if n > 0 {
      BoundClosed(n - 1);
      assert n * (n + 1) == (n - 1) * n + 2 * n;
    }
  }

  lemma {:induction false} BoundMonotone(m: nat, n: nat)
    requires m <= n
    ensures Bound(m) <= Bound(n)
    decreases n
  {
    if m < n {
      BoundMonotone(m, n - 1);
    }
  }

  /** 5552 is the largest block for which the sums stay in 32 bits. */
  lemma LargestBlock(n: nat)
    ensures Bound(n) < WORD32 <==> n <= NMAX
  {
    BoundClosed(NMAX);
    BoundClosed(NMAX + 1);
    if n <= NMAX {
      BoundMonotone(n, NMAX);
    } else {
      BoundMonotone(NMAX + 1, n);
    }
  }

  /** The sums without reduction. */
  ghost function Plain(s: Sums, data: seq<byte>, n: nat): Sums
    requires n <= |data|
  {
    if n == 0 then s
    else
      var t := Plain(s, data, n - 1);
      Sums(t.s1 + data[n - 1], t.s2 + (t.s1 + data[n - 1]))
  }

  /** The bound is reached: largest reduced sums and bytes 0xFF. */
  lemma {:induction false} BoundIsReached(data: seq<byte>, n: nat)
    requires n <= |data| && forall i :: 0 <= i < |data| ==> data[i] == 255
    ensures Plain(Sums(BASE - 1, BASE - 1), data, n) == Sums(BASE - 1 + 255 * n, Bound(n))
  {
    if n > 0 {
      BoundIsReached(data, n - 1);
    }
  }

  // ---------- the program ----------

  /** Inside a block: n bytes of `data` have been summed, j of them since the last reduction. */
  ghost predicate InBlock(s1: int, s2: int, data: seq<byte>, n: nat, j: nat) {
    n <= |data| && 0 <= s1 <= BASE - 1 + 255 * j && 0 <= s2 <= Bound(j) &&
    s1 % BASE == Reduced(data, n).s1 && s2 % BASE == Reduced(data, n).s2
  }

  lemma ModAdd(a: int, b: int, m: int)
    requires m > 0
    ensures (a % m + b) % m == (a + b) % m
  {
    var q, r := a / m, (a % m + b) % m;
    assert a == m * q + a % m;
    var p := (a % m + b) / m;
    assert a % m + b == m * p + r;
    assert m * (q + p) == m * q + m * p;
    DivModUnique(a + b, m, q + p, r);
  }

  /** `s1 += buf[i]; s2 += s1`, in 32 bits. */
  method AddByte(s1: u32, s2: u32, b: byte, ghost data: seq<byte>, ghost n: nat, ghost j: nat)
    returns (t1: u32, t2: u32)
    requires InBlock(s1, s2, data, n, j) && j < NMAX && n < |data| && b == data[n]
    ensures InBlock(t1, t2, data, n + 1, j + 1)
  {
    LargestBlock(j + 1);
    t1 := s1 + b;
    t2 := s2 + t1;
    ModAdd(s1, b, BASE);
    ModAdd(s2, t1, BASE);
    var x, y := Reduced(data, n).s2, t1 % BASE;
    ModAdd(t1, x, BASE);
  }

  /** A quarter of the unrolled body of the inner loop. */
  method AddFour(s1: u32, s2: u32, data: seq<byte>, n: nat, ghost j: nat) returns (t1: u32, t2: u32)
    requires InBlock(s1, s2, data, n, j) && j + 4 <= NMAX && n + 4 <= |data|
    ensures InBlock(t1, t2, data, n + 4, j + 4)
  {
    t1, t2 := AddByte(s1, s2, data[n], data, n, j);
    t1, t2 := AddByte(t1, t2, data[n + 1], data, n + 1, j + 1);
    t1, t2 := AddByte(t1, t2, data[n + 2], data, n + 2, j + 2);
    t1, t2 := AddByte(t1, t2, data[n + 3], data, n + 3, j + 3);
  }

  /** The unrolled body. */
  method AddSixteen(s1: u32, s2: u32, data: seq<byte>, n: nat, ghost j: nat) returns (t1: u32, t2: u32)
    requires InBlock(s1, s2, data, n, j) && j + 16 <= NMAX && n + 16 <= |data|
    ensures InBlock(t1, t2, data, n + 16, j + 16)
  {
    t1, t2 := AddFour(s1, s2, data, n, j);
    t1, t2 := AddFour(t1, t2, data, n + 4, j + 4);
    t1, t2 := AddFour(t1, t2, data, n + 8, j + 8);
    t1, t2 := AddFour(t1, t2, data, n + 12, j + 12);
  }

  /** What is left of a block. */
  method AddRest(s1: u32, s2: u32, data: seq<byte>, n: nat, k: nat, ghost j: nat) returns (t1: u32, t2: u32)
    requires InBlock(s1, s2, data, n, j) && j + k <= NMAX && n + k <= |data|
    ensures InBlock(t1, t2, data, n + k, j + k)
  {
    t1, t2 := s1, s2;
    var i, buf := k, n;
    while i != 0
      invariant 0 <= i <= k && buf == n + k - i
      invariant InBlock(t1, t2, data, buf, j + (k - i))
      decreases i
    {
      t1, t2 := AddByte(t1, t2, data[buf], data, buf, j + (k - i));
      i, buf := i - 1, buf + 1;
    }
  }

  /** One block of k bytes, reduced at its end. */
  method AddBlock(s1: u32, s2: u32, data: seq<byte>, n: nat, k: nat) returns (t1: u32, t2: u32)
    requires n + k <= |data| && k <= NMAX && s1 == Reduced(data, n).s1 && s2 == Reduced(data, n).s2
    ensures t1 == Reduced(data, n + k).s1 && t2 == Reduced(data, n + k).s2
  {
    t1, t2 := s1, s2;
    var buf, i := n, k / 16;
    while i != 0
      invariant 0 <= i <= k / 16 && buf == n + 16 * (k / 16 - i)
      invariant InBlock(t1, t2, data, buf, buf - n)
      decreases i
    {
      t1, t2 := AddSixteen(t1, t2, data, buf, buf - n);
      i, buf := i - 1, buf + 16;
    }
    t1, t2 := AddRest(t1, t2, data, buf, k % 16, buf - n);
    t1 := t1 % BASE;
    t2 := t2 % BASE;
  }

  /** `(s2 << 16) | s1`. */
  method Pack(s1: u32, s2: u32) returns (r: u32)
    requires s1 < BASE && s2 < BASE
    ensures r == s2 * 0x1_0000 + s1
  {
    Pow2Values();
    var high: nat := s2 * 0x1_0000;
    MulModZero(Pow2(16), s2);
    OrDisjoint(high, s1, 16);
    r := Or(high, s1);
  }

  /** tinf_adler32. */
  method Adler32(data: seq<byte>) returns (r: u32)
    ensures r == Adler(data)
  {
    var s1: u32, s2: u32 := 1, 0;
    var n, length := 0, |data|;
    while length > 0
      invariant 0 <= length && 0 <= n && n + length == |data|
      invariant s1 == Reduced(data, n).s1 && s2 == Reduced(data, n).s2
      decreases length
    {
      var k := if length < NMAX then length else NMAX;
      s1, s2 := AddBlock(s1, s2, data, n, k);
      n, length := n + k, length - k;
    }
    r := Pack(s1, s2);
  }

  // ---------- closed form ----------

  /** The sum of the first n bytes. */
  ghost function Total(data: seq<byte>, n: nat): nat
    requires n <= |data|
  {
    if n == 0 then 0 else Total(data, n - 1) + data[n - 1]
  }

  /** The first n bytes, byte i counted k - i times. */
  ghost function Weighted(data: seq<byte>, n: nat, k: nat): nat
    requires n <= |data| && n <= k
  {
    if n == 0 then 0 else Weighted(data, n - 1, k) + (k - (n - 1)) * data[n - 1]
  }

  lemma {:induction false} WeightedNext(data: seq<byte>, n: nat, k: nat)
    requires n <= |data| && n <= k
    ensures Weighted(data, n, k + 1) == Weighted(data, n, k) + Total(data, n)
    decreases n
  {
    if n > 0 {
      WeightedNext(data, n - 1, k);
      assert (k + 1 - (n - 1)) * data[n - 1] == (k - (n - 1)) * data[n - 1] + data[n - 1];
    }
  }

  lemma WeightedLast(data: seq<byte>, n: nat)
    requires 0 < n <= |data|
    ensures Weighted(data, n, n) == Weighted(data, n - 1, n - 1) + Total(data, n - 1) + data[n - 1]
  {
    WeightedNext(data, n - 1, n - 1);
  }

  lemma SumsNext(x: nat, y: nat, b: nat)
    ensures ((x % BASE) + b) % BASE == (x + b) % BASE && ((y % BASE) + (x + b) % BASE) % BASE == (y + (x + b)) % BASE
  {
    ModAdd(x, b, BASE);
    ModAdd(x + b, y % BASE, BASE);
    ModAdd(y, x + b, BASE);
  }

  lemma {:induction false} ReducedClosed(data: seq<byte>, n: nat)
    requires n <= |data|
    ensures Reduced(data, n).s1 == (1 + Total(data, n)) % BASE
    ensures Reduced(data, n).s2 == (n + Weighted(data, n, n)) % BASE
    decreases n
  {
    if n > 0 {
      ReducedClosed(data, n - 1);
      WeightedLast(data, n);
      var x: nat, y: nat := 1 + Total(data, n - 1), n - 1 + Weighted(data, n - 1, n - 1);
      SumsNext(x, y, data[n - 1]);
      assert 1 + Total(data, n) == x + data[n - 1] && n + Weighted(data, n, n) == y + (x + data[n - 1]);
    }
  }

  /** The checksum is 1 + d(0) + ... + d(n - 1) in the low half, and n + n d(0) + (n - 1) d(1) + ... +
      d(n - 1) in the high half, both modulo 65521. */
  lemma AdlerClosed(data: seq<byte>)
    ensures Adler(data) ==
      (|data| + Weighted(data, |data|, |data|)) % 65521 * 0x1_0000 + (1 + Total(data, |data|)) % 65521
  {
    ReducedClosed(data, |data|);
  }
}
