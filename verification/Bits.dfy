/** Bit strings as DEFLATE reads them (section 3.1.1 of RFC 1951): bytes from the least
    significant bit up, numbers least significant bit first, Huffman codes most significant
    bit first. */
module Bits {
  import opened Words

  type bits = seq<bit>

  // ---------- numbers, least significant bit first ----------

  /** The `n` low bits of x, least significant first. */
  function Lsb(x: nat, n: nat): (w: bits)
    ensures |w| == n
  {
    if n == 0 then [] else [x % 2] + Lsb(x / 2, n - 1)
  }

  /** The number that `w` writes, least significant bit first. */
  ghost function Number(w: bits): nat {
    if |w| == 0 then 0 else w[0] + 2 * Number(w[1..])
  }

  /** Reading inverts packing. */
  lemma {:induction false} NumberOfLsb(x: nat, n: nat)
    requires x < Pow2(n)
    ensures Number(Lsb(x, n)) == x
  {
    if n > 0 {
      NumberOfLsb(x / 2, n - 1);
      assert Lsb(x, n)[1..] == Lsb(x / 2, n - 1);
    }
  }

  /** Packing inverts reading. */
  lemma {:induction false} LsbOfNumber(w: bits)
    ensures Number(w) < Pow2(|w|) && Lsb(Number(w), |w|) == w
  {
    if |w| > 0 {
      LsbOfNumber(w[1..]);
    }
  }

  /** One more bit at the top of the number. */
  lemma {:induction false} NumberSnoc(w: bits, b: bit)
    ensures Number(w + [b]) == Number(w) + (if b == 1 then Pow2(|w|) else 0)
  {
    if |w| == 0 {
      assert (w + [b])[1..] == [];
    } else {
      NumberSnoc(w[1..], b);
      assert (w + [b])[1..] == w[1..] + [b];
    }
  }

  /** The bits of the bytes of `src` from byte i on, in stream order. */
  ghost function BitsFrom(src: seq<byte>, i: nat): (w: bits)
    requires i <= |src|
    ensures |w| == 8 * (|src| - i)
    decreases |src| - i
  {
    if i == |src| then [] else Lsb(src[i], 8) + BitsFrom(src, i + 1)
  }

  // ---------- codes, most significant bit first ----------

  /** The `n` low bits of x, most significant first. */
  function Msb(x: nat, n: nat): (w: bits)
    ensures |w| == n
  {
    if n == 0 then [] else Msb(x / 2, n - 1) + [x % 2]
  }

  /** The number that the first n bits of `w` write, most significant bit first. */
  ghost function CodeOf(w: bits, n: nat): nat
    requires n <= |w|
  {
    if n == 0 then 0 else 2 * CodeOf(w, n - 1) + w[n - 1]
  }

  lemma {:induction false} CodeOfPrefix(w: bits, v: bits, n: nat)
    requires n <= |w| && w <= v
    ensures CodeOf(w, n) == CodeOf(v, n)
  {
    if n > 0 {
      CodeOfPrefix(w, v, n - 1);
    }
  }

  lemma {:induction false} CodeOfMsb(x: nat, n: nat)
    requires x < Pow2(n)
    ensures CodeOf(Msb(x, n), n) == x
  {
    if n > 0 {
      CodeOfMsb(x / 2, n - 1);
      CodeOfPrefix(Msb(x / 2, n - 1), Msb(x, n), n - 1);
    }
  }

  lemma {:induction false} MsbOfCode(w: bits, n: nat)
    requires n <= |w|
    ensures CodeOf(w, n) < Pow2(n) && Msb(CodeOf(w, n), n) == w[..n]
  {
    if n > 0 {
      MsbOfCode(w, n - 1);
      var c, b := CodeOf(w, n - 1), w[n - 1];
      assert (2 * c + b) / 2 == c && (2 * c + b) % 2 == b;
      assert w[..n] == w[..n - 1] + [b];
    }
  }

  /** The first k of n bits are the code divided by 2^(n-k). */
  lemma {:induction false} CodeOfShorter(w: bits, k: nat, n: nat)
    requires k <= n <= |w|
    ensures CodeOf(w, n) / Pow2(n - k) == CodeOf(w, k)
    decreases n
  {
    if k < n {
      CodeOfShorter(w, k, n - 1);
      var c := CodeOf(w, n);
      assert c / 2 == CodeOf(w, n - 1);
      HalveFirst(c, Pow2(n - 1 - k));
    }
  }
}
