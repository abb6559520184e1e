/** Flat little-endian memory with 32-bit addresses. */
module Memory {
  import opened Words

  const SIZE := WORD32

  function Half(m: seq<byte>, a: nat): (w: int)
    requires a + 2 <= |m|
    ensures 0 <= w < 0x1_0000
  {
    var low: int, high: int := m[a], m[a + 1];
    low + 0x100 * high
  }

  function Word(m: seq<byte>, a: nat): u32
    requires a + 4 <= |m|
  {
    Half(m, a) + 0x1_0000 * Half(m, a + 2)
  }

  function Quad(m: seq<byte>, a: nat): u64
    requires a + 8 <= |m|
  {
    Word(m, a) + WORD32 * Word(m, a + 4)
  }

  /** The bytes of a word, in the order they are stored. */
  function WordBytes(x: u32): (w: seq<byte>)
    ensures |w| == 4
  {
    [x % 0x100, x / 0x100 % 0x100, x / 0x1_0000 % 0x100, x / 0x100_0000]
  }

  lemma BytesJoin(x: u32)
    ensures x % 0x100 + 0x100 * (x / 0x100 % 0x100) +
      0x1_0000 * (x / 0x1_0000 % 0x100 + 0x100 * (x / 0x100_0000)) == x
  {
  }

  /** Memory is little-endian. */
  lemma LittleEndian(m: seq<byte>, a: nat, x: u32)
    requires a + 8 <= |m|
    ensures var b0: int, b1: int, b2: int, b3: int := m[a], m[a + 1], m[a + 2], m[a + 3];
      Half(m, a) == b0 + 0x100 * b1 && Word(m, a) == b0 + 0x100 * b1 + 0x1_0000 * b2 + 0x100_0000 * b3
    ensures var low: int, high: int := Word(m, a), Word(m, a + 4); Quad(m, a) == low + 0x1_0000_0000 * high
    ensures var b0: int, b1: int, b2: int, b3: int := WordBytes(x)[0], WordBytes(x)[1], WordBytes(x)[2], WordBytes(x)[3];
      b0 + 0x100 * b1 + 0x1_0000 * b2 + 0x100_0000 * b3 == x
  {
    BytesJoin(x);
  }

  /** The bytes `w` stand in `m` from address a on. */
  ghost predicate At(m: seq<byte>, a: nat, w: seq<byte>) {
    a + |w| <= |m| && forall k :: a <= k < a + |w| ==> m[k] == w[k - a]
  }

  /** Two memories agree on the addresses from lo up to hi. */
  ghost predicate Same(m: seq<byte>, m': seq<byte>, lo: int, hi: int) {
    0 <= lo && hi <= |m| == |m'| && forall k :: lo <= k < hi ==> m[k] == m'[k]
  }

  /** Two memories agree everywhere else. */
  ghost predicate SameOutside(m: seq<byte>, m': seq<byte>, lo: int, hi: int) {
    |m| == |m'| && forall k :: 0 <= k < |m| && (k < lo || hi <= k) ==> m[k] == m'[k]
  }

  /** The n bytes from a on and the k bytes from b on have no byte in common. */
  predicate Apart(a: int, n: int, b: int, k: int) {
    a + n <= b || b + k <= a
  }

  lemma AtSplit(m: seq<byte>, a: nat, u: seq<byte>, b: nat, v: seq<byte>)
    requires b == a + |u|
    ensures At(m, a, u + v) <==> At(m, a, u) && At(m, b, v)
  {
    if At(m, a, u) && At(m, b, v) {
      assert forall k :: a <= k < a + |u + v| ==> m[k] == (u + v)[k - a];
    }
    if At(m, a, u + v) {
      forall k | a <= k < a + |u| ensures m[k] == u[k - a] {
        assert m[k] == (u + v)[k - a];
      }
      forall k | b <= k < b + |v| ensures m[k] == v[k - b] {
        assert m[k] == (u + v)[k - a];
      }
    }
  }

  lemma AtSame(m: seq<byte>, m': seq<byte>, lo: int, hi: int, a: nat, w: seq<byte>)
    requires At(m, a, w) && Same(m, m', lo, hi) && lo <= a && a + |w| <= hi
    ensures At(m', a, w)
  {
  }

  lemma AtWord(m: seq<byte>, a: nat, x: u32)
    requires At(m, a, WordBytes(x))
    ensures Word(m, a) == x
  {
    assert m[a] == WordBytes(x)[0] && m[a + 1] == WordBytes(x)[1];
    assert m[a + 2] == WordBytes(x)[2] && m[a + 3] == WordBytes(x)[3];
    BytesJoin(x);
  }

  /** Writing the bytes `w` at a turns m into m'. */
  ghost predicate Written(m: seq<byte>, m': seq<byte>, a: nat, w: seq<byte>) {
    At(m', a, w) && SameOutside(m, m', a, a + |w|)
  }

  lemma WrittenNone(m: seq<byte>, a: nat)
    requires a <= |m|
    ensures Written(m, m, a, [])
  {
  }

  /** Two writes, one right after the other. */
  lemma WrittenThen(m0: seq<byte>, m1: seq<byte>, m2: seq<byte>, a: nat, u: seq<byte>, b: nat, v: seq<byte>)
    requires b == a + |u| && Written(m0, m1, a, u) && Written(m1, m2, b, v)
    ensures Written(m0, m2, a, u + v)
  {
    AtSplit(m2, a, u, b, v);
  }

  // ---------- structures of words ----------

  /** Words one after the other. */
  function WordsBytes(ws: seq<u32>): (w: seq<byte>)
    ensures |w| == 4 * |ws|
  {
    if |ws| == 0 then [] else WordBytes(ws[0]) + WordsBytes(ws[1..])
  }

  lemma {:induction false} WordsAt(m: seq<byte>, a: nat, ws: seq<u32>, k: nat, b: nat)
    requires At(m, a, WordsBytes(ws)) && k < |ws| && b == a + 4 * k
    ensures b + 4 <= |m| && Word(m, b) == ws[k]
    decreases k
  {
    AtSplit(m, a, WordBytes(ws[0]), a + 4, WordsBytes(ws[1..]));
    if k == 0 {
      AtWord(m, a, ws[0]);
    } else {
      WordsAt(m, a + 4, ws[1..], k - 1, b);
    }
  }

  /** Two 16-bit fields in one word, the first one low. */
  function Pair(low: nat, high: nat): u32
    requires low < 0x1_0000 && high < 0x1_0000
  {
    low + 0x1_0000 * high
  }

  lemma PairAt(m: seq<byte>, a: nat, low: nat, high: nat, b: nat)
    requires low < 0x1_0000 && high < 0x1_0000 && b == a + 2 && a + 4 <= |m| && Word(m, a) == Pair(low, high)
    ensures Half(m, a) == low && Half(m, b) == high
  {
  }

  lemma TwoAt(m: seq<byte>, a: nat, x: u64)
    requires a + 8 <= |m| && Word(m, a) == x % WORD32 && Word(m, a + 4) == x / WORD32
    ensures Quad(m, a) == x
  {
  }

  // ---------- block operations ----------

  /** Memory after the n bytes from s on have been copied to t. */
  ghost function Copied(m: seq<byte>, t: nat, s: nat, n: nat): (r: seq<byte>)
    requires t + n <= |m| && s + n <= |m|
    ensures |r| == |m|
  {
    seq(|m|, a requires 0 <= a < |m| => if t <= a < t + n then m[s + (a - t)] else m[a])
  }

  /** Memory after the n bytes from t on have been set to b. */
  ghost function Filled(m: seq<byte>, t: nat, n: nat, b: byte): (r: seq<byte>)
    requires t + n <= |m|
    ensures |r| == |m|
  {
    seq(|m|, a requires 0 <= a < |m| => if t <= a < t + n then b else m[a])
  }

  lemma CopiedStep(m: seq<byte>, t: nat, s: nat, n: nat)
    requires 0 < n && t + n <= |m| && s + n <= |m| && Apart(t, n, s, n)
    ensures Copied(m[t := m[s]], t + 1, s + 1, n - 1) == Copied(m, t, s, n)
  {
  }

  lemma AtCopied(m: seq<byte>, t: nat, s: nat, n: nat, a: nat, w: seq<byte>)
    requires t + n <= |m| && s + n <= |m| && At(m, a, w) && (n > 0 ==> Apart(t, n, a, |w|))
    ensures At(Copied(m, t, s, n), a, w)
  {
  }

  lemma FilledStep(m: seq<byte>, t: nat, n: nat, b: byte)
    requires 0 < n && t + n <= |m|
    ensures Filled(m[t := b], t + 1, n - 1, b) == Filled(m, t, n, b)
  {
  }

  // ---------- stores ----------

  method WriteWord(mem: array<byte>, a: nat, x: u32)
    requires a + 4 <= mem.Length
    modifies mem
    ensures Written(old(mem[..]), mem[..], a, WordBytes(x)) && Word(mem[..], a) == x
  {
    mem[a], mem[a + 1] := x % 0x100, x / 0x100 % 0x100;
    mem[a + 2], mem[a + 3] := x / 0x1_0000 % 0x100, x / 0x100_0000;
    AtWord(mem[..], a, x);
  }

  /** memcpy, which is one `rep movsb`; copying a block onto itself is harmless. */
  method CopyMemory(mem: array<byte>, t: nat, s: nat, n: nat)
    requires t + n <= mem.Length && s + n <= mem.Length && (Apart(t, n, s, n) || t == s)
    modifies mem
    ensures mem[..] == Copied(old(mem[..]), t, s, n)
  {
    var i := 0;
    while i < n
      invariant 0 <= i <= n
      invariant forall a :: 0 <= a < mem.Length ==> mem[a] == Copied(old(mem[..]), t, s, i)[a]
    {
      mem[t + i] := mem[s + i];
      i := i + 1;
    }
  }
}
