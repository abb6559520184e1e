/** Canonical Huffman codes (section 3.2.2 of RFC 1951), defined from the code lengths alone. */
module Huffman {
  import opened Words
  import opened Bits

  const MAXBITS := 15

  /** Code lengths of symbols 0, 1, ...; length 0 means the symbol is not used. */
  type Lengths = s: seq<nat> | forall i :: 0 <= i < |s| ==> s[i] <= MAXBITS witness []

  /** How many of the first n symbols have length l; unused symbols are never counted. */
  ghost function Count(lens: Lengths, n: nat, l: nat): (c: nat)
    requires n <= |lens|
    ensures c <= n
  {
    if n == 0 || l == 0 then 0
    else Count(lens, n - 1, l) + (if lens[n - 1] == l then 1 else 0)
  }

  /** The smallest code of length l over the first n symbols, computed from the shorter ones. */
  ghost function First(lens: Lengths, n: nat, l: nat): nat
    requires n <= |lens|
  {
    if l == 0 then 0 else 2 * (First(lens, n, l - 1) + Count(lens, n, l - 1))
  }

  /** One past the largest code of length l. */
  ghost function End(lens: Lengths, l: nat): nat {
    First(lens, |lens|, l) + Count(lens, |lens|, l)
  }

  /** The symbol's place among the symbols of its length. */
  ghost function Rank(lens: Lengths, s: nat): nat
    requires s < |lens|
  {
    Count(lens, s, lens[s])
  }

  ghost predicate Used(lens: Lengths, s: nat) {
    s < |lens| && lens[s] > 0
  }

  /** The canonical code of a symbol. */
  ghost function Code(lens: Lengths, s: nat): nat
    requires Used(lens, s)
  {
    First(lens, |lens|, lens[s]) + Rank(lens, s)
  }

  /** The bits by which a used symbol is transmitted. */
  ghost function Codeword(lens: Lengths, s: nat): (w: bits)
    ensures |w| == if Used(lens, s) then lens[s] else 0
  {
    if Used(lens, s) then Msb(Code(lens, s), lens[s]) else []
  }

  // ---------- the Kraft sum ----------

  /** The sum of 2^(15-length) over the first n symbols that are used. */
  ghost function Kraft(lens: Lengths, n: nat): nat
    requires n <= |lens|
  {
    if n == 0 then 0
    else Kraft(lens, n - 1) + (if lens[n - 1] > 0 then Pow2(MAXBITS - lens[n - 1]) else 0)
  }

  /** The lengths do not ask for more codewords than there are. */
  ghost predicate PrefixValid(lens: Lengths) {
    Kraft(lens, |lens|) <= Pow2(MAXBITS)
  }

  /** The lengths use up all codewords. */
  ghost predicate Complete(lens: Lengths) {
    Kraft(lens, |lens|) == Pow2(MAXBITS)
  }

  /** One more symbol of length k moves the first code of every longer length l by 2^(l-k). */
  lemma {:induction false} FirstOfOneMore(lens: Lengths, n: nat, l: nat)
    requires n < |lens|
    ensures First(lens, n + 1, l)
         == First(lens, n, l) + (if 0 < lens[n] < l then Pow2(l - lens[n]) else 0)
    ensures l > 0 ==> Count(lens, n + 1, l) == Count(lens, n, l) + (if lens[n] == l then 1 else 0)
  {
    if l > 0 {
      FirstOfOneMore(lens, n, l - 1);
      if 0 < lens[n] < l {
        assert Pow2(l - lens[n]) == 2 * Pow2(l - lens[n] - 1);
      }
    }
  }

  lemma {:induction false} FirstOfNone(lens: Lengths, l: nat)
    ensures First(lens, 0, l) == 0
  {
    if l > 0 {
      FirstOfNone(lens, l - 1);
    }
  }

  /** The codes of length 15 end where the Kraft sum says. */
  lemma {:induction false} KraftIsEnd(lens: Lengths, n: nat)
    requires n <= |lens|
    ensures First(lens, n, MAXBITS) + Count(lens, n, MAXBITS) == Kraft(lens, n)
  {
    if n == 0 {
      FirstOfNone(lens, MAXBITS);
    } else {
      KraftIsEnd(lens, n - 1);
      FirstOfOneMore(lens, n - 1, MAXBITS);
      assert Pow2(0) == 1;
    }
  }

  lemma DoubleProduct(a: nat, k: nat)
    ensures a * Pow2(k + 1) == 2 * (a * Pow2(k))
  {
    assert Pow2(k + 1) == 2 * Pow2(k);
    assert a * (2 * Pow2(k)) == 2 * (a * Pow2(k));
  }

  /** The codes of a longer length start above all extensions of the shorter ones. */
  lemma {:induction false} FirstAbove(lens: Lengths, k: nat, l: nat)
    requires k < l
    ensures End(lens, k) * Pow2(l - k) <= First(lens, |lens|, l)
    decreases l
  {
    if k == l - 1 {
      assert Pow2(1) == 2;
    } else {
      FirstAbove(lens, k, l - 1);
      DoubleProduct(End(lens, k), l - 1 - k);
    }
  }

  lemma CancelFactor(a: nat, b: nat, p: nat)
    requires p > 0 && a * p <= b * p
    ensures a <= b
  {
    assert (b + 1) * p == b * p + p;
    MulCancel(a, b + 1, p);
  }

  /** In a prefix-valid code every code fits in its length. */
  lemma EndFits(lens: Lengths, l: nat)
    requires PrefixValid(lens) && l <= MAXBITS
    ensures End(lens, l) <= Pow2(l)
  {
    KraftIsEnd(lens, |lens|);
    if l < MAXBITS {
      FirstAbove(lens, l, MAXBITS);
      Pow2Add(l, MAXBITS - l);
      CancelFactor(End(lens, l), Pow2(l), Pow2(MAXBITS - l));
    }
  }

  lemma {:induction false} CountMonotone(lens: Lengths, m: nat, n: nat, l: nat)
    requires m <= n <= |lens|
    ensures Count(lens, m, l) <= Count(lens, n, l)
    decreases n
  {
    if m < n {
      CountMonotone(lens, m, n - 1, l);
    }
  }

  lemma RankBound(lens: Lengths, s: nat)
    requires Used(lens, s)
    ensures Rank(lens, s) < Count(lens, |lens|, lens[s])
  {
    CountMonotone(lens, s + 1, |lens|, lens[s]);
  }

  lemma CodeFits(lens: Lengths, s: nat)
    requires PrefixValid(lens) && Used(lens, s)
    ensures First(lens, |lens|, lens[s]) <= Code(lens, s) < End(lens, lens[s]) <= Pow2(lens[s])
  {
    RankBound(lens, s);
    EndFits(lens, lens[s]);
  }

  /** Symbols of one length are told apart by their rank. */
  lemma RankInjective(lens: Lengths, s: nat, t: nat)
    requires Used(lens, s) && Used(lens, t) && lens[s] == lens[t] && s < t
    ensures Rank(lens, s) < Rank(lens, t)
  {
    CountMonotone(lens, s + 1, t, lens[s]);
  }

  /** Every rank below the count belongs to a symbol. */
  lemma {:induction false} SymbolOfRank(lens: Lengths, n: nat, l: nat, r: nat) returns (s: nat)
    requires n <= |lens| && l > 0 && r < Count(lens, n, l)
    ensures s < n && lens[s] == l && Rank(lens, s) == r
  {
    if lens[n - 1] == l && Count(lens, n - 1, l) == r {
      s := n - 1;
    } else {
      s := SymbolOfRank(lens, n - 1, l, r);
    }
  }

  // ---------- decoding as the code prescribes it ----------

  lemma DivAtLeast(x: nat, d: nat, k: nat)
    requires d > 0 && k * d <= x
    ensures x / d >= k
  {
    DivisionEquation(x, d);
    assert (x / d + 1) * d == (x / d) * d + d;
    MulCancel(k, x / d + 1, d);
  }

  /** Every proper prefix of a codeword lies above the codes of its length, and the whole
      lies among the codes of its own. */
  lemma CodewordPrefixes(lens: Lengths, s: nat, l: nat)
    requires PrefixValid(lens) && Used(lens, s) && 1 <= l <= lens[s]
    ensures l < lens[s] ==> CodeOf(Codeword(lens, s), l) >= End(lens, l)
    ensures l == lens[s] ==> CodeOf(Codeword(lens, s), l) == Code(lens, s) < End(lens, l)
  {
    var L := lens[s];
    CodeFits(lens, s);
    CodeOfMsb(Code(lens, s), L);
    CodeOfShorter(Codeword(lens, s), l, L);
    if l < L {
      FirstAbove(lens, l, L);
      DivAtLeast(Code(lens, s), Pow2(L - l), End(lens, l));
    }
  }

  /** No codeword is a prefix of another. */
  lemma PrefixFree(lens: Lengths, s: nat, t: nat)
    requires PrefixValid(lens) && Used(lens, s) && Used(lens, t)
    requires Codeword(lens, s) <= Codeword(lens, t)
    ensures s == t
  {
    CodewordPrefixes(lens, s, lens[s]);
    CodewordPrefixes(lens, t, lens[t]);
    CodeOfPrefix(Codeword(lens, s), Codeword(lens, t), lens[s]);
    if lens[s] < lens[t] {
      CodewordPrefixes(lens, t, lens[s]);
    } else if s < t {
      RankInjective(lens, s, t);
    } else if t < s {
      RankInjective(lens, t, s);
    }
  }

  lemma LongestCode(lens: Lengths, w: bits)
    requires Complete(lens) && |w| >= MAXBITS
    ensures CodeOf(w, MAXBITS) < End(lens, MAXBITS)
  {
    KraftIsEnd(lens, |lens|);
    MsbOfCode(w, MAXBITS);
  }

  /** The first length at which the bits are below the end of the codes is that of a codeword. */
  lemma ShortestCode(lens: Lengths, w: bits, l: nat) returns (s: nat)
    requires PrefixValid(lens) && 1 <= l <= MAXBITS <= |w|
    requires First(lens, |lens|, l) <= CodeOf(w, l) < End(lens, l)
    ensures Used(lens, s) && Codeword(lens, s) <= w
  {
    s := SymbolOfRank(lens, |lens|, l, CodeOf(w, l) - First(lens, |lens|, l));
    MsbOfCode(w, l);
  }

  /** A complete code decodes every bit string: 15 bits always begin with a codeword. */
  lemma CompleteDecodes(lens: Lengths, w: bits) returns (s: nat)
    requires Complete(lens) && |w| >= MAXBITS
    ensures Used(lens, s) && Codeword(lens, s) <= w
  {
    LongestCode(lens, w);
    var l := 1;
    while CodeOf(w, l) >= End(lens, l)
      invariant 1 <= l <= MAXBITS
      invariant First(lens, |lens|, l) <= CodeOf(w, l)
      decreases MAXBITS - l
    {
      l := l + 1;
    }
    s := ShortestCode(lens, w, l);
  }

  /** The concatenated codewords of a list of symbols. */
  ghost function Codewords(lens: Lengths, xs: seq<nat>): bits {
    if |xs| == 0 then [] else Codeword(lens, xs[0]) + Codewords(lens, xs[1..])
  }

  /** All symbols of the list have codewords. */
  ghost predicate AllUsed(lens: Lengths, xs: seq<nat>) {
    forall i :: 0 <= i < |xs| ==> Used(lens, xs[i])
  }

  /** Of two strings that start the same longer one, one starts the other. */
  lemma CommonStart(a: bits, b: bits, v: bits)
    requires a <= v && b <= v
    ensures a <= b || b <= a
  {
  }

  lemma CutStart(a: bits, b: bits, v: bits)
    requires a + b <= v
    ensures a <= v && b <= v[|a|..]
  {
    assert (a + b)[|a|..] == b;
  }

  /** Unique decodability: of two symbol lists whose encodings start the same bit string, one
      continues the other. */
  lemma {:induction false} UniquelyDecodable(lens: Lengths, xs: seq<nat>, ys: seq<nat>, v: bits)
    requires PrefixValid(lens) && AllUsed(lens, xs) && AllUsed(lens, ys)
    requires Codewords(lens, xs) <= v && Codewords(lens, ys) <= v
    ensures xs <= ys || ys <= xs
  {
    if |xs| > 0 && |ys| > 0 {
      var x, y, xs', ys' := xs[0], ys[0], xs[1..], ys[1..];
      CutStart(Codeword(lens, x), Codewords(lens, xs'), v);
      CutStart(Codeword(lens, y), Codewords(lens, ys'), v);
      CommonStart(Codeword(lens, x), Codeword(lens, y), v);
      if Codeword(lens, x) <= Codeword(lens, y) {
        PrefixFree(lens, x, y);
      } else {
        PrefixFree(lens, y, x);
      }
      UniquelyDecodable(lens, xs', ys', v[lens[x]..]);
      assert xs == [x] + xs' && ys == [y] + ys';
    }
  }

  lemma PrefixJoins(a: bits, b: bits, v: bits)
    requires a <= v && b <= v[|a|..]
    ensures a + b <= v
  {
    assert v == a + v[|a|..];
  }

  lemma {:induction false} SplitNext(lens: Lengths, v: bits, s: nat, rest: seq<nat>)
    requires Used(lens, s) && Codeword(lens, s) <= v
    requires AllUsed(lens, rest) && Codewords(lens, rest) <= v[lens[s]..]
    ensures AllUsed(lens, [s] + rest) && Codewords(lens, [s] + rest) <= v
    ensures |Codewords(lens, [s] + rest)| == lens[s] + |Codewords(lens, rest)|
  {
    assert ([s] + rest)[1..] == rest;
    PrefixJoins(Codeword(lens, s), Codewords(lens, rest), v);
  }

  /** A complete code splits every bit string into codewords, up to a rest of fewer than
      15 bits. */
  lemma {:induction false} CompleteSplits(lens: Lengths, v: bits) returns (xs: seq<nat>)
    requires Complete(lens)
    ensures AllUsed(lens, xs) && Codewords(lens, xs) <= v && |v| - |Codewords(lens, xs)| < MAXBITS
    decreases |v|
  {
    if |v| < MAXBITS {
      xs := [];
    } else {
      var s := CompleteDecodes(lens, v);
      var rest := CompleteSplits(lens, v[lens[s]..]);
      xs := [s] + rest;
      SplitNext(lens, v, s, rest);
    }
  }

  // ---------- the table form ----------

  /** How many used symbols are shorter than l: where length l starts in the sorted table. */
  ghost function Offset(lens: Lengths, n: nat, l: nat): nat
    requires n <= |lens|
  {
    if l == 0 then 0 else Offset(lens, n, l - 1) + Count(lens, n, l - 1)
  }

  /** The place of a symbol when the used symbols are sorted by (length, symbol). */
  ghost function Place(lens: Lengths, s: nat): nat
    requires Used(lens, s)
  {
    Offset(lens, |lens|, lens[s]) + Rank(lens, s)
  }

  lemma {:induction false} OffsetMonotone(lens: Lengths, k: nat, l: nat)
    requires k < l
    ensures Offset(lens, |lens|, k) + Count(lens, |lens|, k) <= Offset(lens, |lens|, l)
    decreases l
  {
    if k < l - 1 {
      OffsetMonotone(lens, k, l - 1);
    }
  }

  /** Place sorts by (length, symbol). */
  lemma PlaceSorts(lens: Lengths, s: nat, t: nat)
    requires Used(lens, s) && Used(lens, t)
    requires lens[s] < lens[t] || (lens[s] == lens[t] && s < t)
    ensures Place(lens, s) < Place(lens, t)
  {
    if lens[s] < lens[t] {
      RankBound(lens, s);
      OffsetMonotone(lens, lens[s], lens[t]);
    } else {
      RankInjective(lens, s, t);
    }
  }

  /** The total number of used symbols among the first n. */
  ghost function UsedCount(lens: Lengths, n: nat): (c: nat)
    requires n <= |lens|
    ensures c <= n
  {
    if n == 0 then 0 else UsedCount(lens, n - 1) + (if lens[n - 1] > 0 then 1 else 0)
  }

  lemma {:induction false} OffsetOfOneMore(lens: Lengths, n: nat, l: nat)
    requires n < |lens|
    ensures Offset(lens, n + 1, l) == Offset(lens, n, l) + (if 0 < lens[n] < l then 1 else 0)
  {
    if l > 0 {
      OffsetOfOneMore(lens, n, l - 1);
    }
  }

  lemma {:induction false} OffsetOfNone(lens: Lengths, l: nat)
    ensures Offset(lens, 0, l) == 0
  {
    if l > 0 {
      OffsetOfNone(lens, l - 1);
    }
  }

  lemma {:induction false} OffsetTotal(lens: Lengths, n: nat)
    requires n <= |lens|
    ensures Offset(lens, n, MAXBITS + 1) == UsedCount(lens, n)
  {
    if n == 0 {
      OffsetOfNone(lens, MAXBITS + 1);
    } else {
      OffsetTotal(lens, n - 1);
      OffsetOfOneMore(lens, n - 1, MAXBITS + 1);
    }
  }

  /** Places lie in the first UsedCount table entries. */
  lemma PlaceBound(lens: Lengths, s: nat)
    requires Used(lens, s)
    ensures Place(lens, s) < UsedCount(lens, |lens|) <= |lens|
  {
    RankBound(lens, s);
    OffsetMonotone(lens, lens[s], MAXBITS + 1);
    OffsetTotal(lens, |lens|);
  }

  /** Every one of these entries belongs to exactly one symbol. */
  lemma PlaceOnto(lens: Lengths, i: nat) returns (s: nat)
    requires i < UsedCount(lens, |lens|)
    ensures Used(lens, s) && Place(lens, s) == i
  {
    OffsetTotal(lens, |lens|);
    var l := 0;
    while Offset(lens, |lens|, l + 1) <= i
      invariant 0 <= l <= MAXBITS && Offset(lens, |lens|, l) <= i
      decreases MAXBITS - l
    {
      l := l + 1;
    }
    s := SymbolOfRank(lens, |lens|, l, i - Offset(lens, |lens|, l));
  }

  /** The pair of arrays the decoder works with: counts per length, and the used symbols
      sorted by (length, symbol). */
  ghost predicate IsTable(table: seq<nat>, trans: seq<nat>, lens: Lengths) {
    |table| == MAXBITS + 1 && |lens| <= |trans| &&
    (forall l :: 0 <= l <= MAXBITS ==> table[l] == Count(lens, |lens|, l)) &&
    (forall s :: Used(lens, s) ==> Place(lens, s) < |trans| && trans[Place(lens, s)] == s)
  }
}
