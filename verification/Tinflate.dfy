/** The inflater (standalone/tinflate.c). */
module Tinflate {
  import opened Words
  import opened Bits
  import opened Huffman
  import opened DeflateFormat
  import opened TinfTables

  lemma Assoc(a: bits, b: bits, c: bits)
    ensures (a + b) + c == a + (b + c)
  {
  }

  /** Taking bit i of w from a stream. */
  lemma BitStep(w: bits, i: nat, more: bits)
    requires i < |w|
    ensures |w[i..] + more| > 0 && (w[i..] + more)[0] == w[i] && (w[i..] + more)[1..] == w[i + 1..] + more
    ensures w[..i + 1] == w[..i] + [w[i]]
  {
  }

  /** Where the loop of the symbol decoder ends up: at the place of the symbol. */
  lemma PlaceReached(lens: Lengths, s: nat, len: nat, sum: int, cur: int)
    requires Used(lens, s) && len == lens[s]
    requires sum == Offset(lens, |lens|, len + 1) && cur == Code(lens, s) - End(lens, len)
    ensures sum + cur == Place(lens, s)
  {
  }

  /** The unread bits when `n` bits are left in the buffer `tag` and the next byte is at i. */
  ghost function Unread(src: seq<byte>, i: nat, tag: nat, n: nat): bits
    requires i <= |src|
    decreases |src| - i, n
  {
    if n > 0 then [tag % 2] + Unread(src, i, tag / 2, n - 1)
    else if i < |src| then [src[i] % 2] + Unread(src, i + 1, src[i] / 2, 7)
    else []
  }

  lemma {:induction false} UnreadIs(src: seq<byte>, i: nat, tag: nat, n: nat)
    requires i <= |src|
    ensures Unread(src, i, tag, n) == Lsb(tag, n) + BitsFrom(src, i)
    decreases |src| - i, n
  {
    if n > 0 {
      UnreadIs(src, i, tag / 2, n - 1);
    } else if i < |src| {
      UnreadIs(src, i + 1, src[i] / 2, 7);
    }
  }

  lemma UnreadAligned(src: seq<byte>, i: nat, tag: nat)
    requires i <= |src|
    ensures Unread(src, i, tag, 0) == BitsFrom(src, i)
  {
    UnreadIs(src, i, tag, 0);
    assert Lsb(tag, 0) + BitsFrom(src, i) == BitsFrom(src, i);
  }

  /** While code lengths are missing there is a next run, and it fits. */
  lemma RunsStep(rs: seq<Run>, cl: Lengths, out: seq<nat>, lens: seq<nat>)
    requires RunsOut(rs, cl, out) == Some(lens) && |out| < |lens|
    ensures |rs| > 0 && RunOk(rs[0], cl, |out|)
    ensures RunsOut(rs[1..], cl, RunOut(rs[0], out)) == Some(lens)
    ensures |out| < |RunOut(rs[0], out)| <= |lens|
    ensures RunsBits(rs, cl) == RunBits(rs[0], cl) + RunsBits(rs[1..], cl)
  {
  }

  lemma RunsDone(rs: seq<Run>, cl: Lengths, out: seq<nat>, lens: seq<nat>)
    requires RunsOut(rs, cl, out) == Some(lens) && |out| >= |lens|
    ensures rs == [] && out == lens
  {
  }

  /** The symbol of a run, and the number in its extra bits. */
  lemma RunLayout(r: Run, cl: Lengths, n: nat, more: bits, all: bits) returns (s: nat, x: nat)
    requires RunOk(r, cl, n) && all == RunBits(r, cl) + more
    ensures Used(cl, s) && s <= 18
    ensures s < 16 ==> r == Plain(s) && all == Codeword(cl, s) + more
    ensures s == 16 ==> r == Again(3 + x) && x < 4 && all == Codeword(cl, 16) + (Lsb(x, 2) + more)
    ensures s == 17 ==> r == ZerosShort(3 + x) && x < 8 && all == Codeword(cl, 17) + (Lsb(x, 3) + more)
    ensures s == 18 ==> r == ZerosLong(11 + x) && x < 128 && all == Codeword(cl, 18) + (Lsb(x, 7) + more)
  {
    s := RunSymbol(r);
    x := match r case Plain(_) => 0 case ZerosLong(count) => count - 11 case _ => r.count - 3;
    Assoc(Codeword(cl, s), RunExtra(r), more);
  }

  /** The transmission order visits every code length symbol once. */
  lemma ClcidxInjective(i: nat)
    requires i < 19
    ensures forall k :: 0 <= k < 19 && k != i ==> ClIndex(k) != ClIndex(i)
  {
  }

  lemma ClcidxOnto(s: nat) returns (k: nat)
    requires s < 19
    ensures k < 19 && ClIndex(k) == s
  {
    k := [3, 17, 15, 13, 11, 9, 7, 5, 4, 6, 8, 10, 12, 14, 16, 18, 0, 1, 2][s];
  }

  /** The fields HLIT, HDIST and HCLEN as they are packed. */
  datatype Counts = Counts(lit: nat, dist: nat, cl: nat)

  ghost predicate CountsOf(h: Header, n: Counts) {
    n.lit < 32 && n.dist < 32 && n.cl < 16 && h.hlit == 257 + n.lit && h.hdist == 1 + n.dist && h.hclen == 4 + n.cl
  }

  lemma FourParts(b1: bits, b2: bits, b3: bits, cls: bits, runs: bits, more: bits)
    returns (r1: bits, r2: bits, r3: bits, r4: bits)
    ensures (b1 + (b2 + (b3 + (cls + runs)))) + more == b1 + r1
    ensures r1 == b2 + r2 && r2 == b3 + r3 && r3 == cls + r4 && r4 == runs + more
  {
    r4 := runs + more;
    r3 := cls + r4;
    r2 := b3 + r3;
    r1 := b2 + r2;
    Assoc(cls, runs, more);
    Assoc(b3, cls + runs, more);
    Assoc(b2, b3 + (cls + runs), more);
    Assoc(b1, b2 + (b3 + (cls + runs)), more);
  }

  /** The parts of a header, in stream order, each with what follows it. */
  lemma HeaderLayout(h: Header, more: bits, all: bits)
    returns (n: Counts, r1: bits, r2: bits, r3: bits, r4: bits)
    requires HeaderShape(h) && all == HeaderBits(h) + more
    ensures CountsOf(h, n)
    ensures all == Lsb(n.lit, 5) + r1 && r1 == Lsb(n.dist, 5) + r2 && r2 == Lsb(n.cl, 4) + r3
    ensures r3 == ClBits(h.cl, 0, h.hclen) + r4 && r4 == RunsBits(h.runs, h.cl) + more
  {
    n := Counts(h.hlit - 257, h.hdist - 1, h.hclen - 4);
    var runs, cls := RunsBits(h.runs, h.cl), ClBits(h.cl, 0, h.hclen);
    r1, r2, r3, r4 := FourParts(Lsb(n.lit, 5), Lsb(n.dist, 5), Lsb(n.cl, 4), cls, runs, more);
  }

  /** What stands at the head of the items of a block: the first symbol `s`, what follows
      each part of the first item, the output after that item, and its length and distance if it
      is a match. */
  datatype ItemParts = ItemParts(s: nat, r0: bits, r1: bits, r2: bits, r3: bits, out: seq<byte>, n: nat, far: nat)

  /** The parts of an item that is not the end-of-block symbol, which takes the output from `out`
      to p.out. */
  ghost predicate PartsOf(p: ItemParts, x: Item, dist: Lengths, out: seq<byte>) {
    if p.s < 256 then p.r0 == p.r3 && p.out == out + [p.s]
    else
      x.Copy? && ItemShape(x) && p.s == 257 + x.lsym && Used(dist, x.dsym) &&
      p.n == LengthBase(x.lsym) + x.lextra && p.far == DistBase(x.dsym) + x.dextra &&
      0 < p.far <= |out| && p.out == CopyBack(out, p.n, p.far) &&
      p.r0 == Lsb(x.lextra, LengthExtra(x.lsym)) + p.r1 && p.r1 == Codeword(dist, x.dsym) + p.r2 &&
      p.r2 == Lsb(x.dextra, DistExtra(x.dsym)) + p.r3
  }

  /** The bits behind the codeword of p.s: none of a literal, those of length and distance of a match. */
  ghost predicate TurnAhead(p: ItemParts, x: Item, dist: Lengths, used: nat) {
    p.s != 256 && (p.s < 256 ==> p.r0 == p.r3) &&
    (p.s > 256 ==>
      x.Copy? && p.s == 257 + x.lsym && x.lsym < 29 && x.lextra < Pow2(LengthExtra(x.lsym)) &&
      x.dsym < 30 && Used(dist, x.dsym) && x.dextra < Pow2(DistExtra(x.dsym)) &&
      p.r0 == Lsb(x.lextra, LengthExtra(x.lsym)) + p.r1 && p.r1 == Codeword(dist, x.dsym) + p.r2 &&
      p.r2 == Lsb(x.dextra, DistExtra(x.dsym)) + p.r3 &&
      p.n == LengthBase(x.lsym) + x.lextra && p.far == DistBase(x.dsym) + x.dextra && 0 < p.far <= used)
  }

  /** They are parts of an item, with the output after it. */
  lemma TurnParts(p: ItemParts, x: Item, dist: Lengths, out: seq<byte>) returns (q: ItemParts)
    requires TurnAhead(p, x, dist, |out|)
    ensures PartsOf(q, x, dist, out) && |out| < |q.out| && q.s == p.s && q.r0 == p.r0 && q.r3 == p.r3
    ensures p.s < 256 ==> q.out == out + [p.s] && |q.out| == |out| + 1
    ensures p.s > 256 ==> q.out == CopyBack(out, p.n, p.far) && |q.out| == |out| + p.n
  {
    q := p.(out := if p.s < 256 then out + [p.s] else CopyBack(out, p.n, p.far));
  }

  /** What a length/distance pair does to the output. */
  lemma EmitCopy(out: seq<byte>, x: Item) returns (n: nat, far: nat)
    requires x.Copy? && ItemShape(x) && TokenFits(TokenOf(x), |out|)
    ensures n == LengthBase(x.lsym) + x.lextra && far == DistBase(x.dsym) + x.dextra && 0 < far <= |out|
    ensures Emit(out, TokenOf(x)) == CopyBack(out, n, far)
  {
    n, far := LengthBase(x.lsym) + x.lextra, DistBase(x.dsym) + x.dextra;
  }

  lemma PairParts(a: bits, b: bits, c: bits, d: bits, more: bits)
    ensures (a + (b + (c + d))) + more == a + (b + (c + (d + more)))
  {
    Assoc(c, d, more);
    Assoc(b, c + d, more);
    Assoc(a, b + (c + d), more);
  }

  lemma ItemLayout(xs: seq<Item>, c: Codes, out: seq<byte>, final: seq<byte>, more: bits, all: bits)
    returns (p: ItemParts)
    requires ItemsOut(xs, c.lit, c.dist, out) == Some(final) && Used(c.lit, END_OF_BLOCK)
    requires all == ItemsBits(xs, c.lit, c.dist) + more
    ensures Used(c.lit, p.s) && all == Codeword(c.lit, p.s) + p.r0
    ensures |xs| == 0 ==> p.s == END_OF_BLOCK && p.r0 == more && out == final
    ensures |xs| > 0 ==>
      p.s != END_OF_BLOCK && p.r3 == ItemsBits(xs[1..], c.lit, c.dist) + more && PartsOf(p, xs[0], c.dist, out) &&
      ItemsOut(xs[1..], c.lit, c.dist, p.out) == Some(final) && |out| < |p.out| <= |final|
  {
    if |xs| == 0 {
      p := ItemParts(END_OF_BLOCK, more, [], [], [], out, 0, 0);
    } else {
      var r3, out' := ItemsBits(xs[1..], c.lit, c.dist) + more, Emit(out, TokenOf(xs[0]));
      Assoc(ItemBits(xs[0], c.lit, c.dist), ItemsBits(xs[1..], c.lit, c.dist), more);
      match xs[0]
      case Lit(b) =>
        p := ItemParts(b, r3, [], [], r3, out', 0, 0);
      case Copy(ls, le, ds, de) =>
        var n, far := EmitCopy(out, xs[0]);
        var r2 := Lsb(de, DistExtra(ds)) + r3;
        var r1 := Codeword(c.dist, ds) + r2;
        p := ItemParts(257 + ls, Lsb(le, LengthExtra(ls)) + r1, r1, r2, r3, out', n, far);
        PairParts(Codeword(c.lit, p.s), Lsb(le, LengthExtra(ls)), Codeword(c.dist, ds), Lsb(de, DistExtra(ds)), r3);
    }
  }

  /** In d, i bytes of a match at distance `offs` have been added to `out`, up to index k; the
      rest is as in d0. */
  ghost predicate CopyingAt(d: seq<byte>, d0: seq<byte>, base: nat, out: seq<byte>, k: nat, i: nat, offs: nat)
    requires 0 < offs <= |out|
  {
    k == base + |out| + i <= |d| == |d0| && d[base..k] == CopyBack(out, i, offs) && d[k..] == d0[k..] &&
    d[..base] == d0[..base]
  }

  lemma CopyingNext(d: seq<byte>, d0: seq<byte>, base: nat, out: seq<byte>, k: nat, i: nat, offs: nat)
    requires 0 < offs <= |out| && CopyingAt(d, d0, base, out, k, i, offs) && k < |d|
    ensures CopyingAt(d[k := d[k - offs]], d0, base, out, k + 1, i + 1, offs)
  {
    CopyBackSnoc(out, i, offs);
    assert d[k - offs] == d[base..k][|out| + i - offs];
    assert d[k := d[k - offs]][base..k + 1] == d[base..k] + [d[k - offs]];
  }

  // ---------- stored blocks ----------

  /** A stored block as it stands in the stream: padding, length, inverted length, data and
      what follows. With a failing length check, whatever follows the two lengths is `more`. */
  datatype StoredParts = StoredParts(pad: bits, len: nat, nlen: nat, data: seq<byte>, more: bits)

  ghost predicate StoredAt(x: StoredParts, bitcount: nat, rest: bits) {
    |x.pad| == bitcount && x.len < 0x1_0000 && x.nlen < 0x1_0000 &&
    x.data == (if x.len + x.nlen == 0xFFFF then x.data else []) &&
    (x.len + x.nlen == 0xFFFF ==> |x.data| == x.len) &&
    rest == x.pad + (Lsb(x.len, 16) + (Lsb(x.nlen, 16) + (BytesBits(x.data) + x.more)))
  }

  lemma HalveSum(x: nat, p: nat, y: nat)
    ensures (x + (2 * p) * y) % 2 == x % 2 && (x + (2 * p) * y) / 2 == x / 2 + p * y
  {
    assert (2 * p) * y == 2 * (p * y);
  }

  lemma {:induction false} LsbJoin(x: nat, m: nat, y: nat, n: nat)
    requires x < Pow2(m)
    ensures Lsb(x, m) + Lsb(y, n) == Lsb(x + Pow2(m) * y, m + n)
  {
    if m > 0 {
      LsbJoin(x / 2, m - 1, y, n);
      HalveSum(x, Pow2(m - 1), y);
      Assoc([x % 2], Lsb(x / 2, m - 1), Lsb(y, n));
    }
  }

  lemma LsbInjective(x: nat, y: nat, n: nat)
    requires x < Pow2(n) && y < Pow2(n) && Lsb(x, n) == Lsb(y, n)
    ensures x == y
  {
    NumberOfLsb(x, n);
    NumberOfLsb(y, n);
  }

  /** `256*high + low`. */
  function TwoByteNumber(low: byte, high: byte): (x: int)
    ensures 0 <= x < 0x1_0000
  {
    var h: int := high;
    256 * h + low
  }

  /** Sixteen aligned bits are two bytes, the low one first. */
  lemma TwoBytes(src: seq<byte>, i: nat, x: nat, more: bits)
    requires i <= |src| && x < 0x1_0000 && BitsFrom(src, i) == Lsb(x, 16) + more
    ensures i + 2 <= |src| && TwoByteNumber(src[i], src[i + 1]) == x && BitsFrom(src, i + 2) == more
  {
    Pow2Values();
    var w := Lsb(src[i], 8) + Lsb(src[i + 1], 8);
    LsbJoin(src[i], 8, src[i + 1], 8);
    Assoc(Lsb(src[i], 8), Lsb(src[i + 1], 8), BitsFrom(src, i + 2));
    assert BitsFrom(src, i) == w + BitsFrom(src, i + 2);
    assert BitsFrom(src, i)[..16] == w == Lsb(x, 16);
    assert BitsFrom(src, i)[16..] == BitsFrom(src, i + 2) == more;
    LsbInjective(x, TwoByteNumber(src[i], src[i + 1]), 16);
  }

  lemma FirstByte(src: seq<byte>, i: nat, data: seq<byte>, more: bits)
    requires i <= |src| && |data| > 0 && BitsFrom(src, i) == BytesBits(data) + more
    ensures i < |src| && src[i] == data[0] && BitsFrom(src, i + 1) == BytesBits(data[1..]) + more
  {
    Assoc(Lsb(data[0], 8), BytesBits(data[1..]), more);
    var tail := BytesBits(data[1..]) + more;
    assert BitsFrom(src, i)[..8] == Lsb(src[i], 8) == Lsb(data[0], 8);
    assert BitsFrom(src, i)[8..] == BitsFrom(src, i + 1) == tail;
    Pow2Values();
    LsbInjective(src[i], data[0], 8);
  }

  /** Where the bits of `data` stand aligned, its bytes stand. */
  lemma {:induction false} StoredBytes(src: seq<byte>, i: nat, data: seq<byte>, k: nat, more: bits)
    requires i <= |src| && k == i + |data| && BitsFrom(src, i) == BytesBits(data) + more
    ensures k <= |src| && src[i..k] == data && BitsFrom(src, k) == more
    decreases |data|
  {
    if |data| == 0 {
      assert BytesBits(data) + more == more;
    } else {
      FirstByte(src, i, data, more);
      StoredBytes(src, i + 1, data[1..], k, more);
      assert src[i..k] == [src[i]] + src[i + 1..k];
    }
  }

  /** The bytes of a stored block, past the bits left in the buffer. */
  lemma StoredLayout(src: seq<byte>, pos: nat, tag: nat, n: nat, x: StoredParts, rest: bits)
    requires pos <= |src| && rest == Unread(src, pos, tag, n) && StoredAt(x, n, rest)
    ensures pos + 4 <= |src|
    ensures TwoByteNumber(src[pos], src[pos + 1]) == x.len
    ensures TwoByteNumber(src[pos + 2], src[pos + 3]) == x.nlen
    ensures BitsFrom(src, pos + 4) == BytesBits(x.data) + x.more
  {
    UnreadIs(src, pos, tag, n);
    var r2 := BytesBits(x.data) + x.more;
    var r1 := Lsb(x.nlen, 16) + r2;
    var r0 := Lsb(x.len, 16) + r1;
    assert rest[n..] == BitsFrom(src, pos) == r0;
    TwoBytes(src, pos, x.len, r1);
    TwoBytes(src, pos + 2, x.nlen, r2);
  }

  lemma {:induction false} UnreadLength(src: seq<byte>, i: nat, tag: nat, n: nat)
    requires i <= |src|
    ensures |Unread(src, i, tag, n)| == n + 8 * (|src| - i)
  {
    UnreadIs(src, i, tag, n);
  }

  lemma StoredIsAt(x: StoredParts, rest: bits)
    requires x.len < 0x1_0000 && x.nlen < 0x1_0000 && if x.len + x.nlen == 0xFFFF then |x.data| == x.len else x.data == []
    requires rest == StoredBits(x.pad, x.len, x.nlen, x.data) + x.more
    ensures StoredAt(x, |x.pad|, rest)
  {
    PairParts(x.pad, Lsb(x.len, 16), Lsb(x.nlen, 16), BytesBits(x.data), x.more);
  }

  lemma StoredParse(b: Body, p: nat, out: seq<byte>, more: bits, rest: bits) returns (x: StoredParts)
    requires b.Stored? || b.BadStored?
    requires BodyOut(b, p, out).Some? && rest == BodyBits(b) + more
    ensures StoredAt(x, |b.pad|, rest) && x.more == more && (x.len + x.nlen == 0xFFFF <==> b.Stored?)
    ensures b.Stored? ==> x.data == b.data
  {
    match b {
      case Stored(pad, data) =>
        x := StoredParts(pad, |data|, Complement(|data|), data, more);
      case BadStored(pad, len, nlen) =>
        x := StoredParts(pad, len, nlen, [], more);
    }
    StoredIsAt(x, rest);
  }

  lemma PadLength(a: nat, n: nat, p: nat, pos: nat)
    requires a < 8 && n < 8 && (p + a) % 8 == 0 && p + n == 8 * pos
    ensures a == n
  {
  }

  /** A stored block whose header ends at bit position p + 3: the padding is what is left in
      the buffer. */
  lemma StoredBody(b: Body, p: nat, out: seq<byte>, src: seq<byte>, pos: nat, tag: nat, n: nat, more: bits, rest: bits)
    returns (x: StoredParts)
    requires b.Stored? || b.BadStored?
    requires BodyOut(b, p, out).Some? && rest == BodyBits(b) + more && p + 3 + |rest| == 8 * |src|
    requires pos <= |src| && n <= 7 && rest == Unread(src, pos, tag, n)
    ensures StoredAt(x, n, rest) && x.more == more && (x.len + x.nlen == 0xFFFF <==> b.Stored?)
    ensures b.Stored? ==> x.data == b.data
  {
    UnreadLength(src, pos, tag, n);
    PadLength(|b.pad|, n, p + 3, pos);
    x := StoredParse(b, p, out, more, rest);
  }

  lemma ReservedBody(b: Body, p: nat, out: seq<byte>, out': seq<byte>)
    requires BodyType(b) >= 3 && BodyOut(b, p, out) == Some(out')
    ensures b.Reserved? && out' == out
  {
  }

  // ---------- the fixed codes are complete ----------

  lemma {:induction false} FixedLitKraft(n: nat)
    requires n <= 288
    ensures Kraft(FixedLit(), n) ==
      if n <= 144 then 128 * n
      else if n <= 256 then 18432 + 64 * (n - 144)
      else if n <= 280 then 25600 + 256 * (n - 256)
      else 31744 + 128 * (n - 280)
  {
    if n > 0 {
      FixedLitKraft(n - 1);
      assert FixedLit()[n - 1] == FixedLitLength(n - 1);
      assert Pow2(8) == 256;
    }
  }

  lemma {:induction false} FixedDistKraft(n: nat)
    requires n <= 32
    ensures Kraft(FixedDist(), n) == 1024 * n
  {
    if n > 0 {
      FixedDistKraft(n - 1);
      assert Pow2(10) == 1024;
    }
  }

  lemma FullKraft(lens: Lengths)
    requires Kraft(lens, |lens|) == 32768
    ensures Complete(lens)
  {
    Pow2Values();
  }

  lemma FixedComplete()
    ensures Complete(FixedLit()) && Complete(FixedDist())
  {
    FixedLitKraft(|FixedLit()|);
    FullKraft(FixedLit());
    FixedDistKraft(|FixedDist()|);
    FullKraft(FixedDist());
  }

  // ---------- blocks in the stream ----------

  lemma TripleParts(a: bits, b: bits, c: bits, more: bits)
    ensures (a + (b + c)) + more == a + (b + (c + more))
  {
    Assoc(b, c, more);
    Assoc(a, b + c, more);
  }

  /** The bits of a stream: those of its first block, part by part, and the others. */
  lemma BlockLayout(bs: seq<Block>, trailing: bits, all: bits)
    returns (f: bit, r0: bits, r1: bits, r2: bits)
    requires |bs| > 0 && all == StreamBits(bs) + trailing
    ensures f == 1 <==> bs[0].final
    ensures all == [f] + r0 && r0 == Lsb(BodyType(bs[0].body), 2) + r1 && r1 == BodyBits(bs[0].body) + r2
    ensures r2 == StreamBits(bs[1..]) + trailing
    ensures |r1| == |all| - 3 && |r2| == |all| - |BlockBits(bs[0])|
  {
    f := if bs[0].final then 1 else 0;
    r2 := StreamBits(bs[1..]) + trailing;
    r1 := BodyBits(bs[0].body) + r2;
    r0 := Lsb(BodyType(bs[0].body), 2) + r1;
    Assoc(BlockBits(bs[0]), StreamBits(bs[1..]), trailing);
    TripleParts([f], Lsb(BodyType(bs[0].body), 2), BodyBits(bs[0].body), r2);
  }

  /** The meaning of a stream: its first block adds to the output; then it ends, or the other
      blocks go on. */
  lemma BlockMeaning(bs: seq<Block>, p: nat, out: seq<byte>, final: seq<byte>)
    returns (out': seq<byte>, bs': seq<Block>, p': nat)
    requires StreamOut(bs, p, out) == Some(final)
    ensures |bs| > 0 && BodyOut(bs[0].body, p, out) == Some(out') && |out'| <= |final|
    ensures bs' == bs[1..] && p' == p + |BlockBits(bs[0])|
    ensures bs[0].final || IsBad(bs[0].body) ==> out' == final && |bs| == 1
    ensures !bs[0].final && !IsBad(bs[0].body) ==> |bs| > 1 && StreamOut(bs', p', out') == Some(final)
  {
    var o := BodyOut(bs[0].body, p, out);
    out', bs', p' := o.value, bs[1..], p + |BlockBits(bs[0])|;
    if !bs[0].final && !IsBad(bs[0].body) {
      assert StreamOut(bs, p, out) == StreamOut(bs', p', out');
    }
  }

  /** The first block of a stream: its final bit and body, what follows the parts of the block,
      the output after it, and the blocks after it with their bit position. */
  datatype BlockParts = BlockParts(f: bit, b: Body, r0: bits, r1: bits, r2: bits, out: seq<byte>, bs: seq<Block>, p: nat)

  /** How a stream goes on after its first block, or how it ends. */
  ghost predicate GoesOn(q: BlockParts, bs: seq<Block>, trailing: bits, final: seq<byte>) {
    q.r2 == StreamBits(q.bs) + trailing &&
    if q.f == 1 || IsBad(q.b) then q.out == final && (Accepted(bs) <==> !IsBad(q.b))
    else StreamOut(q.bs, q.p, q.out) == Some(final) && (Accepted(q.bs) <==> Accepted(bs)) && |q.bs| < |bs|
  }

  /** Only the last block decides whether a stream is accepted. */
  lemma LastDecides(bs: seq<Block>)
    requires |bs| > 0
    ensures |bs| == 1 ==> (Accepted(bs) <==> !IsBad(bs[0].body))
    ensures |bs| > 1 ==> (Accepted(bs[1..]) <==> Accepted(bs))
  {
  }

  lemma BlockAhead(bs: seq<Block>, p: nat, out: seq<byte>, final: seq<byte>, trailing: bits, all: bits)
    returns (q: BlockParts)
    requires StreamOut(bs, p, out) == Some(final) && all == StreamBits(bs) + trailing
    ensures all == [q.f] + q.r0 && q.r0 == Lsb(BodyType(q.b), 2) + q.r1 && q.r1 == BodyBits(q.b) + q.r2
    ensures |q.r1| == |all| - 3 && q.p + |q.r2| == p + |all|
    ensures BodyOut(q.b, p, out) == Some(q.out) && |q.out| <= |final| && GoesOn(q, bs, trailing, final)
  {
    var out', bs', p' := BlockMeaning(bs, p, out, final);
    var f, r0, r1, r2 := BlockLayout(bs, trailing, all);
    LastDecides(bs);
    q := BlockParts(f, bs[0].body, r0, r1, r2, out', bs', p');
  }

  /** The header of a dynamic block, and its items. */
  lemma DynamicLayout(b: Body, p: nat, out: seq<byte>, out': seq<byte>, more: bits, all: bits)
    returns (c: Codes, w: bits)
    requires b.Dynamic? && BodyOut(b, p, out) == Some(out') && all == BodyBits(b) + more
    ensures HeaderCodes(b.header) == Some(c) && PrefixValid(c.lit) && PrefixValid(c.dist) && Used(c.lit, END_OF_BLOCK)
    ensures ItemsOut(b.items, c.lit, c.dist, out) == Some(out')
    ensures all == HeaderBits(b.header) + w && w == ItemsBits(b.items, c.lit, c.dist) + more
  {
    c := HeaderCodes(b.header).value;
    w := ItemsBits(b.items, c.lit, c.dist) + more;
    Assoc(HeaderBits(b.header), ItemsBits(b.items, c.lit, c.dist), more);
  }

  /** The bytes `w` have been written to the buffer, from index `base` on, and nothing else. */
  ghost predicate Outputs(d0: seq<byte>, d: seq<byte>, base: nat, n: nat, w: seq<byte>) {
    base + n <= |d| == |d0| && d[base..base + n] == w && d[..base] == d0[..base] && d[base + n..] == d0[base + n..]
  }

  /** TINF_DATA: the reading position with its bit buffer, the output and the dynamic trees.
      Output goes to the array `dest` from index `base` on. The ghost field `rest` is the part of the bit stream that has not been read. */
  class Data {
    const source: seq<byte>
    var pos: nat
    var tag: nat
    var bitcount: nat
    ghost var rest: bits
    const dest: array<byte>
    const base: nat
    var used: nat
    var destLen: nat
    const ltree: Tree
    const dtree: Tree

    /** What is unread: the bits left in the buffer, then the bytes from `pos` on. */
    ghost predicate Reading()
      reads `pos, `tag, `bitcount, `rest
    {
      bitcount <= 7 && pos <= |source| &&
      rest == Unread(source, pos, tag, bitcount)
    }

    /** The two dynamic trees are separate objects. */
    ghost predicate Trees() {
      ltree.Shape() && dtree.Shape() &&
      ltree.table != dtree.table && ltree.table != dtree.trans &&
      ltree.trans != dtree.table && ltree.trans != dtree.trans
    }

    /** The dynamic trees are not among the static tables. */
    ghost predicate Apart(g: Tables) {
      ltree.table !in g.Arrays() && ltree.trans !in g.Arrays() &&
      dtree.table !in g.Arrays() && dtree.trans !in g.Arrays()
    }

    constructor (source: seq<byte>, dest: array<byte>, base: nat, ghost g: Tables)
      ensures this.source == source && this.dest == dest && this.base == base && used == 0 && destLen == 0
      ensures Reading() && rest == BitsFrom(source, 0) && Trees() && Apart(g)
      ensures fresh(ltree) && fresh(dtree)
      ensures fresh(ltree.table) && fresh(ltree.trans) && fresh(dtree.table) && fresh(dtree.trans)
    {
      this.source := source;
      pos, tag, bitcount := 0, 0, 0;
      rest := Unread(source, 0, 0, 0);
      this.dest, this.base := dest, base;
      used, destLen := 0, 0;
      ltree := new Tree();
      dtree := new Tree();
      new;
      UnreadIs(source, 0, 0, 0);
    }

    // ---------- reading bits ----------

    /** tinf_getbit. */
    method GetBit() returns (b: bit)
      requires Reading() && |rest| > 0
      modifies `pos, `tag, `bitcount, `rest
      ensures Reading() && b == old(rest)[0] && rest == old(rest)[1..]
    {
      if bitcount == 0 {
        tag := source[pos];
        pos := pos + 1;
        bitcount := 7;
      } else {
        bitcount := bitcount - 1;
      }
      b := tag % 2;
      tag := tag / 2;
      assert rest == [b] + Unread(source, pos, tag, bitcount);
      rest := rest[1..];
    }

    /** Bit i of w, of which what is left stands next. */
    method NextBit(ghost w: bits, ghost i: nat, ghost more: bits) returns (b: bit)
      requires Reading() && i < |w| && rest == w[i..] + more
      modifies `pos, `tag, `bitcount, `rest
      ensures Reading() && b == w[i] && rest == w[i + 1..] + more && w[..i + 1] == w[..i] + [w[i]]
    {
      BitStep(w, i, more);
      b := GetBit();
    }

    /** tinf_read_bits: the number in the next `num` bits, plus base. */
    method ReadBits(num: nat, base: nat, ghost w: bits, ghost more: bits) returns (r: nat)
      requires Reading() && num <= 30 && rest == w + more && |w| == num
      modifies `pos, `tag, `bitcount, `rest
      ensures Reading() && rest == more && r == base + Number(w)
    {
      var val := 0;
      if num != 0 {
        var limit := Pow2(num);
        var mask := 1;
        ghost var i := 0;
        while mask < limit
          invariant 0 <= i <= num && mask == Pow2(i) && limit == Pow2(num)
          invariant Reading() && rest == w[i..] + more
          invariant val == Number(w[..i])
          decreases num - i
        {
          if i == num {
            assert false;
          }
          NumberSnoc(w[..i], w[i]);
          var b := NextBit(w, i, more);
          if b == 1 {
            val := val + mask;
          }
          mask := mask * 2;
          i := i + 1;
        }
        if i < num {
          Pow2Monotone(i + 1, num);
        }
        assert w[..num] == w;
      }
      r := val + base;
    }

    /** tinf_read_bits where the number x has been packed. */
    method ReadPacked(num: nat, base: nat, ghost x: nat, ghost more: bits) returns (r: nat)
      requires Reading() && num <= 30 && x < Pow2(num) && rest == Lsb(x, num) + more
      modifies `pos, `tag, `bitcount, `rest
      ensures Reading() && rest == more && r == base + x
    {
      NumberOfLsb(x, num);
      r := ReadBits(num, base, Lsb(x, num), more);
    }

    /** tinf_decode_symbol: where the codeword of a symbol stands, that symbol. */
    method DecodeSymbol(t: Tree, ghost lens: Lengths, ghost s: nat, ghost more: bits) returns (sym: nat)
      requires Reading() && t.Decodes(lens) && PrefixValid(lens) && Used(lens, s)
      requires rest == Codeword(lens, s) + more
      modifies `pos, `tag, `bitcount, `rest
      ensures Reading() && rest == more && sym == s
    {
      ghost var w := Codeword(lens, s);
      var sum, cur, len := 0, 0, 0;
      while true
        invariant 0 <= len < lens[s] && cur >= 0
        invariant Reading() && rest == w[len..] + more
        invariant cur == CodeOf(w, len) - End(lens, len)
        invariant sum == Offset(lens, |lens|, len + 1)
        decreases lens[s] - len
      {
        var b := NextBit(w, len, more);
        cur := 2 * cur + b;
        len := len + 1;
        CodewordPrefixes(lens, s, len);
        sum := sum + t.table[len];
        cur := cur - t.table[len];
        if cur < 0 {
          break;
        }
      }
      PlaceReached(lens, s, len, sum, cur);
      sym := t.trans[sum + cur];
    }

    /** With a complete code tinf_decode_symbol decodes whatever stands in the stream. */
    method DecodeAny(t: Tree, ghost lens: Lengths) returns (sym: nat)
      requires Reading() && t.Decodes(lens) && Complete(lens) && |rest| >= MAXBITS
      modifies `pos, `tag, `bitcount, `rest
      ensures Reading() && Used(lens, sym) && old(rest) == Codeword(lens, sym) + rest
    {
      ghost var s := CompleteDecodes(lens, rest);
      sym := DecodeSymbol(t, lens, s, rest[lens[s]..]);
    }

    // ---------- dynamic trees ----------

    /** Clears the lengths of the code length code. */
    method ClearLengths(lengths: array<nat>)
      requires lengths.Length >= 19
      modifies lengths
      ensures forall k :: 0 <= k < 19 ==> lengths[k] == 0
    {
      var i := 0;
      while i < 19
        invariant 0 <= i <= 19
        invariant forall k :: 0 <= k < i ==> lengths[k] == 0
      {
        lengths[i] := 0;
        i := i + 1;
      }
    }

    /** Reads the code lengths of the code length code. */
    method ReadClLengths(lengths: array<nat>, hclen: nat, ghost cl: Lengths, ghost more: bits)
      requires Reading() && lengths.Length >= 19
      requires |cl| == 19 && (forall i :: 0 <= i < 19 ==> cl[i] < 8) && hclen <= 19
      requires forall i :: hclen <= i < 19 ==> cl[ClIndex(i)] == 0
      requires rest == ClBits(cl, 0, hclen) + more
      modifies `pos, `tag, `bitcount, `rest, lengths
      ensures Reading() && rest == more
      ensures lengths[..19] == cl
    {
      ClearLengths(lengths);
      var i := 0;
      while i < hclen
        invariant 0 <= i <= hclen && Reading()
        invariant rest == ClBits(cl, i, hclen) + more
        invariant forall k :: 0 <= k < i ==> lengths[ClIndex(k)] == cl[ClIndex(k)]
        invariant forall k :: i <= k < 19 ==> lengths[ClIndex(k)] == 0
      {
        Assoc(Lsb(cl[ClIndex(i)], 3), ClBits(cl, i + 1, hclen), more);
        var clen := ReadPacked(3, 0, cl[ClIndex(i)], ClBits(cl, i + 1, hclen) + more);
        ClcidxInjective(i);
        lengths[ClIndex(i)] := clen;
        i := i + 1;
      }
      forall s | 0 <= s < 19 ensures lengths[s] == cl[s] {
        var k := ClcidxOnto(s);
      }
    }

    /** Writes `count` copies of a code length from lengths[num] on. */
    method FillRun(lengths: array<nat>, num: nat, count: nat, len: nat)
      requires num + count <= lengths.Length
      modifies lengths
      ensures lengths[..num] == old(lengths[..num]) && forall k :: num <= k < num + count ==> lengths[k] == len
    {
      var n, length := num, count;
      while length != 0
        invariant n + length == num + count && 0 <= length <= count
        invariant lengths[..num] == old(lengths[..num])
        invariant forall k :: num <= k < n ==> lengths[k] == len
        decreases length
      {
        lengths[n] := len;
        n := n + 1;
        length := length - 1;
      }
    }

    /** The length of a run, read from the extra bits of its symbol. */
    method RunLength(sym: nat, ghost x: nat, ghost more: bits) returns (length: nat)
      requires Reading() && 16 <= sym <= 18
      requires sym == 16 ==> x < 4 && rest == Lsb(x, 2) + more
      requires sym == 17 ==> x < 8 && rest == Lsb(x, 3) + more
      requires sym == 18 ==> x < 128 && rest == Lsb(x, 7) + more
      modifies `pos, `tag, `bitcount, `rest
      ensures Reading() && rest == more
      ensures length == x + if sym == 18 then 11 else 3
    {
      assert Pow2(2) == 4 && Pow2(3) == 8 && Pow2(7) == 128 by {
        Pow2Values();
      }
      if sym == 16 {
        length := ReadPacked(2, 3, x, more);
      } else if sym == 17 {
        length := ReadPacked(3, 3, x, more);
      } else {
        length := ReadPacked(7, 11, x, more);
      }
    }

    /** One turn of the loop over the code lengths (section 3.2.7 of RFC 1951). The codeword of s
        stands next, and for s = 16, 17, 18 then the number x in 2, 3 or 7 bits: a length s below
        16 is itself appended; 16 repeats the last length 3 + x times, 17 stands for 3 + x zeros
        and 18 for 11 + x zeros. Exactly those bits are taken. */
    method ReadRun(lengths: array<nat>, num: nat, codeTree: Tree, ghost cl: Lengths, ghost s: nat, ghost x: nat,
                   ghost more: bits)
      returns (num': nat)
      requires Reading() && codeTree.Decodes(cl) && PrefixValid(cl) && Used(cl, s) && s <= 18
      requires s < 16 ==> num + 1 <= lengths.Length && rest == Codeword(cl, s) + more
      requires s == 16 ==> 0 < num && num + 3 + x <= lengths.Length && x < 4 && rest == Codeword(cl, 16) + (Lsb(x, 2) + more)
      requires s == 17 ==> num + 3 + x <= lengths.Length && x < 8 && rest == Codeword(cl, 17) + (Lsb(x, 3) + more)
      requires s == 18 ==> num + 11 + x <= lengths.Length && x < 128 && rest == Codeword(cl, 18) + (Lsb(x, 7) + more)
      modifies `pos, `tag, `bitcount, `rest, lengths
      ensures Reading() && rest == more && num' <= lengths.Length && lengths[..num] == old(lengths[..num])
      ensures s < 16 ==> num' == num + 1 && lengths[num] == s
      ensures s == 16 ==> num' == num + 3 + x && forall k :: num <= k < num' ==> lengths[k] == old(lengths[num - 1])
      ensures s == 17 ==> num' == num + 3 + x && forall k :: num <= k < num' ==> lengths[k] == 0
      ensures s == 18 ==> num' == num + 11 + x && forall k :: num <= k < num' ==> lengths[k] == 0
    {
      ghost var r0 := if s < 16 then more else Lsb(x, if s == 16 then 2 else if s == 17 then 3 else 7) + more;
      var sym := DecodeSymbol(codeTree, cl, s, r0);
      if sym < 16 {
        lengths[num] := sym;
        num' := num + 1;
      } else {
        var value := if sym == 16 then lengths[num - 1] else 0;
        var length := RunLength(sym, x, more);
        FillRun(lengths, num, length, value);
        num' := num + length;
      }
    }

    /** A run as the format describes it. */
    method ReadOneRun(lengths: array<nat>, num: nat, codeTree: Tree, ghost cl: Lengths, ghost r: Run, ghost more: bits)
      returns (num': nat)
      requires Reading() && codeTree.Decodes(cl) && PrefixValid(cl)
      requires num <= lengths.Length && RunOk(r, cl, num)
      requires rest == RunBits(r, cl) + more
      requires |RunOut(r, lengths[..num])| <= lengths.Length
      modifies `pos, `tag, `bitcount, `rest, lengths
      ensures Reading() && rest == more
      ensures num' <= lengths.Length && lengths[..num'] == RunOut(r, old(lengths[..num]))
    {
      ghost var s, x := RunLayout(r, cl, num, more, rest);
      num' := ReadRun(lengths, num, codeTree, cl, s, x, more);
    }

    /** The loop over the runs. */
    method ReadRuns(lengths: array<nat>, total: nat, codeTree: Tree, ghost cl: Lengths, ghost runs: seq<Run>,
                    ghost lens: seq<nat>, ghost more: bits)
      requires Reading() && codeTree.Decodes(cl) && PrefixValid(cl)
      requires lengths != codeTree.table && lengths != codeTree.trans
      requires RunsOut(runs, cl, []) == Some(lens) && |lens| == total <= lengths.Length
      requires rest == RunsBits(runs, cl) + more
      modifies `pos, `tag, `bitcount, `rest, lengths
      ensures Reading() && rest == more
      ensures lengths[..total] == lens
    {
      var num := 0;
      ghost var rs := runs;
      while num < total
        invariant num <= total && Reading() && codeTree.Decodes(cl)
        invariant RunsOut(rs, cl, lengths[..num]) == Some(lens)
        invariant rest == RunsBits(rs, cl) + more
        decreases total - num
      {
        RunsStep(rs, cl, lengths[..num], lens);
        Assoc(RunBits(rs[0], cl), RunsBits(rs[1..], cl), more);
        num := ReadOneRun(lengths, num, codeTree, cl, rs[0], RunsBits(rs[1..], cl) + more);
        rs := rs[1..];
      }
      RunsDone(rs, cl, lengths[..num], lens);
      assert RunsBits(rs, cl) + more == more;
    }

    method ReadCount(num: nat, base: nat, ghost x: nat, ghost more: bits) returns (r: nat)
      requires Reading() && ((num == 5 && x < 32) || (num == 4 && x < 16)) && rest == Lsb(x, num) + more
      modifies `pos, `tag, `bitcount, `rest
      ensures Reading() && rest == more && r == base + x
    {
      assert Pow2(5) == 32 && Pow2(4) == 16;
      r := ReadPacked(num, base, x, more);
    }

    /** HLIT, HDIST and HCLEN. */
    method ReadCounts(ghost n: Counts, ghost r1: bits, ghost r2: bits, ghost more: bits)
      returns (hlit: nat, hdist: nat, hclen: nat)
      requires Reading() && n.lit < 32 && n.dist < 32 && n.cl < 16
      requires rest == Lsb(n.lit, 5) + r1 && r1 == Lsb(n.dist, 5) + r2 && r2 == Lsb(n.cl, 4) + more
      modifies `pos, `tag, `bitcount, `rest
      ensures Reading() && rest == more
      ensures hlit == 257 + n.lit && hdist == 1 + n.dist && hclen == 4 + n.cl
    {
      hlit := ReadCount(5, 257, n.lit, r1);
      hdist := ReadCount(5, 1, n.dist, r2);
      hclen := ReadCount(4, 4, n.cl, more);
    }

    /** The code lengths of both trees, decoded with the code length tree. */
    method ReadLengths(lengths: array<nat>, total: nat, hclen: nat, ghost lens: seq<nat>, ghost cl: Lengths,
                       ghost runs: seq<Run>, ghost r4: bits, ghost more: bits)
      requires Reading() && lengths.Length == 288 + 32
      requires |cl| == 19 && PrefixValid(cl) && hclen <= 19
      requires forall i :: 0 <= i < 19 ==> cl[i] < 8
      requires forall i :: hclen <= i < 19 ==> cl[ClIndex(i)] == 0
      requires RunsOut(runs, cl, []) == Some(lens) && |lens| == total <= 288 + 32
      requires rest == ClBits(cl, 0, hclen) + r4 && r4 == RunsBits(runs, cl) + more
      modifies `pos, `tag, `bitcount, `rest, lengths
      ensures Reading() && rest == more
      ensures lengths[..total] == lens
    {
      var codeTree := new Tree();
      ReadClLengths(lengths, hclen, cl, r4);
      assert lengths[0..0 + 19] == lengths[..19];
      BuildTree(codeTree, lengths, 0, 19, cl);
      ReadRuns(lengths, total, codeTree, cl, runs, lens, more);
    }

    /** The literal tree from the first lengths, the distance tree from the others. */
    method BuildTwo(lengths: array<nat>, hlit: nat, hdist: nat, ghost c: Codes)
      requires Trees() && hlit == |c.lit| <= 288 && hdist == |c.dist| <= 32 && hlit + hdist <= lengths.Length
      requires c.lit == lengths[..hlit + hdist][..hlit] && c.dist == lengths[..hlit + hdist][hlit..]
      requires lengths != ltree.table && lengths != ltree.trans && lengths != dtree.table && lengths != dtree.trans
      modifies ltree.table, ltree.trans, dtree.table, dtree.trans
      ensures ltree.Decodes(c.lit) && dtree.Decodes(c.dist)
    {
      assert lengths[0..0 + hlit] == lengths[..hlit + hdist][..hlit];
      assert lengths[hlit..hlit + hdist] == lengths[..hlit + hdist][hlit..];
      BuildTree(ltree, lengths, 0, hlit, c.lit);
      BuildTree(dtree, lengths, hlit, hdist, c.dist);
    }

    /** The rest of tinf_decode_trees, once the three counts are known. */
    method ReadTrees(hlit: nat, hdist: nat, hclen: nat, ghost cl: Lengths, ghost runs: seq<Run>, ghost c: Codes,
                     ghost r4: bits, ghost more: bits)
      requires Reading() && Trees() && hlit == |c.lit| <= 288 && hdist == |c.dist| <= 32
      requires |cl| == 19 && PrefixValid(cl) && hclen <= 19
      requires forall i :: 0 <= i < 19 ==> cl[i] < 8
      requires forall i :: hclen <= i < 19 ==> cl[ClIndex(i)] == 0
      requires RunsOut(runs, cl, []).Some? && |RunsOut(runs, cl, []).value| == hlit + hdist
      requires c.lit == RunsOut(runs, cl, []).value[..hlit] && c.dist == RunsOut(runs, cl, []).value[hlit..]
      requires rest == ClBits(cl, 0, hclen) + r4 && r4 == RunsBits(runs, cl) + more
      modifies `pos, `tag, `bitcount, `rest, ltree.table, ltree.trans, dtree.table, dtree.trans
      ensures Reading() && rest == more
      ensures ltree.Decodes(c.lit) && dtree.Decodes(c.dist)
    {
      var lengths := new nat[288 + 32];
      ReadLengths(lengths, hlit + hdist, hclen, RunsOut(runs, cl, []).value, cl, runs, r4, more);
      BuildTwo(lengths, hlit, hdist, c);
    }

    /** The body of tinf_decode_trees, with what follows each part of the header named. */
    method DecodeParts(ghost h: Header, ghost c: Codes, ghost n: Counts, ghost r1: bits, ghost r2: bits, ghost r3: bits, ghost r4: bits,
                       ghost more: bits)
      requires Reading() && Trees() && HeaderCodes(h) == Some(c)
      requires CountsOf(h, n)
      requires rest == Lsb(n.lit, 5) + r1 && r1 == Lsb(n.dist, 5) + r2 && r2 == Lsb(n.cl, 4) + r3
      requires r3 == ClBits(h.cl, 0, h.hclen) + r4
      requires r4 == RunsBits(h.runs, h.cl) + more
      modifies `pos, `tag, `bitcount, `rest, ltree.table, ltree.trans, dtree.table, dtree.trans
      ensures Reading() && rest == more
      ensures ltree.Decodes(c.lit) && dtree.Decodes(c.dist)
    {
      var hlit, hdist, hclen := ReadCounts(n, r1, r2, r3);
      assert hlit == h.hlit && hdist == h.hdist && hclen == h.hclen;
      ReadTrees(hlit, hdist, hclen, h.cl, h.runs, c, r4, more);
    }

    /** tinf_decode_trees: reads the header of a dynamic block and builds its two trees. */
    method DecodeTrees(ghost h: Header, ghost c: Codes, ghost more: bits)
      requires Reading() && Trees() && HeaderCodes(h) == Some(c)
      requires rest == HeaderBits(h) + more
      modifies `pos, `tag, `bitcount, `rest, ltree.table, ltree.trans, dtree.table, dtree.trans
      ensures Reading() && rest == more
      ensures ltree.Decodes(c.lit) && dtree.Decodes(c.dist)
    {
      ghost var n, r1, r2, r3, r4 := HeaderLayout(h, more, rest);
      DecodeParts(h, c, n, r1, r2, r3, r4, more);
    }

    // ---------- blocks ----------

    /** What has been written so far. */
    ghost function Out(): (o: seq<byte>)
      reads `used, dest
      ensures base + used <= dest.Length ==> |o| == used
    {
      if base + used <= dest.Length then dest[base..base + used] else []
    }

    /** The output buffer outside of what has been written is still that of `d0`. */
    ghost predicate Beyond(d0: seq<byte>)
      reads `used, dest
    {
      base + used <= dest.Length == |d0| && dest[base + used..] == d0[base + used..] && dest[..base] == d0[..base]
    }

    /** `d->dest[i] = d->dest[i - offs]`. */
    method CopyByte(k: nat, i: nat, offs: nat, ghost d0: seq<byte>, ghost out: seq<byte>)
      requires 0 < offs <= |out| && CopyingAt(dest[..], d0, base, out, k, i, offs) && k < dest.Length
      modifies dest
      ensures CopyingAt(dest[..], d0, base, out, k + 1, i + 1, offs)
    {
      CopyingNext(dest[..], d0, base, out, k, i, offs);
      dest[k] := dest[k - offs];
    }

    /** Copies a match, byte by byte in place. */
    method CopyMatch(length: nat, offs: nat, ghost d0: seq<byte>)
      requires base + used + length <= dest.Length && 0 < offs <= used && Beyond(d0)
      modifies `used, dest
      ensures Beyond(d0) && used == old(used) + length
      ensures Out() == CopyBack(old(Out()), length, offs)
    {
      ghost var out := Out();
      var i, k := 0, base + used;
      while i < length
        invariant 0 <= i <= length && used == old(used) && 0 <= k
        invariant CopyingAt(dest[..], d0, base, out, k, i, offs)
      {
        CopyByte(k, i, offs, d0, out);
        i, k := i + 1, k + 1;
      }
      used := used + length;
    }

    /** `*d->dest++ = b`. */
    method PutByte(b: byte, ghost d0: seq<byte>)
      requires base + used < dest.Length && Beyond(d0)
      modifies `used, dest
      ensures Beyond(d0) && used == old(used) + 1
      ensures Out() == old(Out()) + [b]
    {
      dest[base + used] := b;
      used := used + 1;
    }

    /** The length of a match: the extra bits of its length symbol. */
    method ReadLength(g: Tables, lsym: nat, ghost extra: nat, ghost n: nat, ghost more: bits) returns (length: nat)
      requires Reading() && g.Ready() && lsym < 29 && extra < Pow2(LengthExtra(lsym)) && n == LengthBase(lsym) + extra
      requires rest == Lsb(extra, LengthExtra(lsym)) + more
      modifies `pos, `tag, `bitcount, `rest
      ensures Reading() && rest == more && length == n
    {
      length := ReadPacked(g.lengthBits[lsym], g.lengthBase[lsym], extra, more);
    }

    /** The distance of a match: its symbol and the symbol's extra bits. */
    method ReadDistance(g: Tables, dt: Tree, ghost dist: Lengths, ghost dsym: nat, ghost extra: nat, ghost far: nat,
                        ghost r2: bits, ghost more: bits) returns (offs: nat)
      requires Reading() && g.Ready() && dt.Decodes(dist) && PrefixValid(dist)
      requires dsym < 30 && Used(dist, dsym) && extra < Pow2(DistExtra(dsym)) && far == DistBase(dsym) + extra
      requires rest == Codeword(dist, dsym) + r2 && r2 == Lsb(extra, DistExtra(dsym)) + more
      modifies `pos, `tag, `bitcount, `rest
      ensures Reading() && rest == more && offs == far
    {
      var sym := DecodeSymbol(dt, dist, dsym, r2);
      offs := ReadPacked(g.distBits[sym], g.distBase[sym], extra, more);
    }

    method ReadMatch(g: Tables, dt: Tree, lsym: nat, ghost dist: Lengths, ghost x: Item, ghost p: ItemParts, ghost out: seq<byte>)
      returns (length: nat, offs: nat)
      requires Reading() && g.Ready() && dt.Decodes(dist) && PrefixValid(dist)
      requires rest == p.r0 && p.s == 257 + lsym && PartsOf(p, x, dist, out)
      modifies `pos, `tag, `bitcount, `rest
      ensures Reading() && rest == p.r3 && length == p.n && offs == p.far
    {
      length := ReadLength(g, lsym, x.lextra, p.n, p.r1);
      offs := ReadDistance(g, dt, dist, x.dsym, x.dextra, p.far, p.r2, p.r3);
    }

    /** A length/distance pair, once its length symbol has been read. */
    method InflateCopy(g: Tables, dt: Tree, lsym: nat, ghost dist: Lengths, ghost x: Item, ghost p: ItemParts,
                       ghost d0: seq<byte>)
      requires Reading() && g.Ready() && dt.Decodes(dist) && PrefixValid(dist) && Beyond(d0)
      requires rest == p.r0 && p.s == 257 + lsym && PartsOf(p, x, dist, Out()) && base + |p.out| <= dest.Length
      modifies `pos, `tag, `bitcount, `rest, `used, dest
      ensures Reading() && rest == p.r3 && Beyond(d0) && Out() == p.out && used >= old(used)
    {
      var length, offs := ReadMatch(g, dt, lsym, dist, x, p, Out());
      CopyMatch(length, offs, d0);
    }

    /** What a symbol other than the end of the block stands for. */
    method InflateSymbol(g: Tables, dt: Tree, sym: nat, ghost dist: Lengths, ghost x: Item, ghost p: ItemParts,
                         ghost d0: seq<byte>)
      requires Reading() && g.Ready() && dt.Decodes(dist) && PrefixValid(dist) && Beyond(d0)
      requires rest == p.r0 && p.s == sym && sym != END_OF_BLOCK && PartsOf(p, x, dist, Out())
      requires used < |p.out| && base + |p.out| <= dest.Length
      modifies `pos, `tag, `bitcount, `rest, `used, dest
      ensures Reading() && rest == p.r3 && Beyond(d0) && Out() == p.out && used >= old(used)
    {
      if sym < 256 {
        PutByte(sym, d0);
      } else {
        InflateCopy(g, dt, sym - 257, dist, x, p, d0);
      }
    }

    /** The items `xs` of a block are next and lead to the output `final`. */
    ghost predicate ItemsAhead(xs: seq<Item>, c: Codes, final: seq<byte>, more: bits)
      reads this, dest
    {
      match ItemsOut(xs, c.lit, c.dist, Out())
      case None => false
      case Some(o) => Reading() && o == final && base + |final| <= dest.Length && rest == ItemsBits(xs, c.lit, c.dist) + more
    }

    ghost predicate Follows(xs: seq<Item>, c: Codes, final: seq<byte>, more: bits, p: ItemParts)
      requires |xs| > 0
    {
      ItemsOut(xs[1..], c.lit, c.dist, p.out) == Some(final) && base + |final| <= dest.Length &&
      p.r3 == ItemsBits(xs[1..], c.lit, c.dist) + more
    }

    /** What stands next, and that the other items follow. */
    lemma FirstItem(xs: seq<Item>, c: Codes, final: seq<byte>, more: bits) returns (p: ItemParts)
      requires ItemsAhead(xs, c, final, more) && Used(c.lit, END_OF_BLOCK)
      ensures Reading() && Used(c.lit, p.s) && rest == Codeword(c.lit, p.s) + p.r0
      ensures if |xs| == 0 then p.s == END_OF_BLOCK && p.r0 == p.r3 == more && Out() == final
        else
          p.s != END_OF_BLOCK && PartsOf(p, xs[0], c.dist, Out()) && |Out()| < |p.out| && base + |p.out| <= dest.Length &&
          Follows(xs, c, final, more, p)
    {
      p := ItemLayout(xs, c, Out(), final, more, rest);
      if |xs| == 0 {
        p := p.(r3 := more);
      }
    }

    lemma OtherItems(xs: seq<Item>, c: Codes, final: seq<byte>, more: bits, p: ItemParts)
      requires |xs| > 0 && Follows(xs, c, final, more, p) && Reading() && rest == p.r3 && Out() == p.out
      ensures ItemsAhead(xs[1..], c, final, more)
    {
    }

    /** The part of a turn behind the symbol. */
    method FinishTurn(g: Tables, dt: Tree, sym: nat, ghost dist: Lengths, ghost p: ItemParts, ghost x: Item, ghost d0: seq<byte>)
      requires g.Ready() && dt.Decodes(dist) && PrefixValid(dist) && Beyond(d0)
      requires Reading() && rest == p.r0 && p.s == sym && TurnAhead(p, x, dist, used)
      requires base + used + (if sym < 256 then 1 else p.n) <= dest.Length
      modifies `pos, `tag, `bitcount, `rest, `used, dest
      ensures Reading() && rest == p.r3 && Beyond(d0) && used >= old(used)
      ensures Out() == if sym < 256 then old(Out()) + [sym] else CopyBack(old(Out()), p.n, p.far)
    {
      ghost var q := TurnParts(p, x, dist, Out());
      InflateSymbol(g, dt, sym, dist, x, q, d0);
    }

    /** One turn of the loop of tinf_inflate_block_data (section 3.2.5 of RFC 1951). The codeword of
        p.s stands next: a byte below 256 is appended, and 256 ends the block. Above that come the
        extra bits of the length, the codeword of the distance symbol and its extra bits, and a
        match of that length at that distance is appended. Exactly those bits are taken. */
    method InflateTurn(g: Tables, lt: Tree, dt: Tree, ghost c: Codes, ghost p: ItemParts, ghost x: Item, ghost d0: seq<byte>)
      returns (sym: nat)
      requires g.Ready() && lt.Decodes(c.lit) && dt.Decodes(c.dist) && Beyond(d0)
      requires PrefixValid(c.lit) && PrefixValid(c.dist) && Used(c.lit, p.s)
      requires Reading() && rest == Codeword(c.lit, p.s) + p.r0
      requires p.s <= 256 ==> p.r0 == p.r3
      requires p.s < 256 ==> base + used < dest.Length
      requires p.s > 256 ==>
        x.Copy? && p.s == 257 + x.lsym && x.lsym < 29 && x.lextra < Pow2(LengthExtra(x.lsym)) &&
        x.dsym < 30 && Used(c.dist, x.dsym) && x.dextra < Pow2(DistExtra(x.dsym)) &&
        p.r0 == Lsb(x.lextra, LengthExtra(x.lsym)) + p.r1 && p.r1 == Codeword(c.dist, x.dsym) + p.r2 &&
        p.r2 == Lsb(x.dextra, DistExtra(x.dsym)) + p.r3 &&
        p.n == LengthBase(x.lsym) + x.lextra && p.far == DistBase(x.dsym) + x.dextra &&
        0 < p.far <= used && base + used + p.n <= dest.Length
      modifies `pos, `tag, `bitcount, `rest, `used, dest
      ensures sym == p.s && Reading() && rest == p.r3 && Beyond(d0) && used >= old(used)
      ensures p.s < 256 ==> Out() == old(Out()) + [p.s]
      ensures p.s == 256 ==> Out() == old(Out())
      ensures p.s > 256 ==> Out() == CopyBack(old(Out()), p.n, p.far)
    {
      sym := DecodeSymbol(lt, c.lit, p.s, p.r0);
      if sym != 256 {
        FinishTurn(g, dt, sym, c.dist, p, x, d0);
      }
    }

    /** One turn, where items are ahead: the end-of-block symbol, or the first of them. */
    method InflateItem(g: Tables, lt: Tree, dt: Tree, ghost c: Codes, ghost xs: seq<Item>, ghost final: seq<byte>,
                       ghost more: bits, ghost d0: seq<byte>)
      returns (sym: nat)
      requires g.Ready() && lt.Decodes(c.lit) && dt.Decodes(c.dist) && Beyond(d0)
      requires PrefixValid(c.lit) && PrefixValid(c.dist) && Used(c.lit, END_OF_BLOCK)
      requires ItemsAhead(xs, c, final, more)
      modifies `pos, `tag, `bitcount, `rest, `used, dest
      ensures Beyond(d0) && used >= old(used) && (sym == END_OF_BLOCK <==> |xs| == 0)
      ensures |xs| == 0 ==> Reading() && rest == more && Out() == final
      ensures |xs| > 0 ==> ItemsAhead(xs[1..], c, final, more)
    {
      ghost var p := FirstItem(xs, c, final, more);
      sym := InflateTurn(g, lt, dt, c, p, if |xs| == 0 then Lit(0) else xs[0], d0);
      if sym != 256 {
        OtherItems(xs, c, final, more, p);
      }
    }

    /** The loop of tinf_inflate_block_data: items up to the end-of-block symbol. */
    method InflateItems(g: Tables, lt: Tree, dt: Tree, ghost c: Codes, ghost items: seq<Item>, ghost final: seq<byte>,
                        ghost more: bits, ghost d0: seq<byte>)
      requires g.Ready() && lt.Decodes(c.lit) && dt.Decodes(c.dist) && Beyond(d0)
      requires PrefixValid(c.lit) && PrefixValid(c.dist) && Used(c.lit, END_OF_BLOCK)
      requires ItemsAhead(items, c, final, more)
      modifies `pos, `tag, `bitcount, `rest, `used, dest
      ensures Reading() && rest == more && Beyond(d0) && Out() == final && used >= old(used)
    {
      ghost var xs, start := items, used;
      while true
        invariant g.Ready() && lt.Decodes(c.lit) && dt.Decodes(c.dist) && Beyond(d0)
        invariant used >= start && ItemsAhead(xs, c, final, more)
        decreases |xs|
      {
        var sym := InflateItem(g, lt, dt, c, xs, final, more, d0);
        if sym == 256 {
          return;
        }
        xs := xs[1..];
      }
    }

    /** tinf_inflate_block_data. */
    method InflateBlockData(g: Tables, lt: Tree, dt: Tree, ghost c: Codes, ghost items: seq<Item>, ghost final: seq<byte>,
                            ghost more: bits, ghost d0: seq<byte>)
      requires g.Ready() && lt.Decodes(c.lit) && dt.Decodes(c.dist) && Beyond(d0)
      requires PrefixValid(c.lit) && PrefixValid(c.dist) && Used(c.lit, END_OF_BLOCK)
      requires ItemsAhead(items, c, final, more)
      modifies this, dest
      ensures Reading() && rest == more && Beyond(d0) && Out() == final
      ensures destLen == old(destLen) + (used - old(used))
    {
      var start := used;
      InflateItems(g, lt, dt, c, items, final, more, d0);
      destLen := destLen + (used - start);
    }

    /** The two lengths at the head of a stored block. */
    method StoredLengths(ghost x: StoredParts) returns (length: nat, invlength: nat)
      requires Reading() && StoredAt(x, bitcount, rest)
      ensures length == x.len && invlength == x.nlen && pos + 4 <= |source|
      ensures BitsFrom(source, pos + 4) == BytesBits(x.data) + x.more
    {
      StoredLayout(source, pos, tag, bitcount, x, rest);
      length := TwoByteNumber(source[pos], source[pos + 1]);
      invlength := TwoByteNumber(source[pos + 2], source[pos + 3]);
    }

    /** The copy loop of a stored block. */
    method CopyBytes(length: nat, ghost d0: seq<byte>)
      requires pos + length <= |source| && base + used + length <= dest.Length && Beyond(d0)
      modifies `pos, `used, dest
      ensures pos == old(pos) + length && used == old(used) + length && Beyond(d0)
      ensures Out() == old(Out()) + source[old(pos)..old(pos) + length]
    {
      ghost var start, p, out := used, pos, Out();
      var i := length;
      while i != 0
        invariant 0 <= i <= length && pos == p + (length - i) && used == start + (length - i)
        invariant Beyond(d0) && Out() == out + source[p..pos]
        decreases i
      {
        PutByte(source[pos], d0);
        pos := pos + 1;
        i := i - 1;
      }
    }

    /** The data of a stored block, after its two lengths. */
    method CopyStored(length: nat, ghost data: seq<byte>, ghost more: bits, ghost d0: seq<byte>)
      requires pos + 4 <= |source| && BitsFrom(source, pos + 4) == BytesBits(data) + more && |data| == length
      requires Beyond(d0) && base + used + length <= dest.Length
      modifies this, dest
      ensures Reading() && rest == more && Beyond(d0) && Out() == old(Out()) + data
      ensures used == old(used) + length && destLen == old(destLen) + length
    {
      pos := pos + 4;
      StoredBytes(source, pos, data, pos + length, more);
      CopyBytes(length, d0);
      UnreadAligned(source, pos, tag);
      bitcount, rest, destLen := 0, more, destLen + length;
    }

    /** tinf_inflate_uncompressed_block: reads whole bytes, from the byte after the buffer on. */
    method InflateUncompressedBlock(ghost x: StoredParts, ghost d0: seq<byte>) returns (ok: bool)
      requires Reading() && Beyond(d0) && StoredAt(x, bitcount, rest)
      requires x.len + x.nlen == 0xFFFF ==> base + used + x.len <= dest.Length
      modifies this, dest
      ensures ok <==> x.len + x.nlen == 0xFFFF
      ensures Beyond(d0)
      ensures ok ==> Reading() && rest == x.more
      ensures ok ==> Out() == old(Out()) + x.data
      ensures !ok ==> Out() == old(Out())
      ensures destLen == old(destLen) + (used - old(used)) && used >= old(used)
    {
      var length, invlength := StoredLengths(x);
      if length != 0xFFFF - invlength {
        return false;
      }
      CopyStored(length, x.data, x.more, d0);
      return true;
    }

    // ---------- the stream ----------

    /** The body of a block whose header starts at bit position p is next, and leads to the
        output `out'`. */
    ghost predicate BodyAhead(b: Body, p: nat, out': seq<byte>, more: bits)
      reads this, dest
    {
      match BodyOut(b, p, Out())
      case None => false
      case Some(o) =>
        Reading() && o == out' && base + |out'| <= dest.Length && rest == BodyBits(b) + more && p + 3 + |rest| == 8 * |source|
    }

    /** A stored block as the format describes it. */
    method InflateStoredBlock(ghost b: Body, ghost p: nat, ghost out': seq<byte>, ghost more: bits, ghost d0: seq<byte>)
      returns (ok: bool)
      requires Beyond(d0) && (b.Stored? || b.BadStored?) && BodyAhead(b, p, out', more)
      modifies this, dest
      ensures Beyond(d0) && Out() == out' && (ok <==> b.Stored?)
      ensures ok ==> Reading() && rest == more
      ensures destLen == old(destLen) + (used - old(used))
    {
      ghost var x := StoredBody(b, p, Out(), source, pos, tag, bitcount, more, rest);
      ok := InflateUncompressedBlock(x, d0);
    }

    /** tinf_inflate_fixed_block. */
    method InflateFixedBlock(g: Tables, ghost b: Body, ghost p: nat, ghost out': seq<byte>, ghost more: bits,
                             ghost d0: seq<byte>)
      requires g.Ready() && Beyond(d0) && b.Fixed? && BodyAhead(b, p, out', more)
      modifies this, dest
      ensures Reading() && rest == more && Beyond(d0) && Out() == out'
      ensures destLen == old(destLen) + (used - old(used))
    {
      FixedComplete();
      FixedLitPlace(END_OF_BLOCK);
      InflateBlockData(g, g.sltree, g.sdtree, Codes(FixedLit(), FixedDist()), b.items, out', more, d0);
    }

    /** The trees of a dynamic block; the static ones stay as they are. */
    method DecodeOwnTrees(g: Tables, ghost h: Header, ghost c: Codes, ghost w: bits, ghost d0: seq<byte>)
      requires g.Ready() && Trees() && Apart(g) && Beyond(d0)
      requires Reading() && HeaderCodes(h) == Some(c) && rest == HeaderBits(h) + w
      modifies `pos, `tag, `bitcount, `rest, ltree.table, ltree.trans, dtree.table, dtree.trans
      ensures g.Ready() && ltree.Decodes(c.lit) && dtree.Decodes(c.dist) && Beyond(d0) && Out() == old(Out())
      ensures Reading() && rest == w
    {
      DecodeTrees(h, c, w);
    }

    /** tinf_inflate_dynamic_block. */
    method InflateDynamicBlock(g: Tables, ghost b: Body, ghost p: nat, ghost out': seq<byte>, ghost more: bits,
                               ghost d0: seq<byte>)
      requires g.Ready() && Trees() && Beyond(d0) && Apart(g) && b.Dynamic? && BodyAhead(b, p, out', more)
      modifies this, dest
      modifies ltree.table, ltree.trans, dtree.table, dtree.trans
      ensures g.Ready()
      ensures Reading() && rest == more && Beyond(d0) && Out() == out'
      ensures destLen == old(destLen) + (used - old(used))
    {
      ghost var c, w := DynamicLayout(b, p, Out(), out', more, rest);
      DecodeOwnTrees(g, b.header, c, w, d0);
      InflateBlockData(g, ltree, dtree, c, b.items, out', more, d0);
    }

    /** A block of coded items. */
    method InflateCodedBlock(g: Tables, btype: nat, ghost b: Body, ghost p: nat, ghost out': seq<byte>, ghost more: bits,
                             ghost d0: seq<byte>)
      requires g.Ready() && Trees() && Beyond(d0) && Apart(g) && btype == BodyType(b) && 1 <= btype <= 2
      requires BodyAhead(b, p, out', more)
      modifies this, dest
      modifies ltree.table, ltree.trans, dtree.table, dtree.trans
      ensures g.Ready()
      ensures Reading() && rest == more && Beyond(d0) && Out() == out'
      ensures destLen == old(destLen) + (used - old(used))
    {
      if btype == 1 {
        InflateFixedBlock(g, b, p, out', more, d0);
      } else {
        InflateDynamicBlock(g, b, p, out', more, d0);
      }
    }

    /** The body of a block, after its type has been read. */
    method InflateBody(g: Tables, btype: nat, ghost b: Body, ghost p: nat, ghost out': seq<byte>, ghost more: bits,
                       ghost d0: seq<byte>) returns (ok: bool)
      requires g.Ready() && Trees() && Beyond(d0) && Apart(g) && btype == BodyType(b)
      requires BodyAhead(b, p, out', more)
      modifies this, dest
      modifies ltree.table, ltree.trans, dtree.table, dtree.trans
      ensures g.Ready() && Beyond(d0) && Out() == out'
      ensures ok <==> !IsBad(b)
      ensures ok ==> Reading() && rest == more
      ensures destLen == old(destLen) + (used - old(used))
    {
      if btype == 0 {
        ok := InflateStoredBlock(b, p, out', more, d0);
      } else if btype <= 2 {
        InflateCodedBlock(g, btype, b, p, out', more, d0);
        ok := true;
      } else {
        ReservedBody(b, p, Out(), out');
        ok := false;
      }
    }

    /** The blocks `bs` are next, at bit position p, and lead to the output `final`. */
    ghost predicate Ahead(bs: seq<Block>, p: nat, trailing: bits, final: seq<byte>)
      reads this, dest
    {
      match StreamOut(bs, p, Out())
      case None => false
      case Some(o) =>
        Reading() && base + used <= dest.Length && o == final && base + |final| <= dest.Length &&
        rest == StreamBits(bs) + trailing && p + |rest| == 8 * |source|
    }

    /** Before the first block there is no output. */
    lemma NothingYet(bs: seq<Block>, trailing: bits, final: seq<byte>)
      requires Reading() && used == 0 && rest == BitsFrom(source, 0) == StreamBits(bs) + trailing
      requires StreamOut(bs, 0, []) == Some(final) && base + |final| <= dest.Length
      ensures Ahead(bs, 0, trailing, final)
    {
      assert dest[base..base] == [];
    }

    /** The final bit and the type of a block. */
    method ReadBlockType(ghost f: bit, ghost kind: nat, ghost r0: bits, ghost more: bits) returns (bfinal: bit, btype: nat)
      requires Reading() && rest == [f] + r0 && r0 == Lsb(kind, 2) + more && kind < 4
      modifies `pos, `tag, `bitcount, `rest
      ensures Reading() && rest == more && bfinal == f && btype == kind
    {
      bfinal := GetBit();
      assert Pow2(2) == 4;
      btype := ReadPacked(2, 0, kind, more);
    }

    /** What stands next, and that the other blocks follow. */
    lemma FirstBlock(bs: seq<Block>, p: nat, trailing: bits, final: seq<byte>) returns (q: BlockParts)
      requires Ahead(bs, p, trailing, final)
      ensures Reading() && rest == [q.f] + q.r0 && q.r0 == Lsb(BodyType(q.b), 2) + q.r1
      ensures q.r1 == BodyBits(q.b) + q.r2 && p + 3 + |q.r1| == 8 * |source| == q.p + |q.r2|
      ensures BodyOut(q.b, p, Out()) == Some(q.out) && base + |q.out| <= base + |final| <= dest.Length
      ensures GoesOn(q, bs, trailing, final)
    {
      q := BlockAhead(bs, p, Out(), final, trailing, rest);
    }

    lemma OtherBlocks(q: BlockParts, bs: seq<Block>, trailing: bits, final: seq<byte>)
      requires GoesOn(q, bs, trailing, final) && q.f == 0 && !IsBad(q.b) && q.p + |q.r2| == 8 * |source|
      requires Reading() && rest == q.r2 && Out() == q.out && base + |final| <= dest.Length && base + used <= dest.Length
      ensures Ahead(q.bs, q.p, trailing, final) && |q.bs| < |bs| && (Accepted(q.bs) <==> Accepted(bs))
    {
    }

    /** One turn of the loop of tinf_uncompress. */
    method InflateBlock(g: Tables, ghost bs: seq<Block>, ghost p: nat, ghost trailing: bits, ghost final: seq<byte>,
                        ghost d0: seq<byte>)
      returns (bfinal: bit, ok: bool, ghost bs': seq<Block>, ghost p': nat)
      requires g.Ready() && Trees() && Beyond(d0) && Apart(g) && destLen == used
      requires Ahead(bs, p, trailing, final)
      modifies this, dest
      modifies ltree.table, ltree.trans, dtree.table, dtree.trans
      ensures g.Ready() && Beyond(d0) && destLen == used
      ensures bfinal == 1 || !ok ==> Out() == final && (ok <==> Accepted(bs))
      ensures bfinal == 0 && ok ==>
        Ahead(bs', p', trailing, final) && |bs'| < |bs| && (Accepted(bs') <==> Accepted(bs))
    {
      ghost var q := FirstBlock(bs, p, trailing, final);
      bs', p' := q.bs, q.p;
      var btype;
      bfinal, btype := ReadBlockType(q.f, BodyType(q.b), q.r0, q.r1);
      ok := InflateBody(g, btype, q.b, p, q.out, q.r2, d0);
      if bfinal == 0 && ok {
        OtherBlocks(q, bs, trailing, final);
      }
    }

    /** The loop of tinf_uncompress. */
    method InflateStream(g: Tables, ghost bs: seq<Block>, ghost trailing: bits, ghost final: seq<byte>, ghost d0: seq<byte>)
      returns (ok: bool)
      requires g.Ready() && Trees() && Beyond(d0) && Apart(g) && destLen == used
      requires Ahead(bs, 0, trailing, final)
      modifies this, dest
      modifies ltree.table, ltree.trans, dtree.table, dtree.trans
      ensures ok <==> Accepted(bs)
      ensures Beyond(d0) && destLen == used && Out() == final
    {
      ghost var rs, p: nat := bs, 0;
      var bfinal := 0;
      while bfinal == 0
        invariant g.Ready() && Beyond(d0) && destLen == used
        invariant bfinal == 0 ==> Ahead(rs, p, trailing, final) && (Accepted(rs) <==> Accepted(bs))
        invariant bfinal != 0 ==> Out() == final && Accepted(bs)
        decreases if bfinal == 0 then 1 + |rs| else 0
      {
        bfinal, ok, rs, p := InflateBlock(g, rs, p, trailing, final, d0);
        if !ok {
          return false;
        }
      }
      return true;
    }

    lemma OutputsNow(d0: seq<byte>, final: seq<byte>)
      requires Beyond(d0) && destLen == used && Out() == final
      ensures Outputs(d0, dest[..], base, destLen, final)
    {
      assert base + destLen == base + used;
    }

    /** The whole of it, as what has become of the output buffer. */
    method InflateAll(g: Tables, ghost bs: seq<Block>, ghost trailing: bits, ghost final: seq<byte>) returns (ok: bool)
      requires g.Ready() && Trees() && Apart(g) && used == destLen == 0 && Beyond(dest[..])
      requires Ahead(bs, 0, trailing, final)
      modifies this, dest
      modifies ltree.table, ltree.trans, dtree.table, dtree.trans
      ensures (ok <==> Accepted(bs)) && Outputs(old(dest[..]), dest[..], base, destLen, final)
    {
      ghost var d0 := dest[..];
      ok := InflateStream(g, bs, trailing, final, d0);
      OutputsNow(d0, final);
    }
  }

  /** What follows a prefix. */
  lemma Rest(u: bits, v: bits) returns (w: bits)
    requires u <= v
    ensures v == u + w
  {
    w := v[|u|..];
  }

  /** The state before the first block. */
  method Start(g: Tables, dest: array<byte>, base: nat, source: seq<byte>, ghost bs: seq<Block>, ghost trailing: bits,
               ghost final: seq<byte>) returns (d: Data)
    requires base + |final| <= dest.Length
    requires StreamOut(bs, 0, []) == Some(final) && BitsFrom(source, 0) == StreamBits(bs) + trailing
    ensures fresh(d) && d.dest == dest && d.base == base && d.used == d.destLen == 0
    ensures fresh(d.ltree.table) && fresh(d.ltree.trans) && fresh(d.dtree.table) && fresh(d.dtree.trans)
    ensures d.Trees() && d.Apart(g) && d.Beyond(dest[..]) && d.Ahead(bs, 0, trailing, final)
  {
    d := new Data(source, dest, base, g);
    d.NothingYet(bs, trailing, final);
  }

  /** tinf_uncompress, where the stream, what follows it and its output are known. */
  method UncompressTo(g: Tables, dest: array<byte>, base: nat, source: seq<byte>, ghost bs: seq<Block>, ghost trailing: bits,
                      ghost final: seq<byte>)
    returns (ok: bool, destLen: nat)
    requires g.Ready() && base + |final| <= dest.Length
    requires StreamOut(bs, 0, []) == Some(final) && BitsFrom(source, 0) == StreamBits(bs) + trailing
    modifies dest
    ensures (ok <==> Accepted(bs)) && Outputs(old(dest[..]), dest[..], base, destLen, final)
  {
    var d := Start(g, dest, base, source, bs, trailing, final);
    ok := d.InflateAll(g, bs, trailing, final);
    destLen := d.destLen;
  }

  /** tinf_uncompress, on a stream of blocks `bs`, into `dest` from index `base` on; whatever
      follows the stream is not read. The result is true for TINF_OK and false for
      TINF_DATA_ERROR. */
  method Uncompress(g: Tables, dest: array<byte>, base: nat, source: seq<byte>, ghost bs: seq<Block>)
    returns (ok: bool, destLen: nat)
    requires g.Ready()
    requires StreamOut(bs, 0, []).Some? && base + |StreamOut(bs, 0, []).value| <= dest.Length
    requires StreamBits(bs) <= BitsFrom(source, 0)
    modifies dest
    ensures ok <==> Accepted(bs)
    ensures base + destLen <= dest.Length && dest[base..base + destLen] == StreamOut(bs, 0, []).value
    ensures dest[..base] == old(dest[..])[..base] && dest[base + destLen..] == old(dest[..])[base + destLen..]
  {
    ghost var trailing := Rest(StreamBits(bs), BitsFrom(source, 0));
    ok, destLen := UncompressTo(g, dest, base, source, bs, trailing, StreamOut(bs, 0, []).value);
  }
}
