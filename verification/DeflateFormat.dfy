/** The DEFLATE format of RFC 1951: what a well-formed stream is, which bits transmit it and
    what it means. Nothing here mentions the decoder. */
module DeflateFormat {
  import opened Words
  import opened Bits
  import opened Huffman

  // ---------- tokens and their codes (section 3.2.5) ----------

  /** Extra bits and first length of the length codes, counted from symbol 257. */
  function LengthExtra(i: nat): (e: nat)
    requires i < 29
    ensures e <= 5
  {
    if i < 4 || i == 28 then 0 else (i - 4) / 4
  }

  function LengthBase(i: nat): nat
    requires i < 29
  {
    if i == 0 then 3 else if i == 28 then 258 else LengthBase(i - 1) + Pow2(LengthExtra(i - 1))
  }

  /** Extra bits and first distance of the distance codes. */
  function DistExtra(i: nat): (e: nat)
    requires i < 30
    ensures e <= 13
  {
    if i < 2 then 0 else (i - 2) / 2
  }

  function DistBase(i: nat): nat
    requires i < 30
  {
    if i == 0 then 1 else DistBase(i - 1) + Pow2(DistExtra(i - 1))
  }

  /** The numbers of extra bits as section 3.2.5 prints them. */
  const LENGTH_EXTRA: seq<nat> :=
    [0, 0, 0, 0, 0, 0, 0, 0, 1, 1, 1, 1, 2, 2, 2, 2, 3, 3, 3, 3, 4, 4, 4, 4, 5, 5, 5, 5, 0]
  const DIST_EXTRA: seq<nat> :=
    [0, 0, 0, 0, 1, 1, 2, 2, 3, 3, 4, 4, 5, 5, 6, 6, 7, 7, 8, 8, 9, 9, 10, 10, 11, 11, 12, 12, 13, 13]

  lemma LengthExtraIsPrinted(i: nat)
    requires i < 29
    ensures LengthExtra(i) == LENGTH_EXTRA[i]
  {
    assert i < 28 ==> LENGTH_EXTRA[i] == (if i < 4 then 0 else (i - 4) / 4);
  }

  lemma DistExtraIsPrinted(i: nat)
    requires i < 30
    ensures DistExtra(i) == DIST_EXTRA[i]
  {
  }

  lemma ShortLengthBases()
    ensures LengthBase(0) == 3 && LengthBase(1) == 4 && LengthBase(2) == 5 && LengthBase(3) == 6 && LengthBase(4) == 7
    ensures LengthBase(5) == 8 && LengthBase(6) == 9 && LengthBase(7) == 10 && LengthBase(8) == 11 && LengthBase(9) == 13
    ensures LengthBase(10) == 15 && LengthBase(11) == 17 && LengthBase(12) == 19 && LengthBase(13) == 23 && LengthBase(14) == 27
  {
    assert LengthBase(2) == 5;
    assert LengthBase(4) == 7;
    assert LengthBase(6) == 9;
    assert LengthBase(8) == 11;
    assert LengthBase(10) == 15;
    assert LengthBase(12) == 19;
  }

  lemma LongLengthBases()
    ensures LengthBase(15) == 31 && LengthBase(16) == 35 && LengthBase(17) == 43 && LengthBase(18) == 51 && LengthBase(19) == 59
    ensures LengthBase(20) == 67 && LengthBase(21) == 83 && LengthBase(22) == 99 && LengthBase(23) == 115 && LengthBase(24) == 131
    ensures LengthBase(25) == 163 && LengthBase(26) == 195 && LengthBase(27) == 227 && LengthBase(28) == 258
  {
    ShortLengthBases();
    assert LengthBase(16) == 35;
    assert LengthBase(18) == 51;
    assert LengthBase(20) == 67;
    assert LengthBase(22) == 99;
    assert LengthBase(24) == 131;
    assert LengthBase(26) == 195;
  }

  /** The bases as section 3.2.5 prints them. */
  lemma LengthBaseIsPrinted()
    ensures LengthBase(0) == 3 && LengthBase(1) == 4 && LengthBase(2) == 5 && LengthBase(3) == 6 && LengthBase(4) == 7
    ensures LengthBase(5) == 8 && LengthBase(6) == 9 && LengthBase(7) == 10 && LengthBase(8) == 11 && LengthBase(9) == 13
    ensures LengthBase(10) == 15 && LengthBase(11) == 17 && LengthBase(12) == 19 && LengthBase(13) == 23 && LengthBase(14) == 27
    ensures LengthBase(15) == 31 && LengthBase(16) == 35 && LengthBase(17) == 43 && LengthBase(18) == 51 && LengthBase(19) == 59
    ensures LengthBase(20) == 67 && LengthBase(21) == 83 && LengthBase(22) == 99 && LengthBase(23) == 115 && LengthBase(24) == 131
    ensures LengthBase(25) == 163 && LengthBase(26) == 195 && LengthBase(27) == 227 && LengthBase(28) == 258
  {
    ShortLengthBases();
    LongLengthBases();
  }

  lemma ShortDistBases()
    ensures DistBase(0) == 1 && DistBase(1) == 2 && DistBase(2) == 3 && DistBase(3) == 4 && DistBase(4) == 5
    ensures DistBase(5) == 7 && DistBase(6) == 9 && DistBase(7) == 13 && DistBase(8) == 17 && DistBase(9) == 25
  {
    assert DistBase(1) == 2;
    assert DistBase(3) == 4;
    assert DistBase(5) == 7;
    assert DistBase(7) == 13;
    assert DistBase(9) == 25;
  }

  lemma DistBaseIsPrinted()
    ensures DistBase(0) == 1 && DistBase(1) == 2 && DistBase(2) == 3 && DistBase(3) == 4 && DistBase(4) == 5
    ensures DistBase(5) == 7 && DistBase(6) == 9 && DistBase(7) == 13 && DistBase(8) == 17 && DistBase(9) == 25
    ensures DistBase(10) == 33 && DistBase(11) == 49 && DistBase(12) == 65 && DistBase(13) == 97 && DistBase(14) == 129
    ensures DistBase(15) == 193 && DistBase(16) == 257 && DistBase(17) == 385 && DistBase(18) == 513 && DistBase(19) == 769
  {
    ShortDistBases();
    assert DistBase(11) == 49;
    assert DistBase(13) == 97;
    assert DistBase(15) == 193;
    assert DistBase(17) == 385;
    assert DistBase(19) == 769;
  }

  lemma LongDistBaseIsPrinted()
    ensures DistBase(20) == 1025 && DistBase(21) == 1537 && DistBase(22) == 2049 && DistBase(23) == 3073 && DistBase(24) == 4097
    ensures DistBase(25) == 6145 && DistBase(26) == 8193 && DistBase(27) == 12289 && DistBase(28) == 16385 && DistBase(29) == 24577
  {
    DistBaseIsPrinted();
    assert DistBase(20) == 1025;
    assert DistBase(22) == 2049;
    assert DistBase(24) == 4097;
    assert DistBase(26) == 8193;
    assert DistBase(28) == 16385;
  }

  lemma Pow2Small(e: nat)
    requires e <= 13
    ensures Pow2(e) == [1, 2, 4, 8, 16, 32, 64, 128, 256, 512, 1024, 2048, 4096, 8192][e]
  {
    Pow2Values();
  }

  const END_OF_BLOCK := 256

  /** A literal byte, or a match: `length` bytes that occur `dist` bytes back. */
  datatype Token = Literal(b: byte) | Match(length: nat, dist: nat)

  /** A token as it is coded: the match's length and distance as symbol and extra bits. */
  datatype Item = Lit(b: byte) | Copy(lsym: nat, lextra: nat, dsym: nat, dextra: nat)

  ghost predicate ItemShape(x: Item) {
    x.Copy? ==>
      x.lsym < 29 && x.lextra < Pow2(LengthExtra(x.lsym)) &&
      x.dsym < 30 && x.dextra < Pow2(DistExtra(x.dsym))
  }

  ghost function TokenOf(x: Item): Token
    requires ItemShape(x)
  {
    match x
    case Lit(b) => Literal(b)
    case Copy(ls, le, ds, de) => Match(LengthBase(ls) + le, DistBase(ds) + de)
  }

  /** Copies `n` bytes one at a time from `dist` bytes back; source and target may overlap. */
  ghost function CopyBack(out: seq<byte>, n: nat, dist: nat): (r: seq<byte>)
    requires 0 < dist <= |out|
    ensures |r| == |out| + n
    decreases n
  {
    if n == 0 then out else CopyBack(out + [out[|out| - dist]], n - 1, dist)
  }

  ghost predicate TokenFits(t: Token, n: nat) {
    t.Match? ==> 3 <= t.length <= 258 && 1 <= t.dist <= 32768 && t.dist <= n
  }

  /** The output after one more token. */
  ghost function Emit(out: seq<byte>, t: Token): (r: seq<byte>)
    requires TokenFits(t, |out|)
    ensures |r| > |out|
  {
    match t
    case Literal(b) => out + [b]
    case Match(n, dist) => CopyBack(out, n, dist)
  }

  lemma {:induction false} CopyBackExtends(out: seq<byte>, n: nat, dist: nat)
    requires 0 < dist <= |out|
    ensures out <= CopyBack(out, n, dist)
    decreases n
  {
    if n > 0 {
      CopyBackExtends(out + [out[|out| - dist]], n - 1, dist);
    }
  }

  lemma ModNext(i: nat, d: nat)
    requires i > 0 && d > 0
    ensures i % d == if (i - 1) % d == d - 1 then 0 else (i - 1) % d + 1
  {
    var q, r := (i - 1) / d, (i - 1) % d;
    assert i - 1 == d * q + r;
    if r == d - 1 {
      assert d * (q + 1) == d * q + d;
      DivModUnique(i, d, q + 1, 0);
    } else {
      DivModUnique(i, d, q, r + 1);
    }
  }

  /** Byte i of a match is the byte that lies i mod dist into the last dist bytes. */
  lemma {:induction false} CopyBackRepeats(out: seq<byte>, n: nat, dist: nat, i: nat)
    requires 0 < dist <= |out| && i < n
    ensures out <= CopyBack(out, n, dist)
    ensures CopyBack(out, n, dist)[|out| + i] == out[|out| - dist + i % dist]
    decreases n
  {
    var next := out + [out[|out| - dist]];
    CopyBackExtends(next, n - 1, dist);
    CopyBackExtends(out, n, dist);
    if i == 0 {
      assert CopyBack(next, n - 1, dist)[|out|] == next[|out|];
    } else {
      CopyBackRepeats(next, n - 1, dist, i - 1);
      var j := (i - 1) % dist;
      if j == dist - 1 {
        ModNext(i, dist);
        assert next[|next| - dist + j] == out[|out| - dist];
      } else {
        ModNext(i, dist);
      }
    }
  }

  /** A match of n + 1 bytes is a match of n bytes and the byte `dist` back from its end. */
  lemma {:induction false} CopyBackSnoc(out: seq<byte>, n: nat, dist: nat)
    requires 0 < dist <= |out|
    ensures CopyBack(out, n + 1, dist)
         == CopyBack(out, n, dist) + [CopyBack(out, n, dist)[|out| + n - dist]]
    decreases n
  {
    if n > 0 {
      CopyBackSnoc(out + [out[|out| - dist]], n - 1, dist);
    }
  }

  /** The item has codes and can follow n bytes of output. */
  ghost predicate ItemOk(x: Item, lit: Lengths, dist: Lengths, n: nat) {
    ItemShape(x) && TokenFits(TokenOf(x), n) &&
    match x
    case Lit(b) => Used(lit, b)
    case Copy(ls, _, ds, _) => Used(lit, 257 + ls) && Used(dist, ds)
  }

  ghost function ItemBits(x: Item, lit: Lengths, dist: Lengths): bits {
    if !ItemShape(x) then []
    else
      match x
      case Lit(b) => Codeword(lit, b)
      case Copy(ls, le, ds, de) =>
        Codeword(lit, 257 + ls) + (Lsb(le, LengthExtra(ls)) + (Codeword(dist, ds) + Lsb(de, DistExtra(ds))))
  }

  /** The output after a block's items, or None when one of them cannot be transmitted. */
  ghost function ItemsOut(xs: seq<Item>, lit: Lengths, dist: Lengths, out: seq<byte>): (r: Option<seq<byte>>)
    ensures r.Some? ==> |r.value| >= |out|
    decreases |xs|
  {
    if |xs| == 0 then Some(out)
    else if !ItemOk(xs[0], lit, dist, |out|) then None
    else ItemsOut(xs[1..], lit, dist, Emit(out, TokenOf(xs[0])))
  }

  /** The items, closed by the end-of-block symbol. */
  ghost function ItemsBits(xs: seq<Item>, lit: Lengths, dist: Lengths): bits
    decreases |xs|
  {
    if |xs| == 0 then Codeword(lit, END_OF_BLOCK)
    else ItemBits(xs[0], lit, dist) + ItemsBits(xs[1..], lit, dist)
  }

  // ---------- code length runs (section 3.2.7) ----------

  const CLCIDX: seq<nat> := [16, 17, 18, 0, 8, 7, 9, 6, 10, 5, 11, 4, 12, 3, 13, 2, 14, 1, 15]

  /** The order in which the lengths of the code length code are sent, in closed form. */
  function ClIndex(i: nat): (s: nat)
    requires i < 19
    ensures s < 19
  {
    if i < 3 then 16 + i
    else if i == 3 then 0
    else if i % 2 == 0 then 6 + i / 2
    else 9 - i / 2
  }

  lemma ClIndexIsTable(i: nat)
    requires i < 19
    ensures ClIndex(i) == CLCIDX[i]
  {
  }

  datatype Run = Plain(len: nat) | Again(count: nat) | ZerosShort(count: nat) | ZerosLong(count: nat)

  ghost function RunSymbol(r: Run): nat {
    match r
    case Plain(len) => len
    case Again(_) => 16
    case ZerosShort(_) => 17
    case ZerosLong(_) => 18
  }

  /** The run has a code and can follow `n` code lengths. */
  ghost predicate RunOk(r: Run, cl: Lengths, n: nat) {
    Used(cl, RunSymbol(r)) &&
    match r
    case Plain(len) => len <= MAXBITS
    case Again(count) => 3 <= count <= 6 && n > 0
    case ZerosShort(count) => 3 <= count <= 10
    case ZerosLong(count) => 11 <= count <= 138
  }

  ghost function Copies(x: nat, n: nat): (r: seq<nat>)
    ensures |r| == n && forall i :: 0 <= i < n ==> r[i] == x
  {
    seq(n, i => x)
  }

  ghost function RunOut(r: Run, out: seq<nat>): (o: seq<nat>)
    requires r.Again? ==> |out| > 0
    ensures out <= o
  {
    match r
    case Plain(len) => out + [len]
    case Again(count) => out + Copies(out[|out| - 1], count)
    case ZerosShort(count) => out + Copies(0, count)
    case ZerosLong(count) => out + Copies(0, count)
  }

  /** The extra bits that give a run's length. */
  ghost function RunExtra(r: Run): bits {
    match r
    case Plain(_) => []
    case Again(count) => if count < 3 then [] else Lsb(count - 3, 2)
    case ZerosShort(count) => if count < 3 then [] else Lsb(count - 3, 3)
    case ZerosLong(count) => if count < 11 then [] else Lsb(count - 11, 7)
  }

  ghost function RunBits(r: Run, cl: Lengths): bits {
    Codeword(cl, RunSymbol(r)) + RunExtra(r)
  }

  /** The code lengths that the runs describe, or None when one of them cannot be sent. */
  ghost function RunsOut(rs: seq<Run>, cl: Lengths, out: seq<nat>): (r: Option<seq<nat>>)
    ensures r.Some? ==> out <= r.value && |r.value| >= |out| + |rs|
    decreases |rs|
  {
    if |rs| == 0 then Some(out)
    else if !RunOk(rs[0], cl, |out|) then None
    else RunsOut(rs[1..], cl, RunOut(rs[0], out))
  }

  ghost function RunsBits(rs: seq<Run>, cl: Lengths): bits
    decreases |rs|
  {
    if |rs| == 0 then [] else RunBits(rs[0], cl) + RunsBits(rs[1..], cl)
  }

  /** The header of a dynamic block: how many lengths belong to the two codes, the code for the
      code lengths, how many of its lengths are sent, and the runs that describe the two codes. */
  datatype Header = Header(hlit: nat, hdist: nat, cl: Lengths, hclen: nat, runs: seq<Run>)

  ghost predicate HeaderShape(h: Header) {
    257 <= h.hlit <= 288 && 1 <= h.hdist <= 32 &&
    |h.cl| == 19 && PrefixValid(h.cl) && (forall i :: 0 <= i < 19 ==> h.cl[i] < 8) &&
    4 <= h.hclen <= 19 && forall i :: h.hclen <= i < 19 ==> h.cl[ClIndex(i)] == 0
  }

  datatype Codes = Codes(lit: Lengths, dist: Lengths)

  /** The literal/length and the distance code that a header describes, or None when the
      header is not well formed. */
  ghost function HeaderCodes(h: Header): Option<Codes> {
    if !HeaderShape(h) then None
    else
      match RunsOut(h.runs, h.cl, [])
      case None => None
      case Some(lens) =>
        if |lens| == h.hlit + h.hdist && (forall i :: 0 <= i < |lens| ==> lens[i] <= MAXBITS) &&
           PrefixValid(lens[..h.hlit]) && PrefixValid(lens[h.hlit..])
        then Some(Codes(lens[..h.hlit], lens[h.hlit..]))
        else None
  }

  /** The code lengths of the code length code, in transmission order from index i on. */
  ghost function ClBits(cl: Lengths, i: nat, hclen: nat): bits
    requires |cl| == 19 && i <= hclen <= 19
    decreases hclen - i
  {
    if i == hclen then [] else Lsb(cl[ClIndex(i)], 3) + ClBits(cl, i + 1, hclen)
  }

  ghost function HeaderBits(h: Header): bits {
    if !HeaderShape(h) then []
    else
      Lsb(h.hlit - 257, 5) + (Lsb(h.hdist - 1, 5) + (Lsb(h.hclen - 4, 4) +
      (ClBits(h.cl, 0, h.hclen) + RunsBits(h.runs, h.cl))))
  }

  // ---------- blocks (sections 3.2.3 to 3.2.7) ----------

  /** The lengths of the fixed codes (section 3.2.6). */
  function FixedLitLength(i: nat): nat {
    if i < 144 then 8 else if i < 256 then 9 else if i < 280 then 7 else 8
  }

  ghost function FixedLit(): (l: Lengths)
    ensures |l| == 288
  {
    seq(288, i requires 0 <= i < 288 => FixedLitLength(i))
  }

  ghost function FixedDist(): (l: Lengths)
    ensures |l| == 32
  {
    seq(32, i => 5)
  }

  /** The body of a block. The last two are what a decoder has to reject: the reserved block
      type, and a stored block whose length check fails. */
  datatype Body =
    | Stored(pad: bits, data: seq<byte>)
    | Fixed(items: seq<Item>)
    | Dynamic(header: Header, items: seq<Item>)
    | Reserved
    | BadStored(pad: bits, len: nat, nlen: nat)

  datatype Block = Block(final: bool, body: Body)

  predicate IsBad(b: Body) {
    b.Reserved? || b.BadStored?
  }

  /** Padding from bit position p to the next byte boundary. */
  predicate PadOk(pad: bits, p: nat) {
    |pad| < 8 && (p + |pad|) % 8 == 0
  }

  /** The output after a block that starts at bit position p, or None when the block is not
      well formed. A block that has to be rejected adds nothing. */
  ghost function BodyOut(b: Body, p: nat, out: seq<byte>): (r: Option<seq<byte>>)
    ensures r.Some? ==> |r.value| >= |out|
  {
    match b
    case Stored(pad, data) => if PadOk(pad, p + 3) && |data| < 0x1_0000 then Some(out + data) else None
    case Fixed(items) => ItemsOut(items, FixedLit(), FixedDist(), out)
    case Dynamic(h, items) =>
      (match HeaderCodes(h)
       case Some(c) => if Used(c.lit, END_OF_BLOCK) then ItemsOut(items, c.lit, c.dist, out) else None
       case None => None)
    case Reserved => Some(out)
    case BadStored(pad, len, nlen) =>
      if PadOk(pad, p + 3) && len < 0x1_0000 && nlen < 0x1_0000 && len + nlen != 0xFFFF then Some(out) else None
  }

  ghost function BodyType(b: Body): nat {
    match b
    case Stored(_, _) => 0
    case Fixed(_) => 1
    case Dynamic(_, _) => 2
    case Reserved => 3
    case BadStored(_, _, _) => 0
  }

  ghost function BytesBits(data: seq<byte>): (w: bits)
    ensures |w| == 8 * |data|
  {
    if |data| == 0 then [] else Lsb(data[0], 8) + BytesBits(data[1..])
  }

  /** A stored block after its three header bits: padding, length and its complement, data. */
  ghost function StoredBits(pad: bits, len: nat, nlen: nat, data: seq<byte>): bits {
    pad + (Lsb(len, 16) + (Lsb(nlen, 16) + BytesBits(data)))
  }

  function Complement(len: nat): nat
    requires len < 0x1_0000
  {
    0xFFFF - len
  }

  ghost function BodyBits(b: Body): bits {
    match b
    case Stored(pad, data) =>
      if |data| < 0x1_0000 then StoredBits(pad, |data|, Complement(|data|), data) else []
    case Fixed(items) => ItemsBits(items, FixedLit(), FixedDist())
    case Dynamic(h, items) =>
      (match HeaderCodes(h)
       case Some(c) => HeaderBits(h) + ItemsBits(items, c.lit, c.dist)
       case None => [])
    case Reserved => []
    case BadStored(pad, len, nlen) => StoredBits(pad, len, nlen, [])
  }

  /** A block: final bit, two bits of type, body. */
  ghost function BlockBits(b: Block): bits {
    [if b.final then 1 else 0] + (Lsb(BodyType(b.body), 2) + BodyBits(b.body))
  }

  // ---------- streams ----------

  /** The output of the blocks that start at bit position p, up to the first that is final or
      has to be rejected, which must be the last; None when they are not well formed. */
  ghost function StreamOut(bs: seq<Block>, p: nat, out: seq<byte>): (r: Option<seq<byte>>)
    ensures r.Some? ==> |bs| > 0 && |r.value| >= |out|
    decreases |bs|
  {
    if |bs| == 0 then None
    else
      var o := BodyOut(bs[0].body, p, out);
      if bs[0].final || IsBad(bs[0].body) then (if |bs| == 1 then o else None)
      else if o.None? then None
      else StreamOut(bs[1..], p + |BlockBits(bs[0])|, o.value)
  }

  ghost function StreamBits(bs: seq<Block>): bits
    decreases |bs|
  {
    if |bs| == 0 then [] else BlockBits(bs[0]) + StreamBits(bs[1..])
  }

  /** The stream ends with its final block, and not with something to reject. */
  ghost predicate Accepted(bs: seq<Block>) {
    |bs| > 0 && !IsBad(bs[|bs| - 1].body)
  }
}
