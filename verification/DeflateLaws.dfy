/** What a stream is, in literal bits and bytes, as RFC 1951 prints it. */
module DeflateLaws {
  import opened Words
  import opened Bits
  import opened Huffman
  import opened DeflateFormat
  import opened TinfTables
  import opened Tinflate

  // ---------- canonical codes (section 3.2.2) ----------

  lemma MulMonotone(a: nat, b: nat, p: nat)
    requires a <= b
    ensures a * p <= b * p
  {
  }

  /** The two rules: codes of one length ascend with the symbols, and all codes of a length lie
      above the extensions of the shorter ones. */
  lemma CodesAscend(lens: Lengths, s: nat, t: nat)
    requires Used(lens, s) && Used(lens, t)
    ensures lens[s] == lens[t] && s < t ==> Code(lens, s) < Code(lens, t)
    ensures lens[s] < lens[t] ==> (Code(lens, s) + 1) * Pow2(lens[t] - lens[s]) <= Code(lens, t)
  {
    if lens[s] == lens[t] && s < t {
      RankInjective(lens, s, t);
      CountMonotone(lens, s, t, lens[s]);
    }
    if lens[s] < lens[t] {
      var d := lens[t] - lens[s];
      FirstAbove(lens, lens[s], lens[t]);
      RankBound(lens, s);
      MulMonotone(Code(lens, s) + 1, End(lens, lens[s]), Pow2(d));
    }
  }

  lemma ExampleCodes()
    ensures var lens := [3, 3, 3, 3, 3, 2, 4, 4];
      Code(lens, 0) == 2 && Code(lens, 1) == 3 && Code(lens, 2) == 4 && Code(lens, 3) == 5 && Code(lens, 4) == 6 &&
      Code(lens, 5) == 0 && Code(lens, 6) == 14 && Code(lens, 7) == 15
  {
    var lens: Lengths := [3, 3, 3, 3, 3, 2, 4, 4];
    assert First(lens, 8, 2) == 0 && First(lens, 8, 3) == 2 && First(lens, 8, 4) == 14;
  }

  lemma LastBit(x: nat, y: nat, n: int)
    requires y == x / 2 && n > 0
    ensures Msb(x, n) == Msb(y, n - 1) + [x % 2]
  {
  }

  lemma ShortCode(lens: Lengths, s: nat, c: nat)
    requires Used(lens, s) && Code(lens, s) == c
    ensures lens[s] == 2 ==> Codeword(lens, s) == [c / 2 % 2, c % 2]
    ensures lens[s] == 3 ==> Codeword(lens, s) == [c / 4 % 2, c / 2 % 2, c % 2]
    ensures lens[s] == 4 ==> Codeword(lens, s) == [c / 8 % 2, c / 4 % 2, c / 2 % 2, c % 2]
  {
    LastBit(c, c / 2, lens[s]);
    if lens[s] > 1 {
      LastBit(c / 2, c / 4, lens[s] - 1);
    }
    if lens[s] > 2 {
      LastBit(c / 4, c / 8, lens[s] - 2);
    }
    if lens[s] > 3 {
      LastBit(c / 8, c / 16, lens[s] - 3);
    }
  }

  lemma ExampleWords(lens: Lengths)
    requires |lens| == 8 && lens[0] == lens[1] == lens[2] == lens[3] == lens[4] == 3 && lens[5] == 2 && lens[6] == lens[7] == 4
    requires Code(lens, 0) == 2 && Code(lens, 1) == 3 && Code(lens, 2) == 4 && Code(lens, 3) == 5 && Code(lens, 4) == 6
    requires Code(lens, 5) == 0 && Code(lens, 6) == 14 && Code(lens, 7) == 15
    ensures Codeword(lens, 0) == [0, 1, 0] && Codeword(lens, 1) == [0, 1, 1] && Codeword(lens, 2) == [1, 0, 0]
    ensures Codeword(lens, 3) == [1, 0, 1] && Codeword(lens, 4) == [1, 1, 0] && Codeword(lens, 5) == [0, 0]
    ensures Codeword(lens, 6) == [1, 1, 1, 0] && Codeword(lens, 7) == [1, 1, 1, 1]
  {
    ShortCode(lens, 0, 2);
    ShortCode(lens, 1, 3);
    ShortCode(lens, 2, 4);
    ShortCode(lens, 3, 5);
    ShortCode(lens, 4, 6);
    ShortCode(lens, 5, 0);
    ShortCode(lens, 6, 14);
    ShortCode(lens, 7, 15);
  }

  /** The printed example: lengths for the symbols A to H, and their codes. */
  lemma ExampleIsPrinted()
    ensures var lens := [3, 3, 3, 3, 3, 2, 4, 4];
      Codeword(lens, 0) == [0, 1, 0] && Codeword(lens, 1) == [0, 1, 1] && Codeword(lens, 2) == [1, 0, 0] &&
      Codeword(lens, 3) == [1, 0, 1] && Codeword(lens, 4) == [1, 1, 0] && Codeword(lens, 5) == [0, 0] &&
      Codeword(lens, 6) == [1, 1, 1, 0] && Codeword(lens, 7) == [1, 1, 1, 1]
  {
    var lens: Lengths := [3, 3, 3, 3, 3, 2, 4, 4];
    ExampleCodes();
    ExampleWords(lens);
  }

  lemma {:induction false} FixedLitFirst(l: nat)
    requires l <= 9
    ensures First(FixedLit(), 288, l) == if l <= 7 then 0 else if l == 8 then 0x30 else 0x190
  {
    if l > 0 {
      FixedLitFirst(l - 1);
      FixedLitCount(288, l - 1);
    }
  }

  lemma {:induction false} FixedDistFirst(l: nat)
    requires l <= 5
    ensures First(FixedDist(), 32, l) == 0
  {
    if l > 0 {
      FixedDistFirst(l - 1);
      FixedDistCount(32, l - 1);
    }
  }

  lemma FixedLitCode(s: nat)
    requires s < 288
    ensures Used(FixedLit(), s) && FixedLit()[s] == FixedLitLength(s)
    ensures Code(FixedLit(), s) ==
      if s < 144 then 0x30 + s else if s < 256 then 0x190 + (s - 144) else if s < 280 then s - 256 else 0xC0 + (s - 280)
  {
    assert FixedLit()[s] == FixedLitLength(s);
    FixedLitFirst(FixedLitLength(s));
    FixedLitCount(s, FixedLitLength(s));
  }

  lemma FixedDistCode(s: nat)
    requires s < 32
    ensures Used(FixedDist(), s) && FixedDist()[s] == 5 && Code(FixedDist(), s) == s
  {
    FixedDistFirst(5);
    FixedDistCount(s, 5);
  }

  /** The codes of section 3.2.6: 8 bits from 00110000, 9 bits from 110010000, 7 bits from 0000000
      and 8 bits from 11000000; distances are plain 5-bit numbers. */
  lemma FixedCodesArePrinted(s: nat)
    requires s < 288
    ensures Codeword(FixedLit(), s) ==
      if s < 144 then Msb(0x30 + s, 8) else if s < 256 then Msb(0x190 + (s - 144), 9)
      else if s < 280 then Msb(s - 256, 7) else Msb(0xC0 + (s - 280), 8)
    ensures s < 32 ==> Codeword(FixedDist(), s) == Msb(s, 5)
  {
    FixedLitCode(s);
    if s < 32 {
      FixedDistCode(s);
    }
  }

  // ---------- block headers (sections 3.2.3, 3.2.4 and 3.2.7) ----------

  function Bit(f: bool): bit {
    if f then 1 else 0
  }

  lemma HeadJoins(a: bit, b: bit, c: bit, w: bits)
    ensures [a] + ([b, c] + w) == [a, b, c] + w
  {
  }

  /** The final bit comes first, then the two bits of the type. */
  lemma BlockIs(f: bool, b: Body, t: bit, u: bit)
    requires Lsb(BodyType(b), 2) == [t, u]
    ensures BlockBits(Block(f, b)) == [Bit(f), t, u] + BodyBits(b)
  {
    HeadJoins(Bit(f), t, u, BodyBits(b));
  }

  lemma TypeBits()
    ensures Lsb(0, 2) == [0, 0] && Lsb(1, 2) == [1, 0] && Lsb(2, 2) == [0, 1] && Lsb(3, 2) == [1, 1]
  {
  }

  /** Type 00: the padding, the length n, its complement k, the data. */
  lemma StoredBlockIs(f: bool, pad: bits, data: seq<byte>, n: nat, k: nat)
    requires n == |data| && n + k == 0xFFFF
    ensures BlockBits(Block(f, Stored(pad, data))) == [Bit(f), 0, 0] + (pad + (Lsb(n, 16) + (Lsb(k, 16) + BytesBits(data))))
  {
    TypeBits();
    BlockIs(f, Stored(pad, data), 0, 0);
    assert Complement(n) == k;
    assert BodyBits(Stored(pad, data)) == StoredBits(pad, n, k, data);
  }

  /** Type 01, the low bit first. */
  lemma FixedBlockIs(f: bool, xs: seq<Item>)
    ensures BlockBits(Block(f, Fixed(xs))) == [Bit(f), 1, 0] + ItemsBits(xs, FixedLit(), FixedDist())
  {
    TypeBits();
    BlockIs(f, Fixed(xs), 1, 0);
  }

  /** Type 10: HLIT, HDIST, HCLEN, the code length code, the code lengths, the items. */
  lemma DynamicBlockIs(f: bool, h: Header, c: Codes, xs: seq<Item>)
    requires HeaderCodes(h) == Some(c)
    ensures BlockBits(Block(f, Dynamic(h, xs))) ==
      [Bit(f), 0, 1] + ((Lsb(h.hlit - 257, 5) + (Lsb(h.hdist - 1, 5) + (Lsb(h.hclen - 4, 4) +
        (ClBits(h.cl, 0, h.hclen) + RunsBits(h.runs, h.cl))))) + ItemsBits(xs, c.lit, c.dist))
  {
    TypeBits();
    BlockIs(f, Dynamic(h, xs), 0, 1);
  }

  /** Type 11 is reserved. */
  lemma ReservedBlockIs(f: bool)
    ensures BlockBits(Block(f, Reserved)) == [Bit(f), 1, 1]
  {
    TypeBits();
    BlockIs(f, Reserved, 1, 1);
  }

  /** The code lengths of the code length code take three bits each, in the printed order. */
  lemma ClBitsAre(cl: Lengths, i: nat, hclen: nat)
    requires |cl| == 19 && i < hclen <= 19
    ensures ClBits(cl, i, hclen) ==
      Lsb(cl[[16, 17, 18, 0, 8, 7, 9, 6, 10, 5, 11, 4, 12, 3, 13, 2, 14, 1, 15][i]], 3) + ClBits(cl, i + 1, hclen)
  {
    ClIndexIsTable(i);
  }

  // ---------- whole streams ----------

  /** A stream of one block that ends it. */
  lemma OneBlock(b: Block, src: seq<byte>, w: bits, out: seq<byte>)
    requires BlockBits(b) == w <= BitsFrom(src, 0)
    requires (b.final || IsBad(b.body)) && BodyOut(b.body, 0, []) == Some(out)
    ensures StreamOut([b], 0, []) == Some(out) && StreamBits([b]) <= BitsFrom(src, 0)
    ensures Accepted([b]) <==> !IsBad(b.body)
  {
    assert [b][1..] == [] && w + [] == w;
  }

  lemma {:induction false} BytesBitsFrom(data: seq<byte>, src: seq<byte>, i: nat, k: nat)
    requires k == i + |data| && k <= |src| && src[i..k] == data
    ensures BitsFrom(src, i) == BytesBits(data) + BitsFrom(src, k)
    decreases |data|
  {
    if |data| > 0 {
      assert src[i] == src[i..k][0] && src[i + 1..k] == src[i..k][1..];
      BytesBitsFrom(data[1..], src, i + 1, k);
      Assoc(Lsb(data[0], 8), BytesBits(data[1..]), BitsFrom(src, k));
    }
  }

  function Sixteen(low: byte, high: byte): (n: nat)
    ensures n < 0x1_0000
  {
    var l: int, h: int := low, high;
    l + 0x100 * h
  }

  /** Two bytes, the low one first, are a 16-bit number. */
  lemma TwoBytesAre(src: seq<byte>, i: nat, n: nat)
    requires i + 2 <= |src| && n == Sixteen(src[i], src[i + 1])
    ensures BitsFrom(src, i) == Lsb(n, 16) + BitsFrom(src, i + 2)
  {
    assert Pow2(8) == 0x100;
    LsbJoin(src[i], 8, src[i + 1], 8);
    Assoc(Lsb(src[i], 8), Lsb(src[i + 1], 8), BitsFrom(src, i + 2));
    assert BitsFrom(src, i + 1) == Lsb(src[i + 1], 8) + BitsFrom(src, i + 2);
  }

  lemma FirstBit(x: nat, n: nat, y: nat, k: nat)
    requires n == k + 1 && y == x / 2
    ensures Lsb(x, n) == [x % 2] + Lsb(y, k)
  {
  }

  /** The three bits at the head of a byte. */
  lemma HeadBits(x: nat, n: nat)
    ensures Lsb(x, n + 3) == [x % 2, x / 2 % 2, x / 4 % 2] + Lsb(x / 8, n)
  {
    var y, z := x / 2, x / 4;
    FirstBit(x, n + 3, y, n + 2);
    FirstBit(y, n + 2, z, n + 1);
    FirstBit(z, n + 1, x / 8, n);
  }

  lemma ByteBits(h: byte)
    ensures Lsb(h, 8) == [h % 2, h / 2 % 2, h / 4 % 2] + Lsb(h / 8, 5)
  {
    HeadBits(h, 5);
    assert Lsb(h, 5 + 3) == Lsb(h, 8);
  }

  /** The first five bytes of a stored block, with their bits; n and k are the two lengths. */
  lemma StoredHead(src: seq<byte>, head: bits, n: nat, k: nat)
    requires |src| >= 5 && head == [src[0] % 2, src[0] / 2 % 2, src[0] / 4 % 2]
    requires n == Sixteen(src[1], src[2]) && k == Sixteen(src[3], src[4])
    ensures BitsFrom(src, 0) == head + (Lsb(src[0] / 8, 5) + (Lsb(n, 16) + (Lsb(k, 16) + BitsFrom(src, 5))))
  {
    TwoBytesAre(src, 1, n);
    TwoBytesAre(src, 3, k);
    ByteBits(src[0]);
    Assoc(head, Lsb(src[0] / 8, 5), BitsFrom(src, 1));
  }

  lemma StoredPrefix(pad: bits, a: bits, b: bits, w: bits, more: bits)
    ensures [1, 0, 0] + (pad + (a + (b + w))) <= [1, 0, 0] + (pad + (a + (b + (w + more))))
  {
    PairParts(pad, a, b, w, more);
    Assoc([1, 0, 0], pad + (a + (b + w)), more);
  }

  lemma StoredStream(src: seq<byte>, data: seq<byte>) returns (bs: seq<Block>)
    requires |data| < 0x1_0000 && |src| >= 5 + |data|
    requires src[0] % 8 == 1 && Sixteen(src[1], src[2]) == |data| && src[5..5 + |data|] == data
    requires src[3] == 0xFF - src[1] && src[4] == 0xFF - src[2]
    ensures StreamOut(bs, 0, []) == Some(data) && Accepted(bs) && StreamBits(bs) <= BitsFrom(src, 0)
  {
    var pad, n, k := Lsb(src[0] / 8, 5), |data|, 0xFFFF - |data|;
    bs := [Block(true, Stored(pad, data))];
    StoredHead(src, [1, 0, 0], n, k);
    BytesBitsFrom(data, src, 5, 5 + n);
    StoredBlockIs(true, pad, data, n, k);
    StoredPrefix(pad, Lsb(n, 16), Lsb(k, 16), BytesBits(data), BitsFrom(src, 5 + n));
    assert [] + data == data;
    OneBlock(bs[0], src, BlockBits(bs[0]), data);
  }

  /** A stored block, byte by byte: 1 for the last block of type 00 (whatever is in the five bits up
      to the byte boundary), the length, its complement, and then the data, which come out. */
  method StoredDecodes(g: Tables, dest: array<byte>, base: nat, src: seq<byte>, ghost data: seq<byte>)
    returns (ok: bool, destLen: nat)
    requires g.Ready() && |data| < 0x1_0000 && base + |data| <= dest.Length && |src| >= 5 + |data|
    requires src[0] % 8 == 1 && Sixteen(src[1], src[2]) == |data| && src[5..5 + |data|] == data
    requires src[3] == 0xFF - src[1] && src[4] == 0xFF - src[2]
    modifies dest
    ensures ok && base + destLen <= dest.Length && dest[base..base + destLen] == data
    ensures dest[..base] == old(dest[..])[..base] && dest[base + destLen..] == old(dest[..])[base + destLen..]
  {
    ghost var bs := StoredStream(src, data);
    ok, destLen := Uncompress(g, dest, base, src, bs);
  }

  lemma TypeThree(h: byte)
    requires h % 8 >= 6
    ensures h / 2 % 2 == 1 && h / 4 % 2 == 1
  {
  }

  lemma HeadOfByte(h: byte, head: bits)
    requires h % 8 >= 6 && head == [Bit(h % 2 == 1), 1, 1]
    ensures Lsb(h, 8) == head + Lsb(h / 8, 5)
  {
    ByteBits(h);
    TypeThree(h);
  }

  lemma FirstOfThree(a: bits, b: bits, c: bits)
    ensures a <= (a + b) + c
  {
  }

  lemma ReservedBits(src: seq<byte>, b: Block)
    requires |src| >= 5 && src[0] % 8 >= 6 && b == Block(src[0] % 2 == 1, Reserved)
    ensures BlockBits(b) <= BitsFrom(src, 0)
  {
    var h := src[0];
    ReservedBlockIs(b.final);
    HeadOfByte(h, BlockBits(b));
    FirstOfThree(BlockBits(b), Lsb(h / 8, 5), BitsFrom(src, 1));
    assert BitsFrom(src, 0) == Lsb(h, 8) + BitsFrom(src, 1);
  }

  lemma ReservedStream(src: seq<byte>) returns (bs: seq<Block>)
    requires |src| >= 5 && src[0] % 8 >= 6
    ensures StreamOut(bs, 0, []) == Some([]) && !Accepted(bs) && StreamBits(bs) <= BitsFrom(src, 0)
  {
    var b := Block(src[0] % 2 == 1, Reserved);
    bs := [b];
    ReservedBits(src, b);
    OneBlock(b, src, BlockBits(b), []);
  }

  lemma BadPrefix(h: bits, pad: bits, a: bits, b: bits, more: bits)
    ensures h + (pad + (a + (b + []))) <= h + (pad + (a + (b + more)))
  {
    assert b + [] == b;
    Assoc(a, b, more);
    Assoc(pad, a + b, more);
    Assoc(h, pad + (a + b), more);
  }

  lemma BadStoredStream(src: seq<byte>) returns (bs: seq<Block>)
    requires |src| >= 5 && src[0] % 8 < 2 && (src[3] != 0xFF - src[1] || src[4] != 0xFF - src[2])
    ensures StreamOut(bs, 0, []) == Some([]) && !Accepted(bs) && StreamBits(bs) <= BitsFrom(src, 0)
  {
    var f := src[0] % 2 == 1;
    var pad, n, k := Lsb(src[0] / 8, 5), Sixteen(src[1], src[2]), Sixteen(src[3], src[4]);
    bs := [Block(f, BadStored(pad, n, k))];
    StoredHead(src, [Bit(f), 0, 0], n, k);
    BadPrefix([Bit(f), 0, 0], pad, Lsb(n, 16), Lsb(k, 16), BitsFrom(src, 5));
    TypeBits();
    BlockIs(f, BadStored(pad, n, k), 0, 0);
    OneBlock(bs[0], src, BlockBits(bs[0]), []);
  }

  lemma BadStream(src: seq<byte>) returns (bs: seq<Block>)
    requires |src| >= 5
    requires src[0] % 8 == 6 || src[0] % 8 == 7 ||
      (src[0] % 8 < 2 && (src[3] != 0xFF - src[1] || src[4] != 0xFF - src[2]))
    ensures StreamOut(bs, 0, []) == Some([]) && !Accepted(bs) && StreamBits(bs) <= BitsFrom(src, 0)
  {
    if src[0] % 8 >= 6 {
      bs := ReservedStream(src);
    } else {
      bs := BadStoredStream(src);
    }
  }

  /** What has to be rejected: the reserved type, and a stored block whose second length is not the
      complement of the first. Nothing is written. */
  method Rejects(g: Tables, dest: array<byte>, base: nat, src: seq<byte>) returns (ok: bool, destLen: nat)
    requires g.Ready() && base <= dest.Length && |src| >= 5
    requires src[0] % 8 == 6 || src[0] % 8 == 7 ||
      (src[0] % 8 < 2 && (src[3] != 0xFF - src[1] || src[4] != 0xFF - src[2]))
    modifies dest
    ensures !ok && destLen == 0 && dest[..] == old(dest[..])
  {
    ghost var bs := BadStream(src);
    ghost var d0 := dest[..];
    ok, destLen := Uncompress(g, dest, base, src, bs);
    assert |dest[base..base + destLen]| == 0;
    assert dest[..] == dest[..base] + dest[base..] && d0 == d0[..base] + d0[base..];
  }

  /** The code of a literal byte as section 3.2.6 prints it. */
  ghost function LiteralCode(b: byte): bits {
    if b < 144 then Msb(0x30 + b, 8) else Msb(0x190 + (b - 144), 9)
  }

  ghost function LiteralCodes(data: seq<byte>): bits {
    if |data| == 0 then [] else LiteralCode(data[0]) + LiteralCodes(data[1..])
  }

  ghost function Literals(data: seq<byte>): (xs: seq<Item>)
    ensures |xs| == |data|
  {
    if |data| == 0 then [] else [Lit(data[0])] + Literals(data[1..])
  }

  lemma {:induction false} LiteralsOut(data: seq<byte>, out: seq<byte>)
    ensures ItemsOut(Literals(data), FixedLit(), FixedDist(), out) == Some(out + data)
    decreases |data|
  {
    if |data| == 0 {
      assert out + data == out;
    } else {
      var xs, rest := Literals(data), data[1..];
      assert xs[0] == Lit(data[0]) && xs[1..] == Literals(rest);
      FixedLitCode(data[0]);
      LiteralsOut(rest, out + [data[0]]);
      assert out + data == (out + [data[0]]) + rest;
    }
  }

  lemma {:induction false} LiteralsBits(data: seq<byte>)
    ensures ItemsBits(Literals(data), FixedLit(), FixedDist()) == LiteralCodes(data) + Msb(0, 7)
    decreases |data|
  {
    if |data| == 0 {
      FixedCodesArePrinted(256);
    } else {
      var xs, rest := Literals(data), data[1..];
      assert xs[0] == Lit(data[0]) && xs[1..] == Literals(rest);
      FixedCodesArePrinted(data[0]);
      LiteralsBits(rest);
      Assoc(LiteralCode(data[0]), LiteralCodes(rest), Msb(0, 7));
    }
  }

  lemma SevenZeros()
    ensures Msb(0, 7) == [0, 0, 0, 0, 0, 0, 0]
  {
  }

  lemma LiteralBlock(data: seq<byte>, b: Block)
    requires b == Block(true, Fixed(Literals(data)))
    ensures BlockBits(b) == [1, 1, 0] + (LiteralCodes(data) + [0, 0, 0, 0, 0, 0, 0])
  {
    LiteralsBits(data);
    SevenZeros();
    FixedBlockIs(true, Literals(data));
  }

  lemma LiteralStream(src: seq<byte>, data: seq<byte>) returns (bs: seq<Block>)
    requires [1, 1, 0] + (LiteralCodes(data) + [0, 0, 0, 0, 0, 0, 0]) <= BitsFrom(src, 0)
    ensures StreamOut(bs, 0, []) == Some(data) && Accepted(bs) && StreamBits(bs) <= BitsFrom(src, 0)
  {
    var b := Block(true, Fixed(Literals(data)));
    bs := [b];
    LiteralsOut(data, []);
    LiteralBlock(data, b);
    assert [] + data == data;
    OneBlock(b, src, BlockBits(b), data);
  }

  /** A last block of type 01 made of literals: their printed codes, seven zeros at the end. */
  method LiteralsDecode(g: Tables, dest: array<byte>, base: nat, src: seq<byte>, ghost data: seq<byte>)
    returns (ok: bool, destLen: nat)
    requires g.Ready() && base + |data| <= dest.Length
    requires [1, 1, 0] + (LiteralCodes(data) + [0, 0, 0, 0, 0, 0, 0]) <= BitsFrom(src, 0)
    modifies dest
    ensures ok && base + destLen <= dest.Length && dest[base..base + destLen] == data
    ensures dest[..base] == old(dest[..])[..base] && dest[base + destLen..] == old(dest[..])[base + destLen..]
  {
    ghost var bs := LiteralStream(src, data);
    ok, destLen := Uncompress(g, dest, base, src, bs);
  }
}
