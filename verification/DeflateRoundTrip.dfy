/** An encoder for DEFLATE, which shows that every legal token list has a stream, and that the
    decoder gives back the expansion of the tokens. */
module DeflateRoundTrip {
  import opened Words
  import opened Bits
  import opened Huffman
  import opened DeflateFormat
  import opened TinfTables
  import opened Tinflate

  /** The expansion of a token list, or None when a token reaches too far back or is out of
      range. */
  ghost function Expand(ts: seq<Token>, out: seq<byte>): Option<seq<byte>>
    decreases |ts|
  {
    if |ts| == 0 then Some(out)
    else if !TokenFits(ts[0], |out|) then None
    else Expand(ts[1..], Emit(out, ts[0]))
  }

  // ---------- symbols and extra bits ----------

  /** The last symbol from i on, below the special one, whose lengths do not start above n. */
  ghost function LengthSymbolFrom(n: nat, i: nat): (s: nat)
    requires i < 28
    ensures i <= s < 28
    decreases 28 - i
  {
    if i + 1 < 28 && LengthBase(i + 1) <= n then LengthSymbolFrom(n, i + 1) else i
  }

  lemma {:induction false} LengthSymbolFits(n: nat, i: nat)
    requires i < 28 && LengthBase(i) <= n
    ensures var s := LengthSymbolFrom(n, i); LengthBase(s) <= n && (s + 1 < 28 ==> n < LengthBase(s + 1))
    decreases 28 - i
  {
    if i + 1 < 28 && LengthBase(i + 1) <= n {
      LengthSymbolFits(n, i + 1);
    }
  }

  ghost function LengthSymbol(n: nat): (s: nat)
    ensures s < 29
  {
    if n == 258 then 28 else LengthSymbolFrom(n, 0)
  }

  ghost function DistSymbolFrom(n: nat, i: nat): (s: nat)
    requires i < 30
    ensures i <= s < 30
    decreases 30 - i
  {
    if i + 1 < 30 && DistBase(i + 1) <= n then DistSymbolFrom(n, i + 1) else i
  }

  lemma {:induction false} DistSymbolFits(n: nat, i: nat)
    requires i < 30 && DistBase(i) <= n
    ensures var s := DistSymbolFrom(n, i); DistBase(s) <= n && (s + 1 < 30 ==> n < DistBase(s + 1))
    decreases 30 - i
  {
    if i + 1 < 30 && DistBase(i + 1) <= n {
      DistSymbolFits(n, i + 1);
    }
  }

  ghost function DistSymbol(n: nat): (s: nat)
    ensures s < 30
  {
    DistSymbolFrom(n, 0)
  }

  /** Every length has a symbol and extra bits. */
  lemma LengthHasCode(n: nat)
    requires 3 <= n <= 258
    ensures LengthBase(LengthSymbol(n)) <= n < LengthBase(LengthSymbol(n)) + Pow2(LengthExtra(LengthSymbol(n)))
  {
    if n < 258 {
      LengthSymbolFits(n, 0);
      if LengthSymbol(n) == 27 {
        LengthBaseIsPrinted();
        Pow2Values();
      }
    }
  }

  lemma LastDist()
    ensures DistBase(29) + Pow2(DistExtra(29)) == 32769
  {
    LongDistBaseIsPrinted();
    Pow2Small(13);
  }

  lemma DistFits(n: nat, s: nat)
    requires s < 30 && n <= 32768 && DistBase(s) <= n && (s + 1 < 30 ==> n < DistBase(s + 1))
    ensures n < DistBase(s) + Pow2(DistExtra(s))
  {
    if s == 29 {
      LastDist();
    }
  }

  /** Every distance has a symbol and extra bits. */
  lemma DistHasCode(n: nat)
    requires 1 <= n <= 32768
    ensures DistBase(DistSymbol(n)) <= n < DistBase(DistSymbol(n)) + Pow2(DistExtra(DistSymbol(n)))
  {
    DistSymbolFits(n, 0);
    DistFits(n, DistSymbol(n));
  }

  // ---------- the encoder ----------

  ghost predicate InRange(t: Token) {
    t.Match? ==> 3 <= t.length <= 258 && 1 <= t.dist <= 32768
  }

  /** The item for a token; a token out of range has none, and gets any. */
  ghost function ItemFor(t: Token): Item {
    if !InRange(t) then Lit(0)
    else
      match t
      case Literal(b) => Lit(b)
      case Match(n, dist) =>
        LengthHasCode(n);
        DistHasCode(dist);
        Copy(LengthSymbol(n), n - LengthBase(LengthSymbol(n)), DistSymbol(dist), dist - DistBase(DistSymbol(dist)))
  }

  ghost function ItemsFor(ts: seq<Token>): (xs: seq<Item>)
    ensures |xs| == |ts|
  {
    if |ts| == 0 then [] else [ItemFor(ts[0])] + ItemsFor(ts[1..])
  }

  /** One final block with the fixed codes. */
  ghost function EncodedBlocks(ts: seq<Token>): seq<Block> {
    [Block(true, Fixed(ItemsFor(ts)))]
  }

  /** The byte with the given bits, least significant first. */
  ghost function ByteOf(w: bits): (b: byte)
    requires |w| == 8
    ensures Lsb(b, 8) == w
  {
    LsbOfNumber(w);
    assert Pow2(8) == 256;
    Number(w)
  }

  /** The bits packed into bytes, the last one filled up with zeros. */
  ghost function Packed(w: bits): seq<byte>
    decreases |w|
  {
    if |w| == 0 then []
    else if |w| < 8 then [ByteOf(w + seq(8 - |w|, i => 0))]
    else [ByteOf(w[..8])] + Packed(w[8..])
  }

  /** The encoding of a token list. */
  ghost function Encode(ts: seq<Token>): seq<byte> {
    Packed(StreamBits(EncodedBlocks(ts)))
  }

  // ---------- the encoder is right ----------

  lemma ItemForToken(t: Token, n: nat)
    requires TokenFits(t, n)
    ensures ItemOk(ItemFor(t), FixedLit(), FixedDist(), n) && TokenOf(ItemFor(t)) == t
  {
    match t
    case Literal(b) =>
      FixedLitPlace(b);
    case Match(len, dist) =>
      LengthHasCode(len);
      DistHasCode(dist);
      FixedLitPlace(257 + LengthSymbol(len));
  }

  lemma {:induction false} ItemsForTokens(ts: seq<Token>, out: seq<byte>)
    requires Expand(ts, out).Some?
    ensures ItemsOut(ItemsFor(ts), FixedLit(), FixedDist(), out) == Expand(ts, out)
    decreases |ts|
  {
    if |ts| > 0 {
      ItemForToken(ts[0], |out|);
      ItemsForTokens(ts[1..], Emit(out, ts[0]));
      assert ItemsFor(ts)[1..] == ItemsFor(ts[1..]);
    }
  }

  lemma {:induction false} BitsFromTail(b: byte, src: seq<byte>, i: nat)
    requires i <= |src|
    ensures BitsFrom([b] + src, i + 1) == BitsFrom(src, i)
    decreases |src| - i
  {
    if i < |src| {
      BitsFromTail(b, src, i + 1);
    }
  }

  lemma {:induction false} PackedHolds(w: bits)
    ensures w <= BitsFrom(Packed(w), 0)
    decreases |w|
  {
    if |w| >= 8 {
      var b, rest := ByteOf(w[..8]), Packed(w[8..]);
      PackedHolds(w[8..]);
      BitsFromTail(b, rest, 0);
      assert BitsFrom([b] + rest, 0) == w[..8] + BitsFrom(rest, 0);
      assert w == w[..8] + w[8..];
    } else if |w| > 0 {
      assert w <= w + seq(8 - |w|, i => 0) == BitsFrom(Packed(w), 0);
    }
  }

  lemma {:induction false} BitsFromPrefix(a: seq<byte>, src: seq<byte>, i: nat)
    requires a <= src && i <= |a|
    ensures BitsFrom(a, i) <= BitsFrom(src, i)
    decreases |a| - i
  {
    if i < |a| {
      BitsFromPrefix(a, src, i + 1);
    }
  }

  /** The encoding of every legal token list is a stream for the decoder, which means the
      expansion of the tokens; whatever follows it. */
  lemma EncodeIsStream(ts: seq<Token>, src: seq<byte>)
    requires Expand(ts, []).Some? && Encode(ts) <= src
    ensures StreamOut(EncodedBlocks(ts), 0, []) == Expand(ts, []) && Accepted(EncodedBlocks(ts))
    ensures StreamBits(EncodedBlocks(ts)) <= BitsFrom(src, 0)
  {
    ItemsForTokens(ts, []);
    PackedHolds(StreamBits(EncodedBlocks(ts)));
    BitsFromPrefix(Encode(ts), src, 0);
  }

  /** decode(encode(tokens)) = expand(tokens), with the decoder itself. */
  method RoundTrip(g: Tables, dest: array<byte>, src: seq<byte>, ghost ts: seq<Token>)
    returns (ok: bool, destLen: nat)
    requires g.Ready() && Expand(ts, []).Some? && |Expand(ts, []).value| <= dest.Length
    requires Encode(ts) <= src
    modifies dest
    ensures ok && destLen <= dest.Length && dest[..destLen] == Expand(ts, []).value
    ensures dest[destLen..] == old(dest[..])[destLen..]
  {
    EncodeIsStream(ts, src);
    ok, destLen := Uncompress(g, dest, 0, src, EncodedBlocks(ts));
    assert dest[0..0 + destLen] == dest[..destLen];
  }
}
