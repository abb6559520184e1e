/** The gzip reader on members written out byte by byte, as RFC 1952 lays them out. */
module GzipLaws {
  import opened Words
  import opened Bits
  import opened Memory
  import opened DeflateFormat
  import TinfTables
  import Crc32
  import Gzip

  /** A member header (section 2.3 of RFC 1952): which optional parts there are, the six bytes for
      time, extra flags and system, the optional fields and the header CRC. */
  datatype Parts = Parts(text: bool, hcrc: bool, extra: bool, name: bool, comment: bool,
                         fixed: seq<byte>, x: seq<byte>, w: seq<byte>, c: seq<byte>, low: byte, high: byte)

  predicate PartsOk(p: Parts) {
    |p.fixed| == 6 && |p.x| < 0x1_0000 &&
    (forall i :: 0 <= i < |p.w| ==> p.w[i] != 0) && forall i :: 0 <= i < |p.c| ==> p.c[i] != 0
  }

  /** FLG: bit 0 for text, 1 for the header CRC, 2 for the extra field, 3 for the name, 4 for the
      comment. */
  function Flags(p: Parts): byte {
    (if p.text then 1 else 0) + (if p.hcrc then 2 else 0) + (if p.extra then 4 else 0) +
    (if p.name then 8 else 0) + (if p.comment then 16 else 0)
  }

  /** Everything before the header CRC. */
  function FrontBytes(p: Parts): (w: seq<byte>)
    requires PartsOk(p)
    ensures |w| == 10 + (if p.extra then 2 + |p.x| else 0) + (if p.name then |p.w| + 1 else 0) +
      (if p.comment then |p.c| + 1 else 0)
  {
    ([0x1F, 0x8B, 8, Flags(p)] + p.fixed) +
    ((if p.extra then [|p.x| % 0x100, |p.x| / 0x100] + p.x else []) +
    ((if p.name then p.w + [0] else []) + (if p.comment then p.c + [0] else [])))
  }

  function CrcBytes(p: Parts): (w: seq<byte>)
    ensures |w| == if p.hcrc then 2 else 0
  {
    if p.hcrc then [p.low, p.high] else []
  }

  /** The header CRC, if there is one, is that of all bytes before it. */
  ghost predicate CrcOk(p: Parts)
    requires PartsOk(p)
  {
    var low: int, high: int := p.low, p.high;
    p.hcrc ==> low + 0x100 * high == Crc32.Crc(FrontBytes(p)) % 0x1_0000
  }

  ghost function HeaderOf(p: Parts): Gzip.Header {
    var low: int, high: int := p.low, p.high;
    Gzip.Header(Flags(p), p.fixed, p.x, p.w, p.c, low + 0x100 * high)
  }

  lemma FlagBits(p: Parts)
    ensures Flags(p) < 0x20
    ensures Gzip.Has(Flags(p), Gzip.FHCRC) == p.hcrc && Gzip.Has(Flags(p), Gzip.FEXTRA) == p.extra
    ensures Gzip.Has(Flags(p), Gzip.FNAME) == p.name && Gzip.Has(Flags(p), Gzip.FCOMMENT) == p.comment
  {
  }

  lemma HeaderIs(p: Parts)
    requires PartsOk(p)
    ensures Gzip.HeaderOk(HeaderOf(p)) && Gzip.HeaderStart(HeaderOf(p)) == FrontBytes(p)
    ensures Gzip.HcrcField(HeaderOf(p)) == CrcBytes(p) && (Gzip.HeaderIntact(HeaderOf(p)) <==> CrcOk(p))
  {
    FlagBits(p);
  }

  /** The compressed data start behind the fields that the flags announce, in the order extra field,
      name, comment, header CRC; a header CRC that does not match is refused. */
  method SkipsHeader(src: seq<byte>, ghost p: Parts) returns (start: Option<nat>)
    requires PartsOk(p) && At(src, 0, FrontBytes(p) + CrcBytes(p))
    ensures start.Some? <==> CrcOk(p)
    ensures start.Some? ==>
      start.value == 10 + (if p.extra then 2 + |p.x| else 0) + (if p.name then |p.w| + 1 else 0) +
        (if p.comment then |p.c| + 1 else 0) + (if p.hcrc then 2 else 0)
  {
    HeaderIs(p);
    Gzip.FlagsStand(src, HeaderOf(p));
    start := Gzip.SkipHeader(src, HeaderOf(p));
  }

  lemma FrontStands(src: seq<byte>, p: Parts)
    requires PartsOk(p) && At(src, 0, FrontBytes(p) + CrcBytes(p))
    ensures |src| >= 4 && !Gzip.BadStart(src)
  {
    AtSplit(src, 0, FrontBytes(p), |FrontBytes(p)|, CrcBytes(p));
    var head := [0x1F, 0x8B, 8, Flags(p)];
    assert FrontBytes(p)[..4] == head;
    assert src[0] == FrontBytes(p)[0] && src[1] == FrontBytes(p)[1] && src[2] == FrontBytes(p)[2] && src[3] == FrontBytes(p)[3];
  }

  /** The size query answers with the last four of the `len` bytes. */
  method QueryAnswers(src: seq<byte>, len: nat, ghost p: Parts, ghost isize: u32) returns (length: Option<u32>)
    requires PartsOk(p) && At(src, 0, FrontBytes(p) + CrcBytes(p)) && 4 <= len <= |src|
    requires At(src, len - 4, WordBytes(isize))
    ensures length == if CrcOk(p) then Some(isize) else None
  {
    HeaderIs(p);
    FrontStands(src, p);
    AtWord(src, len - 4, isize);
    length := Gzip.Query(src, len, HeaderOf(p));
  }

  /** A source that begins with anything else is not a member. */
  method Refuses(src: seq<byte>, len: nat) returns (length: Option<u32>)
    requires |src| >= 4 && (src[0] != 0x1F || src[1] != 0x8B || src[2] != 8 || src[3] >= 0x20)
    ensures length.None?
  {
    length := Gzip.Query(src, len, Gzip.Header(0, [], [], [], [], 0));
  }

  lemma MemberStands(src: seq<byte>, len: nat, p: Parts, h: Gzip.Header, bs: seq<Block>, n: nat)
    requires PartsOk(p) && At(src, 0, FrontBytes(p) + CrcBytes(p)) && h == HeaderOf(p)
    requires n == |FrontBytes(p)| + |CrcBytes(p)| && n + 8 <= len <= |src| && StreamBits(bs) <= BitsFrom(src[n..len], 0)
    requires StreamOut(bs, 0, []).Some?
    ensures |src| >= 4 && !Gzip.BadStart(src) && Gzip.Headed(src, len, h) && Gzip.Member(src, len, h, bs)
    ensures Gzip.HeaderIntact(h) <==> CrcOk(p)
  {
    HeaderIs(p);
    FrontStands(src, p);
    assert Gzip.HeaderLength(h) == n;
  }

  lemma TrailerMeans(src: seq<byte>, len: nat, bs: seq<Block>, out: seq<byte>, crc: u32, isize: u32)
    requires 8 <= len <= |src| && StreamOut(bs, 0, []) == Some(out)
    requires At(src, len - 8, WordBytes(crc)) && At(src, len - 4, WordBytes(isize))
    ensures Gzip.Expansion(bs) == out
    ensures Gzip.Sound(src, len, bs) <==> Accepted(bs) && Crc32.Crc(out) == crc && |out| == isize
  {
    AtWord(src, len - 8, crc);
    AtWord(src, len - 4, isize);
  }

  /** A whole member: header, compressed data, CRC and length of what they expand to. */
  method MemberDecodes(g: TinfTables.Tables, dest: array<byte>, base: nat, src: seq<byte>, len: nat, ghost p: Parts,
                       ghost bs: seq<Block>, ghost out: seq<byte>, ghost crc: u32, ghost isize: u32)
    returns (length: Option<nat>)
    requires g.Ready() && PartsOk(p) && At(src, 0, FrontBytes(p) + CrcBytes(p))
    requires var n := |FrontBytes(p)| + |CrcBytes(p)|; n + 8 <= len <= |src| && StreamBits(bs) <= BitsFrom(src[n..len], 0)
    requires StreamOut(bs, 0, []) == Some(out) && base + |out| <= dest.Length
    requires At(src, len - 8, WordBytes(crc)) && At(src, len - 4, WordBytes(isize))
    modifies dest
    ensures length.Some? <==> CrcOk(p) && Accepted(bs) && Crc32.Crc(out) == crc && |out| == isize
    ensures length.Some? ==> length.value == |out|
    ensures CrcOk(p) ==> Written(old(dest[..]), dest[..], base, out)
    ensures !CrcOk(p) ==> dest[..] == old(dest[..])
  {
    ghost var h := HeaderOf(p);
    MemberStands(src, len, p, h, bs, |FrontBytes(p)| + |CrcBytes(p)|);
    TrailerMeans(src, len, bs, out, crc, isize);
    length := Gzip.Uncompress(g, dest, base, src, len, h, bs);
  }
}
