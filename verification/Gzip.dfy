/** The gzip reader (standalone/tinfgzip.c): header, size query, inflation, and the checks of
    length and CRC (RFC 1952). */
module Gzip {
  import opened Words
  import opened Bits
  import opened Memory
  import opened DeflateFormat
  import opened TinfTables
  import Tinflate
  import Crc32

  const FHCRC := 2
  const FEXTRA := 4
  const FNAME := 8
  const FCOMMENT := 16

  predicate Has(flg: byte, flag: nat)
    requires flag > 0
  {
    flg / flag % 2 == 1
  }

  /** A member header: flags, the six bytes that follow them, and the optional fields. */
  datatype Header = Header(flg: byte, fixed: seq<byte>, extra: seq<byte>, name: seq<byte>, comment: seq<byte>, hcrc: nat)

  ghost predicate HeaderOk(h: Header) {
    h.flg < 0x20 && |h.fixed| == 6 && |h.extra| < 0x1_0000 && h.hcrc < 0x1_0000 &&
    (forall i :: 0 <= i < |h.name| ==> h.name[i] != 0) && forall i :: 0 <= i < |h.comment| ==> h.comment[i] != 0
  }

  function HalfBytes(x: nat): (w: seq<byte>)
    requires x < 0x1_0000
    ensures |w| == 2
  {
    [x % 0x100, x / 0x100]
  }

  ghost function ExtraField(h: Header): seq<byte>
    requires HeaderOk(h)
  {
    if Has(h.flg, FEXTRA) then HalfBytes(|h.extra|) + h.extra else []
  }

  ghost function NameField(h: Header): seq<byte> {
    if Has(h.flg, FNAME) then h.name + [0] else []
  }

  ghost function CommentField(h: Header): seq<byte> {
    if Has(h.flg, FCOMMENT) then h.comment + [0] else []
  }

  ghost function HcrcField(h: Header): seq<byte>
    requires HeaderOk(h)
  {
    if Has(h.flg, FHCRC) then HalfBytes(h.hcrc) else []
  }

  /** The header up to its own CRC. */
  ghost function HeaderStart(h: Header): seq<byte>
    requires HeaderOk(h)
  {
    ([0x1F, 0x8B, 8, h.flg] + h.fixed) + (ExtraField(h) + (NameField(h) + CommentField(h)))
  }

  /** The CRC in the header, if there is one, is that of the bytes before it. */
  ghost predicate HeaderIntact(h: Header)
    requires HeaderOk(h)
  {
    Has(h.flg, FHCRC) ==> h.hcrc == Crc32.Crc(HeaderStart(h)) % 0x1_0000
  }

  /** The source does not begin like a gzip member: identification, method or reserved flags. */
  predicate BadStart(src: seq<byte>)
    requires |src| >= 4
  {
    src[0] != 0x1F || src[1] != 0x8B || src[2] != 8 || src[3] >= 0x20
  }

  /** The length and the CRC in the last eight of `len` bytes. */
  function StoredLength(src: seq<byte>, len: nat): u32
    requires 4 <= len <= |src|
  {
    Word(src, len - 4)
  }

  function StoredCrc(src: seq<byte>, len: nat): u32
    requires 8 <= len <= |src|
  {
    Word(src, len - 8)
  }

  // ---------- skipping the header ----------

  lemma HalfAt(m: seq<byte>, a: nat, x: nat)
    requires x < 0x1_0000 && At(m, a, HalfBytes(x))
    ensures Half(m, a) == x
  {
    assert m[a] == HalfBytes(x)[0] && m[a + 1] == HalfBytes(x)[1];
  }

  /** `if (flg & FEXTRA)`. */
  method SkipExtra(src: seq<byte>, start: nat, ghost h: Header) returns (next: nat)
    requires HeaderOk(h) && |src| >= 4 && src[3] == h.flg && At(src, start, ExtraField(h))
    ensures next == start + |ExtraField(h)|
  {
    next := start;
    if Has(src[3], FEXTRA) {
      AtSplit(src, start, HalfBytes(|h.extra|), start + 2, h.extra);
      HalfAt(src, start, |h.extra|);
      var low: int, high: int := src[start], src[start + 1];
      next := start + (256 * high + low + 2);
    }
  }

  /** `while (*start) ++start; ++start`. */
  method SkipString(src: seq<byte>, start: nat, ghost w: seq<byte>) returns (next: nat)
    requires At(src, start, w + [0]) && forall i :: 0 <= i < |w| ==> w[i] != 0
    ensures next == start + |w| + 1
  {
    AtSplit(src, start, w, start + |w|, [0]);
    assert src[start + |w|] == [0][0];
    assert forall k :: start <= k < start + |w| ==> src[k] != 0;
    next := start;
    while src[next] != 0
      invariant start <= next <= start + |w|
      decreases start + |w| - next
    {
      next := next + 1;
    }
    next := next + 1;
  }

  /** `if (flg & ...) { while ... }`. */
  method SkipOptional(src: seq<byte>, start: nat, present: bool, ghost w: seq<byte>) returns (next: nat)
    requires At(src, start, if present then w + [0] else []) && forall i :: 0 <= i < |w| ==> w[i] != 0
    ensures next == start + if present then |w| + 1 else 0
  {
    next := start;
    if present {
      next := SkipString(src, start, w);
    }
  }

  /** The optional fields before the header CRC. */
  method SkipFields(src: seq<byte>, ghost h: Header) returns (start: nat)
    requires HeaderOk(h) && At(src, 0, HeaderStart(h)) && |src| >= 4 && src[3] == h.flg
    ensures start == |HeaderStart(h)|
  {
    ghost var fixed, tail := [0x1F, 0x8B, 8, h.flg] + h.fixed, NameField(h) + CommentField(h);
    AtSplit(src, 0, fixed, 10, ExtraField(h) + tail);
    AtSplit(src, 10, ExtraField(h), 10 + |ExtraField(h)|, tail);
    start := SkipExtra(src, 10, h);
    AtSplit(src, start, NameField(h), start + |NameField(h)|, CommentField(h));
    start := SkipOptional(src, start, Has(src[3], FNAME), h.name);
    start := SkipOptional(src, start, Has(src[3], FCOMMENT), h.comment);
  }

  /** Everything before the compressed data; None is a header CRC that does not match. */
  method SkipHeader(src: seq<byte>, ghost h: Header) returns (r: Option<nat>)
    requires HeaderOk(h) && At(src, 0, HeaderStart(h) + HcrcField(h)) && |src| >= 4 && src[3] == h.flg
    ensures r.Some? <==> HeaderIntact(h)
    ensures r.Some? ==> r.value == |HeaderStart(h)| + |HcrcField(h)|
  {
    AtSplit(src, 0, HeaderStart(h), |HeaderStart(h)|, HcrcField(h));
    var start := SkipFields(src, h);
    if Has(src[3], FHCRC) {
      HalfAt(src, start, h.hcrc);
      var low: int, high: int := src[start], src[start + 1];
      var hcrc := 256 * high + low;
      assert src[..start] == HeaderStart(h);
      var crc := Crc32.Crc32(src[..start]);
      if hcrc != crc % 0x1_0000 {
        return None;
      }
      start := start + 2;
    }
    return Some(start);
  }

  // ---------- the reader ----------

  ghost function HeaderLength(h: Header): nat
    requires HeaderOk(h)
  {
    |HeaderStart(h)| + |HcrcField(h)|
  }

  /** A header stands at the front of memory `src`, and the `len` bytes of the source have room
      for the stored length. */
  ghost predicate Headed(src: seq<byte>, len: nat, h: Header) {
    HeaderOk(h) && At(src, 0, HeaderStart(h) + HcrcField(h)) && 4 <= len <= |src|
  }

  /** The source is a gzip member: a header, compressed data for the blocks `bs`, and at least
      the eight bytes at the end. */
  ghost predicate Member(src: seq<byte>, len: nat, h: Header, bs: seq<Block>) {
    Headed(src, len, h) && HeaderLength(h) + 8 <= len && StreamOut(bs, 0, []).Some? &&
    StreamBits(bs) <= BitsFrom(src[HeaderLength(h)..len], 0)
  }

  lemma FlagsStand(src: seq<byte>, h: Header)
    requires HeaderOk(h) && At(src, 0, HeaderStart(h) + HcrcField(h))
    ensures |src| >= 4 && src[3] == h.flg
  {
    AtSplit(src, 0, HeaderStart(h), |HeaderStart(h)|, HcrcField(h));
    AtSplit(src, 0, [0x1F, 0x8B, 8, h.flg] + h.fixed, 10, ExtraField(h) + (NameField(h) + CommentField(h)));
    AtSplit(src, 0, [0x1F, 0x8B, 8, h.flg], 4, h.fixed);
    assert src[3] == [0x1F, 0x8B, 8, h.flg][3];
  }

  lemma SameSlice(src: seq<byte>, src': seq<byte>, a: nat, len: nat)
    requires a <= len <= |src| && len <= |src'| && forall k :: 0 <= k < len ==> src[k] == src'[k]
    ensures src[a..len] == src'[a..len]
  {
  }

  lemma SameFront(src: seq<byte>, src': seq<byte>, len: nat, w: seq<byte>)
    requires At(src, 0, w) && |w| <= len <= |src| && len <= |src'| && forall k :: 0 <= k < len ==> src[k] == src'[k]
    ensures At(src', 0, w)
  {
  }

  lemma SameMember(src: seq<byte>, src': seq<byte>, len: nat, h: Header, bs: seq<Block>)
    requires Member(src, len, h, bs) && len <= |src'| && forall k :: 0 <= k < len ==> src[k] == src'[k]
    ensures Member(src', len, h, bs) <==> Member(src, len, h, bs)
  {
    SameFront(src, src', len, HeaderStart(h) + HcrcField(h));
    SameSlice(src, src', HeaderLength(h), len);
  }

  lemma SameWord(src: seq<byte>, src': seq<byte>, len: nat, a: nat)
    requires a + 4 <= len <= |src| && len <= |src'| && forall k :: 0 <= k < len ==> src[k] == src'[k]
    ensures Word(src, a) == Word(src', a)
  {
  }

  /** Only the `len` bytes of a member matter. */
  lemma SameSource(src: seq<byte>, src': seq<byte>, len: nat, h: Header, bs: seq<Block>)
    requires Member(src, len, h, bs) && len <= |src'| && forall k :: 0 <= k < len ==> src[k] == src'[k]
    ensures (Member(src', len, h, bs) <==> Member(src, len, h, bs)) && (BadStart(src) <==> BadStart(src'))
    ensures StoredLength(src, len) == StoredLength(src', len) && StoredCrc(src, len) == StoredCrc(src', len)
  {
    SameMember(src, src', len, h, bs);
    SameWord(src, src', len, len - 4);
    SameWord(src, src', len, len - 8);
  }

  /** The size query: tinf_gzip_uncompress without a destination, on `len` bytes at the front of
      memory `src`. */
  method Query(src: seq<byte>, len: nat, ghost h: Header) returns (length: Option<u32>)
    requires |src| >= 4 && (!BadStart(src) ==> Headed(src, len, h))
    ensures length.Some? <==> !BadStart(src) && HeaderIntact(h)
    ensures length.Some? ==> length.value == StoredLength(src, len)
  {
    if BadStart(src) {
      return None;
    }
    FlagsStand(src, h);
    var start := SkipHeader(src, h);
    if start.None? {
      return None;
    }
    return Some(StoredLength(src, len));
  }

  /** What the stream of a member expands to. */
  ghost function Expansion(bs: seq<Block>): seq<byte> {
    match StreamOut(bs, 0, [])
    case Some(out) => out
    case None => []
  }

  /** The checks after the inflation. */
  ghost predicate Sound(src: seq<byte>, len: nat, bs: seq<Block>)
    requires 8 <= len <= |src|
  {
    Accepted(bs) && |Expansion(bs)| == StoredLength(src, len) && Crc32.Crc(Expansion(bs)) == StoredCrc(src, len)
  }

  lemma SlicesWritten(m: seq<byte>, m': seq<byte>, a: nat, w: seq<byte>, end: nat)
    requires |m| == |m'| && end == a + |w| <= |m| && m'[a..end] == w
    requires m'[..a] == m[..a] && m'[end..] == m[end..]
    ensures Written(m, m', a, w)
  {
    forall k | 0 <= k < |m| && (k < a || end <= k) ensures m[k] == m'[k] {
      assert k < a ==> m'[k] == m'[..a][k] && m[k] == m[..a][k];
      assert end <= k ==> m'[k] == m'[end..][k - end] && m[k] == m[end..][k - end];
    }
    assert forall k :: a <= k < end ==> m'[k] == m'[a..end][k - a];
  }

  /** tinf_uncompress, its effect on `dest` as one write. */
  method Inflate(g: Tables, dest: array<byte>, base: nat, data: seq<byte>, ghost bs: seq<Block>)
    returns (ok: bool, destLen: nat)
    requires g.Ready() && StreamOut(bs, 0, []).Some? && StreamBits(bs) <= BitsFrom(data, 0)
    requires base + |Expansion(bs)| <= dest.Length
    modifies dest
    ensures (ok <==> Accepted(bs)) && base + destLen <= dest.Length && dest[base..base + destLen] == Expansion(bs)
    ensures Written(old(dest[..]), dest[..], base, Expansion(bs))
  {
    ghost var d0 := dest[..];
    ok, destLen := Tinflate.Uncompress(g, dest, base, data, bs);
    ghost var w := dest[base..base + destLen];
    assert w == Expansion(bs);
    SlicesWritten(d0, dest[..], base, w, base + destLen);
  }

  method CheckCrc(data: seq<byte>, crc: u32, ghost out: seq<byte>) returns (ok: bool)
    requires data == out
    ensures ok <==> Crc32.Crc(out) == crc
  {
    var sum := Crc32.Crc32(data);
    ok := crc == sum;
  }

  /** The part of tinf_gzip_uncompress after the header. */
  method InflateAndCheck(g: Tables, dest: array<byte>, base: nat, src: seq<byte>, len: nat, start: nat, ghost bs: seq<Block>)
    returns (length: Option<nat>)
    requires g.Ready() && start + 8 <= len <= |src| && base + |Expansion(bs)| <= dest.Length
    requires StreamOut(bs, 0, []).Some? && StreamBits(bs) <= BitsFrom(src[start..len], 0)
    modifies dest
    ensures length.Some? <==> Sound(src, len, bs)
    ensures length.Some? ==> length.value == StoredLength(src, len) == |Expansion(bs)|
    ensures Written(old(dest[..]), dest[..], base, Expansion(bs))
  {
    var dlen, crc := StoredLength(src, len), StoredCrc(src, len);
    var ok, destLen := Inflate(g, dest, base, src[start..len], bs);
    ghost var out := Expansion(bs);
    assert |out| == destLen;
    if !ok || destLen != dlen {
      return None;
    }
    var intact := CheckCrc(dest[base..base + destLen], crc, out);
    return if intact then Some(destLen) else None;
  }

  /** tinf_gzip_uncompress with a destination, the array `dest` from index `base` on. Once the
      header has been accepted the whole expansion is written, whether the checks that follow
      succeed or not. */
  method Uncompress(g: Tables, dest: array<byte>, base: nat, src: seq<byte>, len: nat, ghost h: Header, ghost bs: seq<Block>)
    returns (length: Option<nat>)
    requires g.Ready() && |src| >= 4 && (!BadStart(src) ==> Headed(src, len, h))
    requires !BadStart(src) && HeaderIntact(h) ==> Member(src, len, h, bs) && base + |Expansion(bs)| <= dest.Length
    modifies dest
    ensures length.Some? <==> !BadStart(src) && HeaderIntact(h) && Sound(src, len, bs)
    ensures length.Some? ==> length.value == StoredLength(src, len) == |Expansion(bs)|
    ensures !BadStart(src) && HeaderIntact(h) ==> Written(old(dest[..]), dest[..], base, Expansion(bs))
    ensures BadStart(src) || !HeaderIntact(h) ==> dest[..] == old(dest[..])
  {
    if BadStart(src) {
      return None;
    }
    FlagsStand(src, h);
    var start := SkipHeader(src, h);
    if start.None? {
      return None;
    }
    length := InflateAndCheck(g, dest, base, src, len, start.value, bs);
  }
}
