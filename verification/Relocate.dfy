/** The module relocator (standalone/mbi.c): all modules are pushed to the highest free block, each
    followed by its command line. */
module Relocate {
  import opened Words
  import opened Memory
  import opened MemoryMap
  import DeflateFormat
  import TinfTables
  import Gzip

  /** A module descriptor. */
  datatype Module = Module(start: u32, end: u32, str: u32)

  function ModuleAt(m: seq<byte>, tab: nat, i: nat): Module
    requires tab + 16 * i + 16 <= |m|
  {
    Module(Word(m, tab + 16 * i), Word(m, tab + 16 * i + 4), Word(m, tab + 16 * i + 8))
  }

  function Length(d: Module): nat
    requires d.start <= d.end
  {
    d.end - d.start
  }

  /** The number of bytes from a on before the next zero. */
  ghost function StringLength(m: seq<byte>, a: nat): (n: nat)
    requires a <= |m|
    ensures a + n <= |m| && (a + n < |m| ==> m[a + n] == 0)
    decreases |m| - a
  {
    if a == |m| || m[a] == 0 then 0 else 1 + StringLength(m, a + 1)
  }

  /** What the first pass notes about a module; `inflated` is the promised size of a compressed
      one that is to be inflated. */
  datatype Info = Info(modlen: u32, slen: u32, inflated: Option<u32>)

  function Payload(x: Info): u32 {
    if x.inflated.Some? then x.inflated.value else x.modlen
  }

  /** The number of pages for a module and its command line. */
  function Slot(x: Info): (k: nat)
    ensures Payload(x) + x.slen <= PAGE * k < Payload(x) + x.slen + PAGE
  {
    var size: int := Payload(x) + x.slen;
    (size + 0xFFF) / PAGE
  }

  /** The number of pages for the first i modules. */
  function PagesBefore(infos: seq<Info>, i: nat): nat
    requires i <= |infos|
  {
    if i == 0 then 0 else PagesBefore(infos, i - 1) + Slot(infos[i - 1])
  }

  /** Their size in bytes. */
  function Offset(infos: seq<Info>, i: nat): (s: nat)
    requires i <= |infos|
  {
    PAGE * PagesBefore(infos, i)
  }

  lemma {:induction false} OffsetMonotone(infos: seq<Info>, i: nat, j: nat)
    requires i <= j <= |infos|
    ensures Offset(infos, i) <= Offset(infos, j)
    ensures i < j ==> Offset(infos, i) + Payload(infos[i]) + infos[i].slen <= Offset(infos, j)
    decreases j
  {
    if i < j {
      OffsetMonotone(infos, i, j - 1);
    }
  }

  lemma OffsetNext(infos: seq<Info>, i: nat)
    requires i < |infos|
    ensures Offset(infos, i + 1) == Offset(infos, i) + PAGE * Slot(infos[i])
  {
  }

  // ---------- the first pass ----------

  /** A descriptor whose module and command line lie in memory. */
  ghost predicate ModuleOk(m: seq<byte>, d: Module) {
    |m| == SIZE && d.start <= d.end && d.str + StringLength(m, d.str) < SIZE && StringLength(m, d.str) + 1 < SIZE
  }

  ghost predicate TableOk(m: seq<byte>, tab: nat, n: nat) {
    |m| == SIZE && tab + 16 * n <= SIZE && forall i :: 0 <= i < n ==> ModuleOk(m, ModuleAt(m, tab, i))
  }

  /** What a module is to the gzip reader: the header it begins with and the blocks of its data;
      whether the size query succeeds, and the size it gives; what the blocks expand to, and
      whether the checks after that succeed. */
  datatype Zip = Zip(h: Gzip.Header, bs: seq<DeflateFormat.Block>, queried: bool, size: u32, out: seq<byte>, sound: bool)

  /** It begins like a gzip member, and the header is intact. */
  ghost predicate IsMember(src: seq<byte>, z: Zip)
    requires |src| >= 4
  {
    !Gzip.BadStart(src) && Gzip.HeaderOk(z.h) && Gzip.HeaderIntact(z.h)
  }

  ghost predicate QueryIs(src: seq<byte>, len: nat, z: Zip)
    requires |src| >= 4
  {
    (!Gzip.BadStart(src) ==> Gzip.Headed(src, len, z.h)) &&
    (z.queried <==> IsMember(src, z)) &&
    (z.queried ==> z.size == Gzip.StoredLength(src, len))
  }

  /** A module that begins like a gzip member has the header, and the query gives the size. */
  ghost predicate Zippable(m: seq<byte>, d: Module, z: Zip) {
    d.start <= d.end && d.start + 4 <= |m| && QueryIs(m[d.start..], Length(d), z)
  }

  /** A gzip member that cannot be delivered: the modules do not move, or it is not sound. */
  ghost predicate Fatal(src: seq<byte>, len: nat, z: Zip, movable: bool)
    requires 4 <= |src| && len <= |src|
  {
    IsMember(src, z) && !(movable && 8 <= len && Gzip.Sound(src, len, z.bs))
  }

  ghost predicate ZipsOk(m: seq<byte>, tab: nat, n: nat, uncompress: bool, zs: seq<Zip>) {
    tab + 16 * n <= |m| && |zs| == n && (uncompress ==> forall i :: 0 <= i < n ==> Zippable(m, ModuleAt(m, tab, i), zs[i]))
  }

  /** The notes about a module; to be inflated are those whose size query succeeds. */
  ghost function InfoOf(m: seq<byte>, d: Module, uncompress: bool, z: Zip): Info
    requires ModuleOk(m, d) && (uncompress ==> Zippable(m, d, z))
  {
    var len := d.end - d.start;
    Info(len, StringLength(m, d.str) + 1,
         if uncompress && z.queried then Some(z.size) else None)
  }

  ghost function Infos(m: seq<byte>, tab: nat, n: nat, uncompress: bool, zs: seq<Zip>): (infos: seq<Info>)
    requires TableOk(m, tab, n) && ZipsOk(m, tab, n, uncompress, zs)
    ensures |infos| == n
  {
    seq(n, i requires 0 <= i < n => InfoOf(m, ModuleAt(m, tab, i), uncompress, zs[i]))
  }

  lemma InfosAt(m: seq<byte>, tab: nat, n: nat, uncompress: bool, zs: seq<Zip>, i: nat)
    requires TableOk(m, tab, n) && ZipsOk(m, tab, n, uncompress, zs) && i < n
    ensures ModuleOk(m, ModuleAt(m, tab, i)) && (uncompress ==> Zippable(m, ModuleAt(m, tab, i), zs[i]))
    ensures Infos(m, tab, n, uncompress, zs)[i] == InfoOf(m, ModuleAt(m, tab, i), uncompress, zs[i])
  {
  }

  /** One of the first i modules is to be inflated. */
  ghost predicate AnyInflated(infos: seq<Info>, i: nat)
    requires i <= |infos|
  {
    i > 0 && (AnyInflated(infos, i - 1) || infos[i - 1].inflated.Some?)
  }

  /** strlen. */
  method StrLen(mem: array<byte>, a: nat) returns (n: nat)
    requires mem.Length == SIZE && a <= SIZE && a + StringLength(mem[..], a) < SIZE
    ensures n == StringLength(mem[..], a)
  {
    n := 0;
    while mem[a + n] != 0
      invariant a + n < SIZE && StringLength(mem[..], a) == n + StringLength(mem[..], a + n)
      decreases SIZE - (a + n)
    {
      n := n + 1;
    }
  }

  /** Rounding the running size rounds what was added last. */
  lemma RoundSize(k: nat, t: nat, n: nat)
    requires n == (t + 0xFFF) / PAGE && PAGE * (k + n) < WORD32
    ensures PAGE * k + t + 0xFFF < WORD32 && (PAGE * k + t + 0xFFF) / PAGE == k + n
  {
    DivModUnique(PAGE * k + t + 0xFFF, PAGE, k + n, (t + 0xFFF) % PAGE);
  }

  /** `size += ...` and the rounding, in 32 bits. */
  method AddSize(size: u32, x: Info, ghost k: nat) returns (size': u32)
    requires size == PAGE * k && size + PAGE * Slot(x) < WORD32
    ensures size' == size + PAGE * Slot(x)
  {
    RoundSize(k, Payload(x) + x.slen, Slot(x));
    var s: int := Wrap32(size + Payload(x));
    s := Wrap32(s + x.slen);
    assert s == size + Payload(x) + x.slen;
    size' := Wrap32(s + 0xFFF) / PAGE * PAGE;
  }

  /** The first i notes have been made. */
  ghost predicate Begins(infos: seq<Info>, all: seq<Info>, i: nat) {
    |infos| == i <= |all| && forall k :: 0 <= k < i ==> infos[k] == all[k]
  }

  lemma BeginsNext(infos: seq<Info>, all: seq<Info>, i: nat)
    requires Begins(infos, all, i) && i < |all|
    ensures Begins(infos + [all[i]], all, i + 1)
  {
  }

  method AddNext(size: u32, ghost all: seq<Info>, ghost i: nat, x: Info) returns (size': u32)
    requires i < |all| && x == all[i] && size == Offset(all, i) && Offset(all, i + 1) < WORD32
    ensures size' == Offset(all, i + 1)
  {
    OffsetNext(all, i);
    size' := AddSize(size, x, PagesBefore(all, i));
  }

  method QuerySource(src: seq<byte>, len: nat, ghost z: Zip) returns (uncompressed: Option<u32>)
    requires |src| >= 4 && QueryIs(src, len, z)
    ensures uncompressed == if z.queried then Some(z.size) else None
  {
    uncompressed := Gzip.Query(src, len, z.h);
  }

  /** gzip_info. */
  method GzipInfo(mem: array<byte>, d: Module, ghost z: Zip) returns (uncompressed: Option<u32>)
    requires mem.Length == SIZE && Zippable(mem[..], d, z)
    ensures uncompressed == if z.queried then Some(z.size) else None
  {
    uncompressed := QuerySource(mem[d.start..], Length(d), z);
  }

  method Measure(mem: array<byte>, d: Module, uncompress: bool, ghost z: Zip) returns (x: Info)
    requires mem.Length == SIZE && ModuleOk(mem[..], d) && (uncompress ==> Zippable(mem[..], d, z))
    ensures x == InfoOf(mem[..], d, uncompress, z)
  {
    var slen := StrLen(mem, d.str);
    var inflated: Option<u32> := None;
    if uncompress {
      inflated := GzipInfo(mem, d, z);
    }
    x := Info(d.end - d.start, slen + 1, inflated);
  }

  /** One turn of the loop. */
  method SurveyNext(mem: array<byte>, tab: nat, n: nat, i: nat, size: u32, uncompress: bool, ghost zs: seq<Zip>,
                    ghost all: seq<Info>) returns (x: Info, size': u32)
    requires TableOk(mem[..], tab, n) && ZipsOk(mem[..], tab, n, uncompress, zs) && i < n
    requires all == Infos(mem[..], tab, n, uncompress, zs) && size == Offset(all, i) && Offset(all, n) < WORD32
    ensures x == all[i] && size' == Offset(all, i + 1)
  {
    InfosAt(mem[..], tab, n, uncompress, zs, i);
    x := Measure(mem, ModuleAt(mem[..], tab, i), uncompress, zs[i]);
    OffsetMonotone(all, i + 1, n);
    size' := AddNext(size, all, i, x);
  }

  /** The loop that measures all modules. */
  method Survey(mem: array<byte>, tab: nat, n: nat, uncompress: bool, ghost zs: seq<Zip>)
    returns (infos: seq<Info>, size: u32, needInflate: bool)
    requires TableOk(mem[..], tab, n) && ZipsOk(mem[..], tab, n, uncompress, zs)
    requires Offset(Infos(mem[..], tab, n, uncompress, zs), n) < WORD32
    ensures infos == Infos(mem[..], tab, n, uncompress, zs) && size == Offset(infos, n)
    ensures needInflate == AnyInflated(infos, n)
  {
    infos, size, needInflate := [], 0, false;
    ghost var all := Infos(mem[..], tab, n, uncompress, zs);
    var i := 0;
    while i < n
      invariant 0 <= i <= n && size == Offset(all, i) && Begins(infos, all, i)
      invariant needInflate == AnyInflated(all, i)
    {
      var x: Info;
      x, size := SurveyNext(mem, tab, n, i, size, uncompress, zs, all);
      BeginsNext(infos, all, i);
      infos := infos + [x];
      needInflate := needInflate || x.inflated.Some?;
      i := i + 1;
    }
    assert infos == all;
  }

  // ---------- the overlap check ----------

  datatype Overlap = Clear | Already | Overlaps

  /** The first n modules end at or below `block`. */
  ghost predicate AllBelow(m: seq<byte>, tab: nat, n: nat, block: nat)
    requires tab + 16 * n <= |m|
  {
    forall i :: 0 <= i < n ==> ModuleAt(m, tab, i).end <= block
  }

  /** Looks for the first module that ends above the target; it may be the first of modules
      that stand there already. */
  method CheckOverlap(mem: array<byte>, tab: nat, n: nat, reladdr: u32) returns (r: Overlap, ghost k: nat)
    requires mem.Length == SIZE && tab + 16 * n <= SIZE
    ensures r.Clear? <==> AllBelow(mem[..], tab, n, reladdr)
    ensures !r.Clear? ==>
      k < n && AllBelow(mem[..], tab, k, reladdr) && ModuleAt(mem[..], tab, k).end > reladdr &&
      (r.Already? <==> ModuleAt(mem[..], tab, k).start == reladdr)
  {
    var i := 0;
    while i < n
      invariant 0 <= i <= n && AllBelow(mem[..], tab, i, reladdr)
    {
      var d := ModuleAt(mem[..], tab, i);
      if d.end > reladdr {
        return if reladdr == d.start then Already else Overlaps, i;
      }
      i := i + 1;
    }
    return Clear, n;
  }

  // ---------- the second pass ----------

  /** Two memories agree outside two ranges. */
  ghost predicate SameBut(m: seq<byte>, m': seq<byte>, lo: int, hi: int, lo': int, hi': int) {
    |m| == |m'| &&
    forall a :: 0 <= a < |m| && (a < lo || hi <= a) && (a < lo' || hi' <= a) ==> m'[a] == m[a]
  }

  /** The bytes of a module, unless they cannot be had. */
  type Content = Option<seq<byte>>

  /** The bytes that a module will have: its own, or the expansion of a sound member. */
  ghost function NewBytes(m: seq<byte>, d: Module, x: Info, z: Zip): Content
    requires d.start <= d.end <= |m|
  {
    if x.inflated.None? then Some(m[d.start..d.end]) else if z.sound then Some(z.out) else None
  }

  /** What the gzip reader makes of a source: whether it is a member that the size query accepts,
      the size that it promises, what it expands to, and whether that passes the checks. */
  datatype Reading = Reading(member: bool, size: u32, out: seq<byte>, sound: bool)

  ghost function Read(src: seq<byte>, len: nat, h: Gzip.Header, bs: seq<DeflateFormat.Block>): Reading
    requires 4 <= len <= |src|
  {
    Reading(Gzip.Member(src, len, h, bs) && !Gzip.BadStart(src) && Gzip.HeaderIntact(h),
            Gzip.StoredLength(src, len), Gzip.Expansion(bs), 8 <= len && Gzip.Sound(src, len, bs))
  }

  /** The `len` bytes at the front of `src` are such a member. */
  ghost predicate MemberAt(src: seq<byte>, len: nat, z: Zip) {
    4 <= len <= |src| && Read(src, len, z.h, z.bs) == Reading(true, z.size, z.out, z.sound)
  }

  /** The bytes of a module are one. */
  ghost predicate Compressed(w: seq<byte>, z: Zip) {
    MemberAt(w, |w|, z)
  }

  /** The bytes of a member make it one, whatever follows them. */
  lemma CompressedAt(w: seq<byte>, src: seq<byte>, len: nat, z: Zip)
    requires w <= src && len == |w| && Compressed(w, z)
    ensures MemberAt(src, len, z)
  {
    assert forall k :: 0 <= k < |w| ==> w[k] == src[k];
    Gzip.SameSource(w, src, |w|, z.h, z.bs);
  }

  lemma CompressedLong(w: seq<byte>, z: Zip)
    requires Compressed(w, z)
    ensures 8 <= |w|
  {
  }

  lemma SoundSize(w: seq<byte>, z: Zip)
    requires Compressed(w, z) && z.sound
    ensures |z.out| == z.size
  {
  }

  /** What a member is to the gzip reader. */
  lemma MemberMeans(src: seq<byte>, len: nat, z: Zip)
    requires MemberAt(src, len, z)
    ensures Fatal(src, len, z, true) <==> !z.sound
    ensures 8 <= len && IsMember(src, z) && (z.sound <==> Gzip.Sound(src, len, z.bs))
    ensures z.sound ==> |z.out| == Gzip.StoredLength(src, len) && DeflateFormat.StreamOut(z.bs, 0, []) == Some(z.out)
  {
  }

  /** The same of the bytes of a module. */
  lemma CompressedMeans(w: seq<byte>, src: seq<byte>, len: nat, z: Zip)
    requires w <= src && len == |w| && Compressed(w, z)
    ensures 8 <= len && IsMember(src, z) && (z.sound <==> Gzip.Sound(src, len, z.bs))
    ensures z.sound ==> |z.out| == Gzip.StoredLength(src, len) && DeflateFormat.StreamOut(z.bs, 0, []) == Some(z.out)
  {
    CompressedAt(w, src, len, z);
    MemberMeans(src, len, z);
  }

  lemma CompressedFatal(w: seq<byte>, src: seq<byte>, len: nat, z: Zip)
    requires w <= src && len == |w| && Compressed(w, z)
    ensures 4 <= len && (Fatal(src, len, z, true) <==> !z.sound)
  {
    CompressedAt(w, src, len, z);
    MemberMeans(src, len, z);
  }

  /** What the module expands to at t stays in memory, even if it is more than is promised. */
  ghost predicate Contained(m: seq<byte>, d: Module, z: Zip, t: nat) {
    d.start <= d.end <= |m| && Compressed(m[d.start..d.end], z) && t + |z.out| <= SIZE
  }

  /** A module that is to be inflated to t is a gzip member of the size that was noted. */
  ghost predicate ZipFits(m: seq<byte>, d: Module, x: Info, z: Zip, t: nat) {
    x.inflated.Some? ==> Contained(m, d, z, t) && x.inflated.value == z.size
  }

  /** It stays one as long as its bytes do. */
  lemma SameZip(m: seq<byte>, m': seq<byte>, d: Module, x: Info, z: Zip, t: nat)
    requires d.start <= d.end && Same(m, m', d.start, d.end) && ZipFits(m, d, x, z, t)
    ensures ZipFits(m', d, x, z, t) && NewBytes(m, d, x, z) == NewBytes(m', d, x, z)
  {
    assert m[d.start..d.end] == m'[d.start..d.end];
  }

  /** What a module becomes has the size that was noted, and is the module unless that is inflated. */
  ghost predicate ContentOk(m: seq<byte>, d: Module, x: Info, w: Content) {
    d.start <= d.end <= |m| && (w.Some? ==> |w.value| == Payload(x)) &&
    (x.inflated.None? ==> w == Some(m[d.start..d.end]))
  }

  /** NewBytes gives such a content. */
  lemma NewBytesLength(m: seq<byte>, d: Module, x: Info, z: Zip, t: nat)
    requires d.start <= d.end <= |m| && x.modlen == d.end - d.start && ZipFits(m, d, x, z, t)
    ensures ContentOk(m, d, x, NewBytes(m, d, x, z))
  {
    if x.inflated.Some? && z.sound {
      SoundSize(m[d.start..d.end], z);
    }
  }

  /** The command line, with its terminator. */
  ghost function CommandLine(m: seq<byte>, d: Module, x: Info): seq<byte>
    requires d.str + x.slen <= |m|
  {
    m[d.str..d.str + x.slen]
  }

  /** Where a module at t ends and its command line begins. */
  function EndAt(t: nat, x: Info): nat {
    t + Payload(x)
  }

  /** The descriptor names a module at t with its command line right behind it. */
  ghost predicate PointsTo(m: seq<byte>, tab: nat, i: nat, t: nat, x: Info)
    requires tab + 16 * i + 16 <= |m|
  {
    var d := ModuleAt(m, tab, i);
    d.start == t && d.end == EndAt(t, x) && d.str == EndAt(t, x)
  }

  /** Module and command line stand at t, and the descriptor points there. */
  ghost predicate StandsAt(m: seq<byte>, tab: nat, i: nat, t: nat, x: Info, w: seq<byte>, cmd: seq<byte>) {
    tab + 16 * i + 16 <= |m| == SIZE && PointsTo(m, tab, i, t, x) && At(m, t, w) && At(m, EndAt(t, x), cmd)
  }

  method InflateMember(mem: array<byte>, src: seq<byte>, len: nat, t: nat, g: TinfTables.Tables, ghost z: Zip)
    returns (length: Option<nat>)
    requires g.Ready() && MemberAt(src, len, z) && t + |z.out| <= mem.Length
    modifies mem
    ensures Written(old(mem[..]), mem[..], t, z.out)
    ensures length.Some? <==> z.sound
    ensures length.Some? ==> length.value == z.size == |z.out|
  {
    length := Gzip.Uncompress(g, mem, t, src, len, z.h, z.bs);
  }

  /** The call of tinf_gzip_uncompress, and the assertion behind it. */
  method InflatePayload(mem: array<byte>, d: Module, len: nat, size: u32, t: nat, g: TinfTables.Tables, ghost z: Zip)
    returns (ok: bool)
    requires d.start <= d.end <= mem.Length && len == d.end - d.start && g.Ready() && size == z.size
    requires Compressed(mem[d.start..d.end], z) && t + |z.out| <= mem.Length
    modifies mem
    ensures ok <==> z.sound
    ensures Written(old(mem[..]), mem[..], t, z.out) && (ok ==> |z.out| == size)
  {
    var src := mem[d.start..];
    CompressedAt(mem[d.start..d.end], src, len, z);
    var uncompressed := InflateMember(mem, src, len, t, g, z);
    ok := uncompressed.Some? && uncompressed.value == size;
  }

  /** Copies or inflates one module. */
  method PlacePayload(mem: array<byte>, d: Module, x: Info, t: nat, g: TinfTables.Tables?, ghost z: Zip) returns (ok: bool)
    requires mem.Length == SIZE && d.start <= d.end && x.modlen == d.end - d.start && t + Payload(x) <= SIZE
    requires Apart(d.start, x.modlen, t, Payload(x)) && ZipFits(mem[..], d, x, z, t)
    requires x.inflated.Some? ==> g != null && g.Ready()
    modifies mem
    ensures ok <==> old(NewBytes(mem[..], d, x, z)).Some?
    ensures ok ==> Written(old(mem[..]), mem[..], t, old(NewBytes(mem[..], d, x, z)).value)
    ensures ok ==> |old(NewBytes(mem[..], d, x, z)).value| == Payload(x)
  {
    if x.inflated.Some? {
      ok := InflatePayload(mem, d, x.modlen, x.inflated.value, t, g, z);
    } else {
      CopyMemory(mem, t, d.start, x.modlen);
      ok := true;
    }
  }

  /** The descriptor and what it names are where PlaceModule needs them: nothing that is still
      read is overwritten, unless the command line already stands where it goes. */
  ghost predicate Placeable(m: seq<byte>, tab: nat, i: nat, d: Module, x: Info, t: nat) {
    tab + 16 * i + 16 <= |m| == SIZE && d == ModuleAt(m, tab, i) &&
    d.start <= d.end && x.modlen == d.end - d.start && d.str + x.slen <= SIZE && t + Payload(x) + x.slen <= SIZE &&
    Apart(d.start, x.modlen, t, Payload(x)) &&
    (Apart(d.str, x.slen, t, Payload(x) + x.slen) || d.str == t + Payload(x)) &&
    Apart(tab + 16 * i, 16, t, Payload(x) + x.slen) && Apart(tab + 16 * i, 16, d.str, x.slen) && t + Payload(x) < SIZE
  }

  lemma SameSlice(m: seq<byte>, m': seq<byte>, a: nat, n: nat)
    requires Same(m, m', a, a + n)
    ensures m[a..a + n] == m'[a..a + n]
  {
  }

  /** Writes mod_start and mod_end. */
  method PlaceBounds(mem: array<byte>, tab: nat, i: nat, start: u32, end: u32)
    requires tab + 16 * i + 16 <= mem.Length
    modifies mem
    ensures ModuleAt(mem[..], tab, i) == old(ModuleAt(mem[..], tab, i)).(start := start, end := end)
    ensures SameBut(old(mem[..]), mem[..], 0, 0, tab + 16 * i, tab + 16 * i + 8)
  {
    WriteWord(mem, tab + 16 * i, start);
    WriteWord(mem, tab + 16 * i + 4, end);
  }

  lemma AtBut(m: seq<byte>, m': seq<byte>, a: nat, w: seq<byte>, lo: int, hi: int, lo': int, hi': int)
    requires At(m, a, w) && SameBut(m, m', lo, hi, lo', hi')
    requires Apart(a, |w|, lo, hi - lo) && Apart(a, |w|, lo', hi' - lo')
    ensures At(m', a, w)
  {
  }

  method CopyCommandLine(mem: array<byte>, t: u32, d: Module, x: Info)
    requires t + x.slen <= mem.Length && d.str + x.slen <= mem.Length && (Apart(t, x.slen, d.str, x.slen) || t == d.str)
    modifies mem
    ensures Written(old(mem[..]), mem[..], t, old(CommandLine(mem[..], d, x)))
  {
    CopyMemory(mem, t, d.str, x.slen);
  }

  /** Copies a command line to t and writes its address. */
  method PlaceCommandLine(mem: array<byte>, tab: nat, i: nat, t: u32, d: Module, x: Info)
    requires tab + 16 * i + 16 <= mem.Length && t + x.slen <= mem.Length && d.str + x.slen <= mem.Length
    requires (Apart(t, x.slen, d.str, x.slen) || t == d.str) && Apart(tab + 16 * i, 16, t, x.slen)
    modifies mem
    ensures ModuleAt(mem[..], tab, i) == old(ModuleAt(mem[..], tab, i)).(str := t)
    ensures At(mem[..], t, old(CommandLine(mem[..], d, x)))
    ensures SameBut(old(mem[..]), mem[..], t, t + x.slen, tab + 16 * i + 8, tab + 16 * i + 12)
  {
    CopyCommandLine(mem, t, d, x);
    ghost var m1, w := mem[..], old(CommandLine(mem[..], d, x));
    WriteWord(mem, tab + 16 * i + 8, t);
    AtBut(m1, mem[..], t, w, 0, 0, tab + 16 * i + 8, tab + 16 * i + 12);
  }

  /** The descriptor and the command line. */
  method PlaceRest(mem: array<byte>, tab: nat, i: nat, x: Info, t: nat, d: Module)
    requires tab + 16 * i + 16 <= mem.Length == SIZE && EndAt(t, x) < SIZE
    requires EndAt(t, x) + x.slen <= SIZE && d.str + x.slen <= SIZE
    requires Apart(d.str, x.slen, EndAt(t, x), x.slen) || d.str == EndAt(t, x)
    requires Apart(tab + 16 * i, 16, EndAt(t, x), x.slen) && Apart(tab + 16 * i, 16, d.str, x.slen)
    modifies mem
    ensures PointsTo(mem[..], tab, i, t, x) && At(mem[..], EndAt(t, x), old(CommandLine(mem[..], d, x)))
    ensures SameBut(old(mem[..]), mem[..], EndAt(t, x), EndAt(t, x) + x.slen, tab + 16 * i, tab + 16 * i + 12)
  {
    ghost var m0 := mem[..];
    PlaceBounds(mem, tab, i, t, EndAt(t, x));
    SameSlice(m0, mem[..], d.str, x.slen);
    PlaceCommandLine(mem, tab, i, EndAt(t, x), d, x);
  }

  /** The module and the rest, together. */
  lemma PlaceDone(m0: seq<byte>, m1: seq<byte>, m2: seq<byte>, tab: nat, i: nat, d: Module, x: Info, t: nat, w: seq<byte>)
    requires Placeable(m0, tab, i, d, x, t) && Written(m0, m1, t, w) && |w| == Payload(x)
    requires |m2| == SIZE && PointsTo(m2, tab, i, t, x) && At(m2, EndAt(t, x), CommandLine(m1, d, x))
    requires SameBut(m1, m2, EndAt(t, x), EndAt(t, x) + x.slen, tab + 16 * i, tab + 16 * i + 12)
    ensures StandsAt(m2, tab, i, t, x, w, CommandLine(m0, d, x))
    ensures SameBut(m0, m2, t, t + Payload(x) + x.slen, tab + 16 * i, tab + 16 * i + 12)
  {
    SameSlice(m0, m1, d.str, x.slen);
    AtBut(m1, m2, t, w, EndAt(t, x), EndAt(t, x) + x.slen, tab + 16 * i, tab + 16 * i + 12);
  }

  /** One turn of the loop of the second pass. */
  method PlaceModule(mem: array<byte>, tab: nat, i: nat, x: Info, t: nat, g: TinfTables.Tables?, ghost z: Zip)
    returns (ok: bool)
    requires tab + 16 * i + 16 <= mem.Length == SIZE
    requires Placeable(mem[..], tab, i, ModuleAt(mem[..], tab, i), x, t)
    requires ZipFits(mem[..], ModuleAt(mem[..], tab, i), x, z, t) && (x.inflated.Some? ==> g != null && g.Ready())
    modifies mem
    ensures ok <==> old(NewBytes(mem[..], ModuleAt(mem[..], tab, i), x, z)).Some?
    ensures ok ==> StandsAt(mem[..], tab, i, t, x, old(NewBytes(mem[..], ModuleAt(mem[..], tab, i), x, z)).value,
                            old(CommandLine(mem[..], ModuleAt(mem[..], tab, i), x)))
    ensures ok ==> SameBut(old(mem[..]), mem[..], t, t + Payload(x) + x.slen, tab + 16 * i, tab + 16 * i + 12)
  {
    var d := ModuleAt(mem[..], tab, i);
    ghost var m0, w := mem[..], NewBytes(mem[..], d, x, z);
    ok := PlacePayload(mem, d, x, t, g, z);
    if ok {
      ghost var m1 := mem[..];
      PlaceRest(mem, tab, i, x, t, d);
      PlaceDone(m0, m1, mem[..], tab, i, d, x, t, w.value);
    }
  }

  /** Where module i goes when the block starts at `block`. */
  ghost function Place(infos: seq<Info>, block: nat, i: nat): nat
    requires i <= |infos|
  {
    block + Offset(infos, i)
  }

  ghost predicate SeparatedAt(m: seq<byte>, tab: nat, infos: seq<Info>, block: nat, i: nat)
    requires i < |infos| && tab + 16 * |infos| <= |m|
  {
    var d, x := ModuleAt(m, tab, i), infos[i];
    d.start <= d.end && x.modlen == d.end - d.start && 0 < x.slen && d.str + x.slen <= SIZE &&
    (Apart(d.str, x.slen, block, Offset(infos, |infos|)) || d.str == Place(infos, block, i) + Payload(x)) &&
    Apart(tab, 16 * |infos|, d.start, x.modlen) && Apart(tab, 16 * |infos|, d.str, x.slen)
  }

  /** The relocation may move modules to `block`: the table and the command lines lie outside of
      it. (A command line may also be where it goes, as after an earlier relocation.) The table
      lies outside modules and command lines. */
  ghost predicate Separated(m: seq<byte>, tab: nat, infos: seq<Info>, block: nat) {
    |m| == SIZE && tab + 16 * |infos| <= SIZE && Apart(tab, 16 * |infos|, block, Offset(infos, |infos|)) &&
    forall i :: 0 <= i < |infos| ==> SeparatedAt(m, tab, infos, block, i)
  }

  ghost predicate ContentAt(m: seq<byte>, tab: nat, infos: seq<Info>, ws: seq<Content>, i: nat)
    requires i < |infos| == |ws| && tab + 16 * |infos| <= |m|
  {
    ContentOk(m, ModuleAt(m, tab, i), infos[i], ws[i])
  }

  /** Moreover the block is in memory, the modules lie below it, and `ws` is what they become. */
  ghost predicate Movable(m: seq<byte>, tab: nat, infos: seq<Info>, block: nat, ws: seq<Content>) {
    Separated(m, tab, infos, block) && block + Offset(infos, |infos|) <= SIZE && AllBelow(m, tab, |infos|, block) &&
    |ws| == |infos| && forall i :: 0 <= i < |infos| ==> ContentAt(m, tab, infos, ws, i)
  }

  /** No module ends before it starts. */
  ghost predicate InOrder(m: seq<byte>, tab: nat, n: nat) {
    tab + 16 * n <= |m| == SIZE && forall i :: 0 <= i < n ==> ModuleAt(m, tab, i).start <= ModuleAt(m, tab, i).end
  }

  /** What the modules become. */
  ghost function Contents(m: seq<byte>, tab: nat, infos: seq<Info>, zs: seq<Zip>): (ws: seq<Content>)
    requires InOrder(m, tab, |infos|) && |zs| == |infos|
    ensures |ws| == |infos|
  {
    seq(|infos|, i requires 0 <= i < |infos| => NewBytes(m, ModuleAt(m, tab, i), infos[i], zs[i]))
  }

  ghost predicate FitsAt(m: seq<byte>, tab: nat, infos: seq<Info>, block: nat, zs: seq<Zip>, i: nat)
    requires i < |infos| == |zs| && tab + 16 * |infos| <= |m|
  {
    ZipFits(m, ModuleAt(m, tab, i), infos[i], zs[i], Place(infos, block, i))
  }

  ghost predicate AllFit(m: seq<byte>, tab: nat, infos: seq<Info>, block: nat, zs: seq<Zip>)
    requires tab + 16 * |infos| <= |m|
  {
    |zs| == |infos| && forall i :: 0 <= i < |infos| ==> FitsAt(m, tab, infos, block, zs, i)
  }

  lemma ContentsOk(m: seq<byte>, tab: nat, infos: seq<Info>, block: nat, zs: seq<Zip>, i: nat)
    requires i < |infos| && Separated(m, tab, infos, block) && AllFit(m, tab, infos, block, zs)
    requires InOrder(m, tab, |infos|)
    ensures ContentAt(m, tab, infos, Contents(m, tab, infos, zs), i)
  {
    assert SeparatedAt(m, tab, infos, block, i) && FitsAt(m, tab, infos, block, zs, i);
    NewBytesLength(m, ModuleAt(m, tab, i), infos[i], zs[i], Place(infos, block, i));
  }

  /** Module i of memory m0 has been placed. */
  ghost predicate Placed(m0: seq<byte>, m: seq<byte>, tab: nat, infos: seq<Info>, block: nat, ws: seq<Content>, i: nat)
    requires Movable(m0, tab, infos, block, ws) && i < |infos|
  {
    assert SeparatedAt(m0, tab, infos, block, i);
    ws[i].Some? && StandsAt(m, tab, i, Place(infos, block, i), infos[i], ws[i].value,
                            CommandLine(m0, ModuleAt(m0, tab, i), infos[i]))
  }

  /** Address a is in module k as placed, or in the words of its descriptor that are written. */
  ghost predicate InUse(a: int, tab: nat, infos: seq<Info>, block: nat, k: nat)
    requires k < |infos|
  {
    tab + 16 * k <= a < tab + 16 * k + 12 ||
    Place(infos, block, k) <= a < Place(infos, block, k) + Payload(infos[k]) + infos[k].slen
  }

  /** No module from i on uses address a. */
  ghost predicate Idle(a: int, tab: nat, infos: seq<Info>, block: nat, i: nat)
    requires i <= |infos|
  {
    forall k :: i <= k < |infos| ==> !InUse(a, tab, infos, block, k)
  }

  /** The modules i and up have been placed, and nothing else has changed. */
  ghost predicate PlacedFrom(m0: seq<byte>, m: seq<byte>, tab: nat, infos: seq<Info>, block: nat, ws: seq<Content>, i: nat)
    requires Movable(m0, tab, infos, block, ws) && i <= |infos|
  {
    |m| == SIZE &&
    (forall k :: i <= k < |infos| ==> Placed(m0, m, tab, infos, block, ws, k)) &&
    forall a :: 0 <= a < SIZE && Idle(a, tab, infos, block, i) ==> m[a] == m0[a]
  }

  /** Below the modules that have been placed, and outside the block, only descriptors change. */
  lemma BelowIsIdle(tab: nat, infos: seq<Info>, block: nat, i: nat)
    requires i <= |infos|
    ensures forall a: int ::
      (a < tab + 16 * i || tab + 16 * |infos| <= a) &&
      (a < block + Offset(infos, i) || block + Offset(infos, |infos|) <= a) ==>
      Idle(a, tab, infos, block, i)
  {
    forall k | i <= k < |infos|
      ensures Offset(infos, i) <= Offset(infos, k)
      ensures Offset(infos, k) + Payload(infos[k]) + infos[k].slen <= Offset(infos, |infos|)
    {
      OffsetMonotone(infos, i, k);
      OffsetMonotone(infos, k, |infos|);
    }
  }

  /** What module i needs is untouched when it is its turn. */
  lemma StillPlaceable(m0: seq<byte>, m: seq<byte>, tab: nat, infos: seq<Info>, block: nat, ws: seq<Content>, i: nat)
    requires Movable(m0, tab, infos, block, ws) && i < |infos| && PlacedFrom(m0, m, tab, infos, block, ws, i + 1)
    ensures Placeable(m, tab, i, ModuleAt(m0, tab, i), infos[i], Place(infos, block, i))
    ensures var d, x := ModuleAt(m0, tab, i), infos[i];
      Same(m0, m, d.start, d.end) && d.str + x.slen <= SIZE && CommandLine(m, d, x) == CommandLine(m0, d, x)
  {
    assert SeparatedAt(m0, tab, infos, block, i);
    var d, x := ModuleAt(m0, tab, i), infos[i];
    OffsetMonotone(infos, i, |infos|);
    BelowIsIdle(tab, infos, block, i + 1);
    assert Same(m0, m, d.start, d.end);
    assert Same(m0, m, d.str, d.str + x.slen);
    SameSlice(m0, m, d.str, x.slen);
    assert Same(m0, m, tab + 16 * i, tab + 16 * i + 16);
  }

  lemma StandsKept(m: seq<byte>, m': seq<byte>, tab: nat, k: nat, t: nat, x: Info, w: seq<byte>, cmd: seq<byte>,
                   lo: int, hi: int, lo': int, hi': int)
    requires StandsAt(m, tab, k, t, x, w, cmd) && SameBut(m, m', lo, hi, lo', hi')
    requires |w| == Payload(x) && |cmd| == x.slen
    requires lo <= hi && lo' <= hi' && hi <= t && t + Payload(x) + x.slen <= SIZE
    requires hi' <= tab + 16 * k && Apart(lo', hi' - lo', t, Payload(x) + x.slen) && Apart(lo, hi - lo, tab + 16 * k, 16)
    ensures StandsAt(m', tab, k, t, x, w, cmd)
  {
    AtBut(m, m', t, w, lo, hi, lo', hi');
    AtBut(m, m', EndAt(t, x), cmd, lo, hi, lo', hi');
  }

  /** The step from m to m' writes nothing but module i as placed and its descriptor. */
  ghost predicate OnlyPlaces(m: seq<byte>, m': seq<byte>, tab: nat, infos: seq<Info>, block: nat, i: nat)
    requires i < |infos|
  {
    var t := Place(infos, block, i);
    SameBut(m, m', t, t + Payload(infos[i]) + infos[i].slen, tab + 16 * i, tab + 16 * i + 12)
  }

  /** Placing module i leaves the modules above in place. */
  lemma PlacedKept(m0: seq<byte>, m: seq<byte>, m': seq<byte>, tab: nat, infos: seq<Info>, block: nat, ws: seq<Content>,
                   i: nat, k: nat)
    requires Movable(m0, tab, infos, block, ws) && i < k < |infos| && Placed(m0, m, tab, infos, block, ws, k)
    requires OnlyPlaces(m, m', tab, infos, block, i)
    ensures Placed(m0, m', tab, infos, block, ws, k)
  {
    assert SeparatedAt(m0, tab, infos, block, k) && ContentAt(m0, tab, infos, ws, k);
    var d, x, t := ModuleAt(m0, tab, k), infos[k], Place(infos, block, i);
    OffsetMonotone(infos, i, k);
    OffsetMonotone(infos, k, |infos|);
    StandsKept(m, m', tab, k, Place(infos, block, k), x, ws[k].value, CommandLine(m0, d, x),
               t, t + Payload(infos[i]) + infos[i].slen, tab + 16 * i, tab + 16 * i + 12);
  }

  lemma PlacedNext(m0: seq<byte>, m: seq<byte>, m': seq<byte>, tab: nat, infos: seq<Info>, block: nat, ws: seq<Content>, i: nat)
    requires Movable(m0, tab, infos, block, ws) && i < |infos| && PlacedFrom(m0, m, tab, infos, block, ws, i + 1)
    requires Placed(m0, m', tab, infos, block, ws, i) && OnlyPlaces(m, m', tab, infos, block, i)
    ensures PlacedFrom(m0, m', tab, infos, block, ws, i)
  {
    forall k | i <= k < |infos| ensures Placed(m0, m', tab, infos, block, ws, k) {
      if k > i {
        PlacedKept(m0, m, m', tab, infos, block, ws, i, k);
      }
    }
    forall a | 0 <= a < SIZE && Idle(a, tab, infos, block, i) ensures m'[a] == m0[a] {
      assert !InUse(a, tab, infos, block, i) && Idle(a, tab, infos, block, i + 1);
    }
  }

  lemma AllPlaced(m0: seq<byte>, m: seq<byte>, tab: nat, infos: seq<Info>, block: nat, ws: seq<Content>)
    requires Movable(m0, tab, infos, block, ws) && PlacedFrom(m0, m, tab, infos, block, ws, 0)
    ensures forall i :: 0 <= i < |infos| ==> ws[i].Some?
  {
    forall i | 0 <= i < |infos| ensures ws[i].Some? {
      assert Placed(m0, m, tab, infos, block, ws, i);
    }
  }

  /** `block_len -= (slen + target_len + 0xFFF) & ~0xFFF`. */
  method TakeSlot(left: nat, infos: seq<Info>, i: nat) returns (left': nat)
    requires i < |infos| && left == Offset(infos, i + 1)
    ensures left' == Offset(infos, i)
  {
    left' := left - Slot(infos[i]) * PAGE;
  }

  /** One turn of the loop. */
  method PlaceNext(mem: array<byte>, tab: nat, infos: seq<Info>, block: nat, i: nat, t: nat, g: TinfTables.Tables?,
                   ghost z: Zip, ghost ws: seq<Content>, ghost m0: seq<byte>) returns (ok: bool)
    requires mem.Length == SIZE && Movable(m0, tab, infos, block, ws) && i < |infos| && t == Place(infos, block, i)
    requires InOrder(m0, tab, |infos|) && ZipFits(m0, ModuleAt(m0, tab, i), infos[i], z, t)
    requires ws[i] == NewBytes(m0, ModuleAt(m0, tab, i), infos[i], z)
    requires PlacedFrom(m0, mem[..], tab, infos, block, ws, i + 1)
    requires (g != null ==> g.Ready()) && (infos[i].inflated.Some? ==> g != null)
    modifies mem
    ensures ok <==> ws[i].Some?
    ensures ok ==> PlacedFrom(m0, mem[..], tab, infos, block, ws, i)
  {
    ghost var m := mem[..];
    StillPlaceable(m0, m, tab, infos, block, ws, i);
    SameZip(m0, m, ModuleAt(m0, tab, i), infos[i], z, t);
    ok := PlaceModule(mem, tab, i, infos[i], t, g, z);
    if ok {
      assert OnlyPlaces(m, mem[..], tab, infos, block, i);
      assert Placed(m0, mem[..], tab, infos, block, ws, i);
      PlacedNext(m0, m, mem[..], tab, infos, block, ws, i);
    }
  }

  /** The loop of the second pass, from the last module down. `left` is the variable block_len. */
  method MoveAll(mem: array<byte>, tab: nat, infos: seq<Info>, block: nat, size: nat, g: TinfTables.Tables?,
                 ghost zs: seq<Zip>, ghost ws: seq<Content>) returns (ok: bool)
    requires mem.Length == SIZE && Movable(mem[..], tab, infos, block, ws) && size == Offset(infos, |infos|)
    requires AllFit(mem[..], tab, infos, block, zs) && InOrder(mem[..], tab, |infos|) && ws == Contents(mem[..], tab, infos, zs)
    requires g != null ==> g.Ready()
    requires forall i :: 0 <= i < |infos| && infos[i].inflated.Some? ==> g != null
    modifies mem
    ensures ok ==> PlacedFrom(old(mem[..]), mem[..], tab, infos, block, ws, 0)
    ensures ok <==> forall i :: 0 <= i < |infos| ==> ws[i].Some?
  {
    ghost var m0 := mem[..];
    var left, i := size, |infos|;
    while i > 0
      invariant 0 <= i <= |infos| && left == Offset(infos, i) && (g != null ==> g.Ready())
      invariant PlacedFrom(m0, mem[..], tab, infos, block, ws, i)
    {
      i := i - 1;
      left := TakeSlot(left, infos, i);
      assert FitsAt(m0, tab, infos, block, zs, i);
      ok := PlaceNext(mem, tab, infos, block, i, block + left, g, zs[i], ws, m0);
      if !ok {
        return;
      }
    }
    AllPlaced(m0, mem[..], tab, infos, block, ws);
    ok := true;
  }

  // ---------- mbi_relocate_modules ----------

  datatype Relocation = Relocated(block: u32) | Kept | Halted

  function Count(m: seq<byte>, mbi: nat): u32
    requires mbi + 52 <= |m|
  {
    Word(m, mbi + 20)
  }

  function Table(m: seq<byte>, mbi: nat): u32
    requires mbi + 52 <= |m|
  {
    Word(m, mbi + 24)
  }

  /** t is the highest address at which `size` bytes of page-rounded available memory lie below
      physMax. */
  ghost predicate Highest(es: seq<Entry>, size: u32, physMax: u64, t: nat) {
    physMax > size && Room(es, Search(size, physMax, true), t) &&
    forall u: nat :: Room(es, Search(size, physMax, true), u) ==> u <= t
  }

  /** There is no such address. */
  ghost predicate NoRoom(es: seq<Entry>, size: u32, physMax: u64) {
    physMax <= size || forall u: nat :: !Room(es, Search(size, physMax, true), u)
  }

  lemma OneHighest(es: seq<Entry>, size: u32, physMax: u64, t: nat, u: nat)
    requires Highest(es, size, physMax, t) && Highest(es, size, physMax, u)
    ensures t == u
  {
  }

  /** The memory map as the relocator finds it, with an end of the search in sight. */
  ghost predicate MapOk(m: seq<byte>, mbi: nat, es: seq<Entry>, size: u32, physMax: u64) {
    mbi + 52 <= |m| == SIZE && MapAt(m, Word(m, mbi + 48), MapEnd(m, mbi), es) && AllInRange(es) &&
    physMax <= WORD32 && (physMax > size ==> Scan(es, Search(size, physMax, true), 0, None).Ends?)
  }

  /** The modules as the relocator finds them, with the notes of the first pass; their pages have
      a 32-bit size. */
  ghost predicate ModulesOk(m: seq<byte>, mbi: nat, uncompress: bool, zs: seq<Zip>, infos: seq<Info>, size: u32) {
    mbi + 52 <= |m| && TableOk(m, Table(m, mbi), Count(m, mbi)) &&
    ZipsOk(m, Table(m, mbi), Count(m, mbi), uncompress, zs) &&
    infos == Infos(m, Table(m, mbi), Count(m, mbi), uncompress, zs) && 0 < size == Offset(infos, |infos|)
  }

  ghost predicate ContainedAt(m: seq<byte>, tab: nat, infos: seq<Info>, block: nat, zs: seq<Zip>, i: nat)
    requires i < |infos| == |zs| && tab + 16 * |infos| <= |m|
  {
    infos[i].inflated.Some? ==> Contained(m, ModuleAt(m, tab, i), zs[i], Place(infos, block, i))
  }

  /** The modules may go to `block`, and what is inflated there stays in memory. */
  ghost predicate TargetOk(m: seq<byte>, tab: nat, infos: seq<Info>, block: nat, zs: seq<Zip>) {
    Separated(m, tab, infos, block) && |zs| == |infos| &&
    forall i :: 0 <= i < |infos| ==> ContainedAt(m, tab, infos, block, zs, i)
  }

  /** A member that cannot be delivered, by what is known of the module. */
  ghost predicate Stuck(z: Zip, movable: bool) {
    z.queried && !(movable && z.sound)
  }

  lemma InflatedIff(m: seq<byte>, d: Module, x: Info, uncompress: bool, z: Zip)
    requires ModuleOk(m, d) && (uncompress ==> Zippable(m, d, z)) && x == InfoOf(m, d, uncompress, z)
    ensures x.inflated == if uncompress && z.queried then Some(z.size) else None
    ensures NewBytes(m, d, x, z).None? <==> uncompress && Stuck(z, true)
  {
  }

  lemma TargetFits(m: seq<byte>, tab: nat, infos: seq<Info>, block: nat, uncompress: bool, zs: seq<Zip>)
    requires TableOk(m, tab, |infos|) && ZipsOk(m, tab, |infos|, uncompress, zs)
    requires infos == Infos(m, tab, |infos|, uncompress, zs) && TargetOk(m, tab, infos, block, zs)
    ensures AllFit(m, tab, infos, block, zs)
  {
    forall i | 0 <= i < |infos| ensures FitsAt(m, tab, infos, block, zs, i) {
      assert ContainedAt(m, tab, infos, block, zs, i);
      InfosAt(m, tab, |infos|, uncompress, zs, i);
      InflatedIff(m, ModuleAt(m, tab, i), infos[i], uncompress, zs[i]);
    }
  }

  /** The block that the search comes up with is the highest, and lies in memory. */
  lemma FoundHighest(es: seq<Entry>, size: u32, physMax: u64, found: bool, start: u32)
    requires AllInRange(es) && 0 < size && physMax <= WORD32
    requires physMax > size ==> Scan(es, Search(size, physMax, true), 0, None).Ends?
    requires found <==> physMax > size && Scan(es, Search(size, physMax, true), 0, None).result.Some?
    requires found ==> start == Scan(es, Search(size, physMax, true), 0, None).result.value
    ensures found ==> Highest(es, size, physMax, start) && start + size <= physMax
    ensures !found ==> NoRoom(es, size, physMax)
  {
    if physMax > size {
      HighestIsGreatest(es, Search(size, physMax, true));
    }
  }

  lemma SeparatedInOrder(m: seq<byte>, tab: nat, infos: seq<Info>, block: nat)
    requires Separated(m, tab, infos, block)
    ensures InOrder(m, tab, |infos|)
  {
    forall i | 0 <= i < |infos| ensures ModuleAt(m, tab, i).start <= ModuleAt(m, tab, i).end {
      assert SeparatedAt(m, tab, infos, block, i);
    }
  }

  /** The overlap check, at the address where the modules go. */
  method MayMove(mem: array<byte>, tab: nat, n: nat, block: u32, blockLen: nat, size: nat) returns (clear: bool)
    requires mem.Length == SIZE && tab + 16 * n <= SIZE && blockLen == size
    ensures clear <==> AllBelow(mem[..], tab, n, block)
  {
    var reladdr := Wrap32(block + blockLen - size);
    var overlap: Overlap;
    ghost var k;
    overlap, k := CheckOverlap(mem, tab, n, reladdr);
    clear := overlap.Clear?;
  }

  lemma MovableContents(m: seq<byte>, tab: nat, infos: seq<Info>, block: nat, zs: seq<Zip>) returns (ws: seq<Content>)
    requires Separated(m, tab, infos, block) && AllFit(m, tab, infos, block, zs)
    requires block + Offset(infos, |infos|) <= SIZE && AllBelow(m, tab, |infos|, block) && InOrder(m, tab, |infos|)
    ensures ws == Contents(m, tab, infos, zs) && Movable(m, tab, infos, block, ws)
  {
    ws := Contents(m, tab, infos, zs);
    forall i | 0 <= i < |infos| ensures ContentAt(m, tab, infos, ws, i) {
      ContentsOk(m, tab, infos, block, zs, i);
    }
  }

  /** The modules have been moved to `block`, or an inflation has failed. */
  ghost predicate Moved(m: seq<byte>, m': seq<byte>, tab: nat, infos: seq<Info>, block: u32, ws: seq<Content>, r: Relocation) {
    Movable(m, tab, infos, block, ws) &&
    if forall i :: 0 <= i < |infos| ==> ws[i].Some? then
      r == Relocated(block) && PlacedFrom(m, m', tab, infos, block, ws, 0)
    else r == Halted
  }

  /** The second pass, which halts if an inflation fails. */
  method MoveDown(mem: array<byte>, tab: nat, infos: seq<Info>, block: u32, size: nat, g: TinfTables.Tables?,
                  ghost zs: seq<Zip>) returns (r: Relocation)
    requires mem.Length == SIZE && size == Offset(infos, |infos|) && block + size <= SIZE
    requires Separated(mem[..], tab, infos, block) && AllFit(mem[..], tab, infos, block, zs)
    requires InOrder(mem[..], tab, |infos|) && AllBelow(mem[..], tab, |infos|, block)
    requires g != null ==> g.Ready()
    requires forall i :: 0 <= i < |infos| && infos[i].inflated.Some? ==> g != null
    modifies mem
    ensures Moved(old(mem[..]), mem[..], tab, infos, block, old(Contents(mem[..], tab, infos, zs)), r)
  {
    ghost var ws := MovableContents(mem[..], tab, infos, block, zs);
    var ok := MoveAll(mem, tab, infos, block, size, g, zs, ws);
    r := if ok then Relocated(block) else Halted;
  }

  /** The overlap check and the second pass. */
  method MoveTo(mem: array<byte>, tab: nat, infos: seq<Info>, block: u32, blockLen: nat, size: nat, needInflate: bool,
                g: TinfTables.Tables?, ghost zs: seq<Zip>) returns (r: Relocation)
    requires mem.Length == SIZE && blockLen == size == Offset(infos, |infos|) > 0
    requires block + size <= SIZE && Separated(mem[..], tab, infos, block) && AllFit(mem[..], tab, infos, block, zs)
    requires InOrder(mem[..], tab, |infos|)
    requires g != null ==> g.Ready()
    requires forall i :: 0 <= i < |infos| && infos[i].inflated.Some? ==> g != null
    modifies mem
    ensures old(AllBelow(mem[..], tab, |infos|, block)) ==>
      Moved(old(mem[..]), mem[..], tab, infos, block, old(Contents(mem[..], tab, infos, zs)), r)
    ensures !old(AllBelow(mem[..], tab, |infos|, block)) ==>
      mem[..] == old(mem[..]) && r == if needInflate then Halted else Kept
  {
    var clear := MayMove(mem, tab, |infos|, block, blockLen, size);
    if clear {
      r := MoveDown(mem, tab, infos, block, blockLen, g, zs);
    } else {
      r := if needInflate then Halted else Kept;
    }
  }

  /** What becomes of memory m. Modules are moved if there is a block and they all lie below it;
      an inflation that does not deliver what was promised is fatal. Otherwise nothing changes,
      which is fatal if a module had to be inflated. */
  ghost predicate Decided(m: seq<byte>, m': seq<byte>, tab: nat, infos: seq<Info>, target: Option<u32>, zs: seq<Zip>,
                          r: Relocation)
  {
    InOrder(m, tab, |infos|) && |zs| == |infos| &&
    if target.Some? && AllBelow(m, tab, |infos|, target.value) then
      Moved(m, m', tab, infos, target.value, Contents(m, tab, infos, zs), r)
    else m' == m && r == if AnyInflated(infos, |infos|) then Halted else Kept
  }

  /** Why modules stay: one ends too high, or a member is not sound. */
  lemma NotMoved(m: seq<byte>, m': seq<byte>, tab: nat, infos: seq<Info>, block: u32, zs: seq<Zip>, r: Relocation)
    requires InOrder(m, tab, |infos|) && |zs| == |infos|
    requires AllBelow(m, tab, |infos|, block) ==> Moved(m, m', tab, infos, block, Contents(m, tab, infos, zs), r)
    ensures !r.Relocated? ==>
      (exists i :: 0 <= i < |infos| && ModuleAt(m, tab, i).end > block) ||
      exists i :: 0 <= i < |infos| && infos[i].inflated.Some? && !zs[i].sound
  {
    if !r.Relocated? && AllBelow(m, tab, |infos|, block) {
      var i :| 0 <= i < |infos| && Contents(m, tab, infos, zs)[i].None?;
      assert NewBytes(m, ModuleAt(m, tab, i), infos[i], zs[i]).None?;
    }
  }

  /** mbi_relocate_modules. The modules go to the highest free block below physMax; they stay where
      they are if there is none, or if some module ends above its start. */
  method RelocateModules(mem: array<byte>, mbi: u32, uncompress: bool, physMax: u64, ghost zs: seq<Zip>,
                         ghost es: seq<Entry>, ghost infos: seq<Info>, ghost size: u32)
    returns (r: Relocation, ghost target: Option<u32>)
    requires mem.Length == SIZE && ModulesOk(mem[..], mbi, uncompress, zs, infos, size)
    requires MapOk(mem[..], mbi, es, size, physMax)
    requires forall t: nat :: Highest(es, size, physMax, t) ==> TargetOk(mem[..], Table(mem[..], mbi), infos, t, zs)
    modifies mem
    ensures target.Some? ==> Highest(es, size, physMax, target.value)
    ensures target.None? ==> NoRoom(es, size, physMax)
    ensures r.Relocated? ==> target == Some(r.block)
    ensures !r.Relocated? && target.Some? ==>
      (exists i :: 0 <= i < |infos| && old(ModuleAt(mem[..], Table(mem[..], mbi), i)).end > target.value) ||
      exists i :: 0 <= i < |infos| && infos[i].inflated.Some? && !zs[i].sound
    ensures Decided(old(mem[..]), mem[..], Table(old(mem[..]), mbi), infos, target, zs, r)
  {
    var g: TinfTables.Tables? := null;
    if uncompress {
      g := new TinfTables.Tables();
    }
    var n, tab := Count(mem[..], mbi), Table(mem[..], mbi);
    var notes, bytes, needInflate := Survey(mem, tab, n, uncompress, zs);
    var found, block, blockLen := FindMemory(mem, mbi, bytes, true, physMax, es);
    FoundHighest(es, size, physMax, found, block);
    if found {
      target := Some(block);
      TargetFits(mem[..], tab, infos, block, uncompress, zs);
      SeparatedInOrder(mem[..], tab, infos, block);
      ghost var m := mem[..];
      r := MoveTo(mem, tab, notes, block, blockLen, bytes, needInflate, g, zs);
      NotMoved(m, mem[..], tab, infos, block, zs, r);
    } else {
      target := None;
      r := if needInflate then Halted else Kept;
    }
  }

  // ---------- what a relocation achieves ----------

  /** The modules stand in order, page by page, without overlap, and fill the block exactly. */
  lemma ModulesInOrder(infos: seq<Info>, block: nat, i: nat, j: nat)
    requires i < j <= |infos|
    ensures Place(infos, block, 0) == block && Place(infos, block, |infos|) == block + Offset(infos, |infos|)
    ensures Place(infos, block, i) + Payload(infos[i]) + infos[i].slen <= Place(infos, block, j)
    ensures Place(infos, block, i + 1) < Place(infos, block, i) + Payload(infos[i]) + infos[i].slen + 0x1000
    ensures (Place(infos, block, j) - block) % 0x1000 == 0 && Place(infos, block, j) <= Place(infos, block, |infos|)
  {
    OffsetMonotone(infos, i, j);
    OffsetMonotone(infos, j, |infos|);
  }

  lemma AtSlice(m: seq<byte>, a: nat, w: seq<byte>)
    requires At(m, a, w)
    ensures m[a..a + |w|] == w
  {
  }

  lemma Standing(m: seq<byte>, tab: nat, i: nat, t: nat, x: Info, w: seq<byte>, cmd: seq<byte>)
    requires StandsAt(m, tab, i, t, x, w, cmd) && |w| == Payload(x) && |cmd| == x.slen
    ensures var d := ModuleAt(m, tab, i);
      d.start == t <= d.end == d.str && d.str + x.slen <= SIZE && m[d.start..d.end] == w && CommandLine(m, d, x) == cmd
  {
    AtSlice(m, t, w);
    AtSlice(m, EndAt(t, x), cmd);
  }

  /** Each module has its bytes, at its new place, and its command line right behind it. */
  lemma ModuleMoved(m: seq<byte>, m': seq<byte>, tab: nat, infos: seq<Info>, block: nat, ws: seq<Content>, i: nat)
    requires Movable(m, tab, infos, block, ws) && PlacedFrom(m, m', tab, infos, block, ws, 0) && i < |infos|
    ensures SeparatedAt(m, tab, infos, block, i)
    ensures var d, d' := ModuleAt(m, tab, i), ModuleAt(m', tab, i);
      d'.start == Place(infos, block, i) <= d'.end == d'.str && d'.str + infos[i].slen <= SIZE &&
      ws[i] == Some(m'[d'.start..d'.end]) &&
      CommandLine(m', d', infos[i]) == CommandLine(m, d, infos[i])
  {
    assert SeparatedAt(m, tab, infos, block, i) && Placed(m, m', tab, infos, block, ws, i) && ContentAt(m, tab, infos, ws, i);
    OffsetMonotone(infos, i, |infos|);
    var d, x, t := ModuleAt(m, tab, i), infos[i], Place(infos, block, i);
    Standing(m', tab, i, t, x, ws[i].value, CommandLine(m, d, x));
  }

  lemma {:induction false} StringIs(m: seq<byte>, a: nat, w: seq<byte>)
    requires At(m, a, w + [0]) && forall k :: 0 <= k < |w| ==> w[k] != 0
    ensures StringLength(m, a) == |w|
    decreases |w|
  {
    assert m[a] == (w + [0])[0];
    if |w| > 0 {
      AtSplit(m, a, [w[0]], a + 1, w[1..] + [0]);
      assert [w[0]] + (w[1..] + [0]) == w + [0];
      StringIs(m, a + 1, w[1..]);
    }
  }

  /** What is noted of a module whose command line is `w`: the lengths of both, with the terminator,
      and the size that the query promises where it is to be inflated. */
  lemma ModuleNotes(m: seq<byte>, tab: nat, n: nat, uncompress: bool, zs: seq<Zip>, i: nat, w: seq<byte>)
    requires TableOk(m, tab, n) && ZipsOk(m, tab, n, uncompress, zs) && i < n
    requires At(m, ModuleAt(m, tab, i).str, w + [0]) && forall k :: 0 <= k < |w| ==> w[k] != 0
    ensures var d, x := ModuleAt(m, tab, i), Infos(m, tab, n, uncompress, zs)[i];
      x.modlen == d.end - d.start && x.slen == |w| + 1 &&
      x.inflated == (if uncompress && zs[i].queried then Some(zs[i].size) else None)
  {
    StringIs(m, ModuleAt(m, tab, i).str, w);
    InfosAt(m, tab, n, uncompress, zs, i);
  }

  lemma SameCommandLine(m: seq<byte>, d: Module, m': seq<byte>, d': Module, x: Info, w: seq<byte>)
    requires d.str + x.slen <= |m| && d'.str + x.slen <= |m'| && CommandLine(m', d', x) == CommandLine(m, d, x)
    requires At(m, d.str, w) && x.slen == |w|
    ensures At(m', d'.str, w)
  {
    forall k | d'.str <= k < d'.str + |w| ensures m'[k] == w[k - d'.str] {
      assert CommandLine(m', d', x)[k - d'.str] == CommandLine(m, d, x)[k - d'.str];
    }
  }

  /** The command line is moved with its terminator. */
  lemma CommandLineMoved(m: seq<byte>, m': seq<byte>, tab: nat, infos: seq<Info>, block: nat, ws: seq<Content>, i: nat, w: seq<byte>)
    requires Movable(m, tab, infos, block, ws) && PlacedFrom(m, m', tab, infos, block, ws, 0) && i < |infos|
    requires At(m, ModuleAt(m, tab, i).str, w + [0]) && infos[i].slen == |w| + 1
    ensures At(m', ModuleAt(m', tab, i).str, w + [0])
  {
    ModuleMoved(m, m', tab, infos, block, ws, i);
    SameCommandLine(m, ModuleAt(m, tab, i), m', ModuleAt(m', tab, i), infos[i], w + [0]);
  }

  /** `w` is what becomes of module d: the expansion of a member that the checks accept, or the
      bytes of the module. */
  ghost predicate Delivered(m: seq<byte>, d: Module, z: Zip, w: seq<byte>)
    requires d.start <= d.end <= |m| && d.start + 4 <= |m|
  {
    var src, len := m[d.start..], Length(d);
    if IsMember(src, z) then
      8 <= len && Gzip.Sound(src, len, z.bs) && |w| == Gzip.StoredLength(src, len) &&
      DeflateFormat.StreamOut(z.bs, 0, []) == Some(w)
    else w == m[d.start..d.end]
  }

  lemma MemberDelivered(m: seq<byte>, d: Module, z: Zip)
    requires d.start + 4 <= d.end <= |m| && Compressed(m[d.start..d.end], z) && z.sound
    ensures Delivered(m, d, z, z.out)
  {
    CompressedMeans(m[d.start..d.end], m[d.start..], Length(d), z);
  }

  lemma DeliveredAt(m: seq<byte>, d: Module, z: Zip, w: seq<byte>)
    requires d.end <= |m| && Zippable(m, d, z)
    requires z.queried ==> Compressed(m[d.start..d.end], z) && z.sound && w == z.out
    requires !z.queried ==> w == m[d.start..d.end]
    ensures Delivered(m, d, z, w)
  {
    if z.queried {
      CompressedLong(m[d.start..d.end], z);
      MemberDelivered(m, d, z);
    }
  }

  lemma ContentDelivered(m: seq<byte>, tab: nat, infos: seq<Info>, block: nat, zs: seq<Zip>, i: nat, w: seq<byte>)
    requires TableOk(m, tab, |infos|) && ZipsOk(m, tab, |infos|, true, zs) && infos == Infos(m, tab, |infos|, true, zs)
    requires TargetOk(m, tab, infos, block, zs)
    requires i < |infos| && NewBytes(m, ModuleAt(m, tab, i), infos[i], zs[i]) == Some(w)
    ensures Delivered(m, ModuleAt(m, tab, i), zs[i], w)
  {
    assert ContainedAt(m, tab, infos, block, zs, i);
    DeliveredAt(m, ModuleAt(m, tab, i), zs[i], w);
  }

  /** A relocation with decompression turns each gzip member into what it holds, of the length it
      promises, with its command line right behind; other modules keep their bytes. */
  lemma ModuleInflated(m: seq<byte>, m': seq<byte>, tab: nat, infos: seq<Info>, target: Option<u32>, zs: seq<Zip>, r: Relocation,
                       i: nat)
    requires TableOk(m, tab, |infos|) && ZipsOk(m, tab, |infos|, true, zs) && infos == Infos(m, tab, |infos|, true, zs)
    requires target.Some? ==> TargetOk(m, tab, infos, target.value, zs)
    requires Decided(m, m', tab, infos, target, zs, r) && r.Relocated? && i < |infos|
    ensures var d, d' := ModuleAt(m, tab, i), ModuleAt(m', tab, i);
      d'.start == Place(infos, r.block, i) <= d'.end == d'.str && d'.str + infos[i].slen <= SIZE &&
      CommandLine(m', d', infos[i]) == CommandLine(m, d, infos[i]) &&
      Delivered(m, d, zs[i], m'[d'.start..d'.end])
  {
    ghost var ws := Contents(m, tab, infos, zs);
    ModuleMoved(m, m', tab, infos, r.block, ws, i);
    AllPlaced(m, m', tab, infos, r.block, ws);
    ContentDelivered(m, tab, infos, r.block, zs, i, ws[i].value);
  }

  /** There is a block, and the modules lie below it. */
  ghost predicate HasRoom(m: seq<byte>, tab: nat, n: nat, target: Option<u32>)
    requires tab + 16 * n <= |m|
  {
    target.Some? && AllBelow(m, tab, n, target.value)
  }

  /** Module d makes the relocator halt. */
  ghost predicate HaltsAt(m: seq<byte>, d: Module, z: Zip, movable: bool)
    requires d.start <= d.end <= |m| && d.start + 4 <= |m|
  {
    Fatal(m[d.start..], Length(d), z, movable)
  }

  lemma SoundHalts(m: seq<byte>, d: Module, z: Zip)
    requires d.start + 4 <= d.end <= |m| && Compressed(m[d.start..d.end], z)
    ensures HaltsAt(m, d, z, true) <==> !z.sound
  {
    CompressedFatal(m[d.start..d.end], m[d.start..], Length(d), z);
  }

  lemma StuckHalts(m: seq<byte>, d: Module, z: Zip, movable: bool)
    requires d.end <= |m| && Zippable(m, d, z) && (movable && z.queried ==> Compressed(m[d.start..d.end], z))
    ensures HaltsAt(m, d, z, movable) <==> Stuck(z, movable)
  {
    if movable && z.queried {
      CompressedLong(m[d.start..d.end], z);
      SoundHalts(m, d, z);
    }
  }

  lemma StuckModule(m: seq<byte>, tab: nat, infos: seq<Info>, target: Option<u32>, zs: seq<Zip>, i: nat)
    requires TableOk(m, tab, |infos|) && ZipsOk(m, tab, |infos|, true, zs) && i < |infos|
    requires infos == Infos(m, tab, |infos|, true, zs)
    requires target.Some? ==> TargetOk(m, tab, infos, target.value, zs)
    ensures var movable := HasRoom(m, tab, |infos|, target);
      HaltsAt(m, ModuleAt(m, tab, i), zs[i], movable) <==> Stuck(zs[i], movable)
  {
    if target.Some? && zs[i].queried {
      assert ContainedAt(m, tab, infos, target.value, zs, i);
    }
    StuckHalts(m, ModuleAt(m, tab, i), zs[i], HasRoom(m, tab, |infos|, target));
  }

  lemma MovedHalts(m: seq<byte>, m': seq<byte>, tab: nat, infos: seq<Info>, block: u32, ws: seq<Content>, r: Relocation)
    requires Moved(m, m', tab, infos, block, ws, r)
    ensures r.Halted? <==> exists i :: 0 <= i < |infos| && ws[i].None?
  {
  }

  lemma {:induction false} AnyInflatedIff(infos: seq<Info>, i: nat)
    requires i <= |infos|
    ensures AnyInflated(infos, i) <==> exists k :: 0 <= k < i && infos[k].inflated.Some?
  {
    if i > 0 {
      AnyInflatedIff(infos, i - 1);
    }
  }

  lemma StuckIff(m: seq<byte>, m': seq<byte>, tab: nat, infos: seq<Info>, target: Option<u32>, uncompress: bool, zs: seq<Zip>,
                 r: Relocation)
    requires TableOk(m, tab, |infos|) && ZipsOk(m, tab, |infos|, uncompress, zs)
    requires infos == Infos(m, tab, |infos|, uncompress, zs) && Decided(m, m', tab, infos, target, zs, r)
    ensures r.Halted? <==>
      uncompress && exists i :: 0 <= i < |infos| && Stuck(zs[i], HasRoom(m, tab, |infos|, target))
  {
    forall i | 0 <= i < |infos|
      ensures infos[i].inflated.Some? <==> uncompress && Stuck(zs[i], false)
      ensures Contents(m, tab, infos, zs)[i].None? <==> uncompress && Stuck(zs[i], true)
    {
      InflatedIff(m, ModuleAt(m, tab, i), infos[i], uncompress, zs[i]);
    }
    if HasRoom(m, tab, |infos|, target) {
      MovedHalts(m, m', tab, infos, target.value, Contents(m, tab, infos, zs), r);
    } else {
      AnyInflatedIff(infos, |infos|);
    }
  }

  /** The relocator halts exactly if it is to inflate a gzip member and the modules cannot be
      moved, or the member is not sound. */
  lemma HaltsIff(m: seq<byte>, m': seq<byte>, tab: nat, infos: seq<Info>, target: Option<u32>, uncompress: bool, zs: seq<Zip>,
                 r: Relocation)
    requires TableOk(m, tab, |infos|) && ZipsOk(m, tab, |infos|, uncompress, zs)
    requires infos == Infos(m, tab, |infos|, uncompress, zs) && Decided(m, m', tab, infos, target, zs, r)
    requires target.Some? ==> TargetOk(m, tab, infos, target.value, zs)
    ensures r.Halted? <==>
      uncompress && exists i :: 0 <= i < |infos| && HaltsAt(m, ModuleAt(m, tab, i), zs[i], HasRoom(m, tab, |infos|, target))
  {
    var movable := HasRoom(m, tab, |infos|, target);
    if uncompress {
      forall i | 0 <= i < |infos| ensures HaltsAt(m, ModuleAt(m, tab, i), zs[i], movable) <==> Stuck(zs[i], movable) {
        StuckModule(m, tab, infos, target, zs, i);
      }
    }
    StuckIff(m, m', tab, infos, target, uncompress, zs, r);
  }

  /** The notes of a first pass after a relocation. */
  ghost function Settled(infos: seq<Info>): (r: seq<Info>)
    ensures |r| == |infos|
  {
    seq(|infos|, i requires 0 <= i < |infos| => Info(Payload(infos[i]), infos[i].slen, None))
  }

  lemma {:induction false} SettledOffset(infos: seq<Info>, i: nat)
    requires i <= |infos|
    ensures Offset(Settled(infos), i) == Offset(infos, i)
  {
    if i > 0 {
      SettledOffset(infos, i - 1);
      assert Payload(Settled(infos)[i - 1]) == Payload(infos[i - 1]);
    }
  }

  lemma {:induction false} StringLengthCopied(m: seq<byte>, a: nat, m': seq<byte>, b: nat, n: nat)
    requires a + n <= |m| && b + n <= |m'| && m[a..a + n] == m'[b..b + n] && StringLength(m, a) < n
    ensures StringLength(m', b) == StringLength(m, a)
    decreases n
  {
    assert m[a] == m[a..a + n][0] && m'[b] == m'[b..b + n][0];
    if m[a] != 0 {
      assert m[a + 1..a + n] == m[a..a + n][1..] && m'[b + 1..b + n] == m'[b..b + n][1..];
      StringLengthCopied(m, a + 1, m', b + 1, n - 1);
    }
  }

  /** The table of a first pass, as far as the command lines are concerned. */
  ghost predicate Noted(m: seq<byte>, tab: nat, infos: seq<Info>) {
    TableOk(m, tab, |infos|) &&
    forall i :: 0 <= i < |infos| ==> infos[i].slen == StringLength(m, ModuleAt(m, tab, i).str) + 1
  }

  lemma InfosNoted(m: seq<byte>, tab: nat, infos: seq<Info>, uncompress: bool, zs: seq<Zip>)
    requires TableOk(m, tab, |infos|) && ZipsOk(m, tab, |infos|, uncompress, zs)
    requires infos == Infos(m, tab, |infos|, uncompress, zs)
    ensures Noted(m, tab, infos)
  {
  }

  lemma CommandLineLength(m: seq<byte>, d: Module, m': seq<byte>, d': Module, x: Info)
    requires d.str + x.slen <= |m| && d'.str + x.slen <= |m'| && CommandLine(m, d, x) == CommandLine(m', d', x)
    requires StringLength(m, d.str) + 1 == x.slen
    ensures StringLength(m', d'.str) + 1 == x.slen
  {
    StringLengthCopied(m, d.str, m', d'.str, x.slen);
  }

  lemma SecondLookAt(m: seq<byte>, m': seq<byte>, tab: nat, infos: seq<Info>, block: nat, ws: seq<Content>, i: nat)
    requires Movable(m, tab, infos, block, ws) && Noted(m, tab, infos) && i < |infos|
    requires PlacedFrom(m, m', tab, infos, block, ws, 0)
    ensures ModuleOk(m', ModuleAt(m', tab, i)) && StringLength(m', ModuleAt(m', tab, i).str) + 1 == infos[i].slen
    ensures PointsTo(m', tab, i, Place(infos, block, i), infos[i])
  {
    ModuleMoved(m, m', tab, infos, block, ws, i);
    assert Placed(m, m', tab, infos, block, ws, i);
    CommandLineLength(m, ModuleAt(m, tab, i), m', ModuleAt(m', tab, i), infos[i]);
  }

  lemma SettledTarget(m: seq<byte>, tab: nat, infos: seq<Info>, block: nat, zs: seq<Zip>)
    requires Separated(m, tab, infos, block) && |zs| == |infos|
    requires forall i :: 0 <= i < |infos| ==> infos[i].inflated.None?
    ensures TargetOk(m, tab, infos, block, zs)
  {
  }

  lemma SettledInfo(m: seq<byte>, d: Module, x: Info, z: Zip)
    requires ModuleOk(m, d) && StringLength(m, d.str) + 1 == x.slen && d.end == d.start + Payload(x)
    ensures InfoOf(m, d, false, z) == Info(Payload(x), x.slen, None)
  {
  }

  lemma SecondSeparated(m: seq<byte>, m': seq<byte>, tab: nat, infos: seq<Info>, block: nat, ws: seq<Content>)
    requires Movable(m, tab, infos, block, ws) && Noted(m, tab, infos)
    requires PlacedFrom(m, m', tab, infos, block, ws, 0)
    ensures Separated(m', tab, Settled(infos), block)
  {
    var again := Settled(infos);
    SettledOffset(infos, |infos|);
    forall i | 0 <= i < |infos| ensures SeparatedAt(m', tab, again, block, i) {
      SecondLookAt(m, m', tab, infos, block, ws, i);
      SettledOffset(infos, i);
      ModulesInOrder(infos, block, i, |infos|);
    }
  }

  /** After a relocation the first pass finds the same sizes, and everything where it goes. */
  lemma SecondLook(m: seq<byte>, m': seq<byte>, tab: nat, infos: seq<Info>, block: nat, ws: seq<Content>,
                   zs: seq<Zip>)
    requires Movable(m, tab, infos, block, ws) && Noted(m, tab, infos) && |zs| == |infos|
    requires PlacedFrom(m, m', tab, infos, block, ws, 0)
    ensures TableOk(m', tab, |infos|) && ZipsOk(m', tab, |infos|, false, zs)
    ensures Infos(m', tab, |infos|, false, zs) == Settled(infos)
    ensures TargetOk(m', tab, Settled(infos), block, zs)
  {
    forall i | 0 <= i < |infos|
      ensures ModuleOk(m', ModuleAt(m', tab, i)) && InfoOf(m', ModuleAt(m', tab, i), false, zs[i]) == Settled(infos)[i]
    {
      SecondLookAt(m, m', tab, infos, block, ws, i);
      SettledInfo(m', ModuleAt(m', tab, i), infos[i], zs[i]);
    }
    SecondSeparated(m, m', tab, infos, block, ws);
    SettledTarget(m', tab, Settled(infos), block, zs);
  }

  /** Unless the only module is empty, some module then reaches above the start of the block, so
      that a second call does not move anything. */
  lemma SecondOverlap(m: seq<byte>, m': seq<byte>, tab: nat, infos: seq<Info>, block: nat, ws: seq<Content>)
    requires Movable(m, tab, infos, block, ws) && Noted(m, tab, infos)
    requires PlacedFrom(m, m', tab, infos, block, ws, 0)
    requires |infos| > 1 || (|infos| == 1 && Payload(infos[0]) > 0)
    ensures !AllBelow(m', tab, |infos|, block)
  {
    var last := |infos| - 1;
    SecondLookAt(m, m', tab, infos, block, ws, last);
    if last > 0 {
      ModulesInOrder(infos, block, 0, last);
      assert SeparatedAt(m, tab, infos, block, 0);
    }
    assert ModuleAt(m', tab, last).end > block;
  }

  lemma SameHalfBytes(m: seq<byte>, m': seq<byte>, a: nat)
    requires a + 2 <= |m| && a + 2 <= |m'| && Half(m, a) == Half(m', a)
    ensures m[a] == m'[a] && m[a + 1] == m'[a + 1]
  {
  }

  lemma SameWordBytes(m: seq<byte>, m': seq<byte>, a: nat)
    requires a + 4 <= |m| && a + 4 <= |m'| && Word(m, a) == Word(m', a)
    ensures forall k :: a <= k < a + 4 ==> m[k] == m'[k]
  {
    assert Half(m, a) == Half(m', a) && Half(m, a + 2) == Half(m', a + 2);
    SameHalfBytes(m, m', a);
    SameHalfBytes(m, m', a + 2);
  }

  lemma PlacedInPlaceAt(m: seq<byte>, m': seq<byte>, tab: nat, infos: seq<Info>, block: nat, ws: seq<Content>, k: nat, a: nat)
    requires Movable(m, tab, infos, block, ws) && k < |infos| && Placed(m, m', tab, infos, block, ws, k)
    requires infos[k].inflated.None? && a < SIZE && |m'| == SIZE
    requires PointsTo(m, tab, k, Place(infos, block, k), infos[k])
    requires InUse(a, tab, infos, block, k)
    ensures m'[a] == m[a]
  {
    assert SeparatedAt(m, tab, infos, block, k) && ContentAt(m, tab, infos, ws, k);
    if tab + 16 * k <= a < tab + 16 * k + 12 {
      SameWordBytes(m, m', tab + 16 * k);
      SameWordBytes(m, m', tab + 16 * k + 4);
      SameWordBytes(m, m', tab + 16 * k + 8);
    }
  }

  /** Placing modules that stand where they go changes nothing. */
  lemma PlacedInPlace(m: seq<byte>, m': seq<byte>, tab: nat, infos: seq<Info>, block: nat, ws: seq<Content>)
    requires Movable(m, tab, infos, block, ws) && PlacedFrom(m, m', tab, infos, block, ws, 0)
    requires forall i :: 0 <= i < |infos| ==> infos[i].inflated.None?
    requires forall i :: 0 <= i < |infos| ==> PointsTo(m, tab, i, Place(infos, block, i), infos[i])
    ensures m' == m
  {
    forall a | 0 <= a < SIZE ensures m'[a] == m[a] {
      if !Idle(a, tab, infos, block, 0) {
        var k :| 0 <= k < |infos| && InUse(a, tab, infos, block, k);
        PlacedInPlaceAt(m, m', tab, infos, block, ws, k, a);
      }
    }
  }

  /** The boot information and the memory map lie outside the table and the block. */
  ghost predicate MapApart(m: seq<byte>, mbi: nat, es: seq<Entry>, tab: nat, n: nat, block: nat, size: nat)
    requires mbi + 52 <= |m|
  {
    var p := Word(m, mbi + 48);
    Apart(mbi, 52, tab, 16 * n) && Apart(mbi, 52, block, size) &&
    Apart(p, AddressOf(p, es, |es|) - p, tab, 16 * n) && Apart(p, AddressOf(p, es, |es|) - p, block, size)
  }

  lemma SameEntryAt(m: seq<byte>, m': seq<byte>, a: nat)
    requires a + 24 <= |m| && Same(m, m', a, a + 24)
    ensures EntryAt(m, a) == EntryAt(m', a)
  {
  }

  lemma SameMap(m: seq<byte>, m': seq<byte>, p: nat, end: nat, es: seq<Entry>)
    requires MapAt(m, p, end, es) && |m| == |m'| && Same(m, m', p, AddressOf(p, es, |es|))
    ensures MapAt(m', p, end, es)
  {
    forall i | 0 <= i < |es| ensures Stands(m', p, end, es, i) {
      EntryWithin(m, p, end, es, i);
      SameEntryAt(m, m', AddressOf(p, es, i));
    }
  }

  lemma AddressesGrow(m: seq<byte>, p: nat, end: nat, es: seq<Entry>)
    requires MapAt(m, p, end, es)
    ensures p <= AddressOf(p, es, |es|)
  {
    if |es| > 0 {
      EntryWithin(m, p, end, es, 0);
    }
  }

  /** Neither has changed after a relocation. */
  lemma SameBoot(m: seq<byte>, m': seq<byte>, mbi: nat, es: seq<Entry>, physMax: u64, infos: seq<Info>, size: u32, block: nat,
                 ws: seq<Content>)
    requires MapOk(m, mbi, es, size, physMax) && size == Offset(infos, |infos|) && |infos| == Count(m, mbi)
    requires Movable(m, Table(m, mbi), infos, block, ws)
    requires PlacedFrom(m, m', Table(m, mbi), infos, block, ws, 0)
    requires MapApart(m, mbi, es, Table(m, mbi), |infos|, block, size)
    ensures MapOk(m', mbi, es, size, physMax) && Count(m', mbi) == Count(m, mbi) && Table(m', mbi) == Table(m, mbi)
  {
    BelowIsIdle(Table(m, mbi), infos, block, 0);
    var p := Word(m, mbi + 48);
    AddressesGrow(m, p, MapEnd(m, mbi), es);
    assert Same(m, m', mbi, mbi + 52);
    SameMapFields(m, m', mbi);
    assert Same(m, m', p, AddressOf(p, es, |es|));
    SameMap(m, m', p, MapEnd(m, mbi), es);
  }

  /** The relocator may run once more. */
  lemma AgainReady(m0: seq<byte>, m1: seq<byte>, mbi: nat, physMax: u64, zs: seq<Zip>, es: seq<Entry>, infos: seq<Info>,
                   size: u32, block: u32, ws: seq<Content>)
    requires |m0| == SIZE && mbi + 52 <= SIZE && |infos| == Count(m0, mbi) == |zs|
    requires Noted(m0, Table(m0, mbi), infos) && Movable(m0, Table(m0, mbi), infos, block, ws)
    requires PlacedFrom(m0, m1, Table(m0, mbi), infos, block, ws, 0)
    requires size == Offset(infos, |infos|) > 0 && MapOk(m0, mbi, es, size, physMax)
    requires MapApart(m0, mbi, es, Table(m0, mbi), |infos|, block, size)
    ensures ModulesOk(m1, mbi, false, zs, Settled(infos), size) && MapOk(m1, mbi, es, size, physMax)
    ensures Table(m1, mbi) == Table(m0, mbi) && TargetOk(m1, Table(m0, mbi), Settled(infos), block, zs)
  {
    SameBoot(m0, m1, mbi, es, physMax, infos, size, block, ws);
    SecondLook(m0, m1, Table(m0, mbi), infos, block, ws, zs);
    SettledOffset(infos, |infos|);
  }

  lemma MovedInPlace(m: seq<byte>, m': seq<byte>, tab: nat, infos: seq<Info>, block: u32, ws: seq<Content>, r: Relocation)
    requires Moved(m, m', tab, infos, block, ws, r)
    requires forall i :: 0 <= i < |infos| ==> infos[i].inflated.None?
    requires forall i :: 0 <= i < |infos| ==> PointsTo(m, tab, i, Place(infos, block, i), infos[i])
    ensures m' == m && !r.Halted?
  {
    forall i | 0 <= i < |infos| ensures ws[i].Some? {
      assert ContentAt(m, tab, infos, ws, i);
    }
    PlacedInPlace(m, m', tab, infos, block, ws);
  }

  lemma {:induction false} NothingInflated(infos: seq<Info>, i: nat)
    requires i <= |infos|
    ensures !AnyInflated(Settled(infos), i)
  {
    if i > 0 {
      NothingInflated(infos, i - 1);
    }
  }

  lemma SettledPointers(m: seq<byte>, m': seq<byte>, tab: nat, infos: seq<Info>, block: nat, ws: seq<Content>)
    requires Movable(m, tab, infos, block, ws) && Noted(m, tab, infos)
    requires PlacedFrom(m, m', tab, infos, block, ws, 0)
    ensures forall i :: 0 <= i < |infos| ==> PointsTo(m', tab, i, Place(Settled(infos), block, i), Settled(infos)[i])
  {
    forall i | 0 <= i < |infos|
      ensures PointsTo(m', tab, i, Place(Settled(infos), block, i), Settled(infos)[i])
    {
      SecondLookAt(m, m', tab, infos, block, ws, i);
      SettledOffset(infos, i);
    }
  }

  lemma SecondChangesNothing(m0: seq<byte>, m1: seq<byte>, m2: seq<byte>, tab: nat, infos: seq<Info>, block: u32,
                             ws: seq<Content>, zs: seq<Zip>, r: Relocation)
    requires Movable(m0, tab, infos, block, ws) && Noted(m0, tab, infos)
    requires PlacedFrom(m0, m1, tab, infos, block, ws, 0)
    requires Decided(m1, m2, tab, Settled(infos), Some(block), zs, r)
    ensures m2 == m1 && !r.Halted?
  {
    NothingInflated(infos, |infos|);
    if AllBelow(m1, tab, |infos|, block) {
      SettledPointers(m0, m1, tab, infos, block, ws);
      MovedInPlace(m1, m2, tab, Settled(infos), block, Contents(m1, tab, Settled(infos), zs), r);
    }
  }

  /** The second call. */
  method RelocateAgain(mem: array<byte>, mbi: u32, physMax: u64, ghost zs: seq<Zip>, ghost es: seq<Entry>,
                       ghost infos: seq<Info>, ghost size: u32, ghost m0: seq<byte>, ghost block: u32,
                       ghost ws: seq<Content>)
    requires mem.Length == SIZE && |m0| == SIZE && mbi + 52 <= SIZE && |infos| == Count(m0, mbi) == |zs|
    requires Noted(m0, Table(m0, mbi), infos) && Movable(m0, Table(m0, mbi), infos, block, ws)
    requires PlacedFrom(m0, mem[..], Table(m0, mbi), infos, block, ws, 0)
    requires size == Offset(infos, |infos|) > 0 && MapOk(m0, mbi, es, size, physMax)
    requires Highest(es, size, physMax, block) && MapApart(m0, mbi, es, Table(m0, mbi), |infos|, block, size)
    modifies mem
    ensures mem[..] == old(mem[..])
  {
    ghost var m1 := mem[..];
    AgainReady(m0, m1, mbi, physMax, zs, es, infos, size, block, ws);
    forall t: nat | Highest(es, size, physMax, t) ensures TargetOk(m1, Table(m1, mbi), Settled(infos), t, zs) {
      OneHighest(es, size, physMax, block, t);
    }
    var r;
    ghost var target;
    r, target := RelocateModules(mem, mbi, false, physMax, zs, es, Settled(infos), size);
    OneHighest(es, size, physMax, block, target.value);
    SecondChangesNothing(m0, m1, mem[..], Table(m0, mbi), infos, block, ws, zs, r);
  }

  /** A second call, without inflation, changes nothing. */
  method RelocateTwice(mem: array<byte>, mbi: u32, uncompress: bool, physMax: u64, ghost zs: seq<Zip>,
                       ghost es: seq<Entry>, ghost infos: seq<Info>, ghost size: u32)
    returns (r: Relocation, ghost target: Option<u32>, ghost once: seq<byte>)
    requires mem.Length == SIZE && ModulesOk(mem[..], mbi, uncompress, zs, infos, size)
    requires MapOk(mem[..], mbi, es, size, physMax)
    requires forall t: nat :: Highest(es, size, physMax, t) ==>
      TargetOk(mem[..], Table(mem[..], mbi), infos, t, zs) && MapApart(mem[..], mbi, es, Table(mem[..], mbi), |infos|, t, size)
    modifies mem
    ensures target.Some? ==> Highest(es, size, physMax, target.value)
    ensures target.None? ==> NoRoom(es, size, physMax)
    ensures Decided(old(mem[..]), once, Table(old(mem[..]), mbi), infos, target, zs, r)
    ensures mem[..] == once
  {
    ghost var m0 := mem[..];
    r, target := RelocateModules(mem, mbi, uncompress, physMax, zs, es, infos, size);
    once := mem[..];
    if r.Relocated? {
      InfosNoted(m0, Table(m0, mbi), infos, uncompress, zs);
      RelocateAgain(mem, mbi, physMax, zs, es, infos, size, m0, r.block, Contents(m0, Table(m0, mbi), infos, zs));
    }
  }
}
