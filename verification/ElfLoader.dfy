/** The ELF loader (standalone/elf.c): a tiny compiler from program headers to x86 code. */
module ElfLoader {
  import opened Words
  import opened Memory
  import opened X86

  /** Where the generated code goes. */
  const CODE := 0x7C00
  /** The value in EAX by which a kernel recognises its loader. */
  const MBI_MAGIC: u32 := 0x2BADB002

  // ---------- ELF headers ----------

  datatype Class = Elf32 | Elf64

  function HeaderSize(l: Class): nat {
    match l case Elf32 => 52 case Elf64 => 64
  }

  /** sizeof(struct ph) or sizeof(struct ph64). */
  function PhSize(l: Class): nat {
    match l case Elf32 => 32 case Elf64 => 56
  }

  predicate HasMagic(m: seq<byte>, e: nat)
    requires e + 4 <= |m|
  {
    m[e] == 0x7F && m[e + 1] == 0x45 && m[e + 2] == 0x4C && m[e + 3] == 0x46
  }

  function ClassOf(m: seq<byte>, e: nat): Option<Class>
    requires e + 5 <= |m|
  {
    if m[e + 4] == 1 then Some(Elf32) else if m[e + 4] == 2 then Some(Elf64) else None
  }

  /** An executable for the i386 or the x86-64. */
  predicate TypeOk(m: seq<byte>, e: nat)
    requires e + 24 <= |m|
  {
    Half(m, e + 16) == 2 && (Half(m, e + 18) == 3 || Half(m, e + 18) == 62) && Word(m, e + 20) == 1
  }

  function Entry(l: Class, m: seq<byte>, e: nat): u32
    requires e + HeaderSize(l) <= |m|
  {
    match l case Elf32 => Word(m, e + 24) case Elf64 => Wrap32(Quad(m, e + 24))
  }

  function PhOff(l: Class, m: seq<byte>, e: nat): u64
    requires e + HeaderSize(l) <= |m|
  {
    match l case Elf32 => Word(m, e + 28) case Elf64 => Quad(m, e + 32)
  }

  function PhEntSize(l: Class, m: seq<byte>, e: nat): nat
    requires e + HeaderSize(l) <= |m|
  {
    match l case Elf32 => Half(m, e + 42) case Elf64 => Half(m, e + 54)
  }

  function PhNum(l: Class, m: seq<byte>, e: nat): (n: nat)
    requires e + HeaderSize(l) <= |m|
    ensures n < 0x1_0000
  {
    match l case Elf32 => Half(m, e + 44) case Elf64 => Half(m, e + 56)
  }

  /** The size of i table rows. */
  function Rows(i: nat, size: nat): nat {
    i * size
  }

  /** The address of program header i. */
  ghost function PhAt(l: Class, m: seq<byte>, e: nat, i: nat): nat
    requires e + HeaderSize(l) <= |m|
  {
    e + PhOff(l, m, e) + Rows(i, PhEntSize(l, m, e))
  }

  /** A segment to load: copy `len` bytes from src to target, then clear `fill` bytes. */
  datatype Load = Load(target: u32, src: u32, len: u32, fill: u32)

  /** The segment that the program header at p describes; 64-bit fields are truncated. */
  function LoadAt(l: Class, m: seq<byte>, e: nat, p: nat): Load
    requires p + PhSize(l) <= |m|
  {
    match l
    case Elf32 =>
      Load(Word(m, p + 12), Wrap32(e + Word(m, p + 4)), Word(m, p + 16), Wrap32(Word(m, p + 20) - Word(m, p + 16)))
    case Elf64 =>
      Load(Wrap32(Quad(m, p + 24)), Wrap32(e + Quad(m, p + 8)), Wrap32(Quad(m, p + 32)),
           Wrap32(Quad(m, p + 40) - Quad(m, p + 32)))
  }

  /** All program headers lie in the image that ends at `end`. */
  ghost predicate HeadersIn(l: Class, m: seq<byte>, e: nat, end: nat) {
    e + HeaderSize(l) <= end <= |m| &&
    forall i :: 0 <= i < PhNum(l, m, e) ==> PhAt(l, m, e, i) + PhSize(l) <= end
  }

  const PT_LOAD := 1

  /** The loadable segments among the first n program headers, in order. */
  ghost function Loads(l: Class, m: seq<byte>, e: nat, end: nat, n: nat): (ls: seq<Load>)
    requires HeadersIn(l, m, e, end) && n <= PhNum(l, m, e)
    ensures |ls| <= n
  {
    if n == 0 then []
    else
      var p := PhAt(l, m, e, n - 1);
      Loads(l, m, e, end, n - 1) + (if Word(m, p) == PT_LOAD then [LoadAt(l, m, e, p)] else [])
  }

  // ---------- the code for a list of segments ----------

  ghost function SegmentCode(x: Load): (w: seq<byte>)
    ensures |w| == 24
  {
    Mov(EDI, x.target) + (Mov(ESI, x.src) + (Mov(ECX, x.len) + (REP_MOVSB + (Mov(ECX, x.fill) + REP_STOSB))))
  }

  ghost function SegmentsCode(ls: seq<Load>): (w: seq<byte>)
    ensures |w| == 24 * |ls|
  {
    if |ls| == 0 then [] else SegmentsCode(ls[..|ls| - 1]) + SegmentCode(ls[|ls| - 1])
  }

  ghost function FinalCode(entry: u32): (w: seq<byte>)
    ensures |w| == 12
  {
    Mov(EAX, MBI_MAGIC) + (Mov(EDX, entry) + JMP_EDX)
  }

  // ---------- what loading means ----------

  /** Memory after one segment has been loaded from the image as it stands in `image`. */
  ghost function Loaded(m: seq<byte>, image: seq<byte>, x: Load): (r: seq<byte>)
    requires |m| == |image| == SIZE && x.target + x.len + x.fill <= SIZE && x.src + x.len <= SIZE
    ensures |r| == SIZE
  {
    seq(SIZE, a requires 0 <= a < SIZE =>
      if x.target <= a < x.target + x.len then image[x.src + (a - x.target)]
      else if x.target + x.len <= a < x.target + x.len + x.fill then 0
      else m[a])
  }

  /** The segment fits into memory, and what is copied comes from the image lo .. hi; its target,
      unless it is empty, misses the image and the n bytes of code. */
  ghost predicate Loadable(x: Load, lo: nat, hi: nat, n: nat) {
    (x.len > 0 ==> lo <= x.src && x.src + x.len <= hi) && hi <= SIZE && x.target + x.len + x.fill <= SIZE &&
    (x.len + x.fill > 0 ==>
      Apart(x.target, x.len + x.fill, lo, hi - lo) && Apart(x.target, x.len + x.fill, CODE, n))
  }

  ghost predicate AllLoadable(ls: seq<Load>, lo: nat, hi: nat, n: nat) {
    forall i :: 0 <= i < |ls| ==> Loadable(ls[i], lo, hi, n)
  }

  /** Memory after all segments have been loaded, in order. */
  ghost function LoadAll(m: seq<byte>, ls: seq<Load>, lo: nat, hi: nat, n: nat): (r: seq<byte>)
    requires |m| == SIZE && AllLoadable(ls, lo, hi, n)
    ensures |r| == SIZE
  {
    if |ls| == 0 then m else Loaded(LoadAll(m, ls[..|ls| - 1], lo, hi, n), m, ls[|ls| - 1])
  }

  /** Loading changes neither the image nor the code. */
  lemma {:induction false} LoadAllKeeps(m: seq<byte>, ls: seq<Load>, lo: nat, hi: nat, n: nat)
    requires |m| == SIZE && AllLoadable(ls, lo, hi, n) && lo <= hi <= SIZE && CODE + n <= SIZE
    ensures Same(LoadAll(m, ls, lo, hi, n), m, lo, hi)
    ensures Same(LoadAll(m, ls, lo, hi, n), m, CODE, CODE + n)
  {
    if |ls| > 0 {
      LoadAllKeeps(m, ls[..|ls| - 1], lo, hi, n);
    }
  }

  /** Byte a of memory is in segment x. */
  predicate Covers(x: Load, a: int) {
    x.target <= a < x.target + x.len + x.fill
  }

  /** What the loaded memory holds: the last segment that covers an address decides, with its
      byte of the image or zero; all other addresses keep their value. */
  lemma {:induction false} LastSegmentDecides(m: seq<byte>, ls: seq<Load>, lo: nat, hi: nat, n: nat, a: nat, i: int)
    requires |m| == SIZE && AllLoadable(ls, lo, hi, n) && a < SIZE && -1 <= i < |ls|
    requires forall k :: i < k < |ls| ==> !Covers(ls[k], a)
    requires i >= 0 ==> Covers(ls[i], a)
    ensures LoadAll(m, ls, lo, hi, n)[a] ==
      if i < 0 then m[a] else if a < ls[i].target + ls[i].len then m[ls[i].src + (a - ls[i].target)] else 0
  {
    if |ls| > 0 && i < |ls| - 1 {
      LastSegmentDecides(m, ls[..|ls| - 1], lo, hi, n, a, i);
    }
  }

  // ---------- running the code ----------

  /** Three `mov` instructions, which load the registers of a string instruction. */
  lemma RunMovs(c: Cpu, t: u32, s: u32, n: u32, rest: seq<byte>) returns (d: Cpu)
    requires c.Valid() && c.eip + 15 < SIZE
    requires At(c.mem, c.eip, Mov(EDI, t) + (Mov(ESI, s) + (Mov(ECX, n) + rest)))
    ensures Run(c, 3) == Some(d) && d.Valid() && d.eip == c.eip + 15 && d.mem == c.mem
    ensures d.regs[EDI] == t && d.regs[ESI] == s && d.regs[ECX] == n && SameRegs(c, d)
    ensures At(d.mem, d.eip, rest)
  {
    var r2 := Mov(ECX, n) + rest;
    var r1 := Mov(ESI, s) + r2;
    AtSplit(c.mem, c.eip, Mov(EDI, t), c.eip + 5, r1);
    AtSplit(c.mem, c.eip + 5, Mov(ESI, s), c.eip + 10, r2);
    AtSplit(c.mem, c.eip + 10, Mov(ECX, n), c.eip + 15, rest);
    var d1 := RunMov(c, EDI, t);
    var d2 := RunMov(d1, ESI, s);
    d := RunMov(d2, ECX, n);
    var k := Then(c, 1, d1, 1, d2);
    k := Then(c, k, d2, 1, d);
  }

  /** The copying half of a segment. */
  lemma RunCopy(c: Cpu, x: Load, lo: nat, hi: nat, n: nat, rest: seq<byte>) returns (k: nat, d: Cpu)
    requires c.Valid() && Loadable(x, lo, hi, n) && CODE <= c.eip && c.eip + 17 + |rest| <= CODE + n < SIZE
    requires At(c.mem, c.eip, Mov(EDI, x.target) + (Mov(ESI, x.src) + (Mov(ECX, x.len) + (REP_MOVSB + rest))))
    ensures Run(c, k) == Some(d) && d.Valid() && d.eip == c.eip + 17
    ensures d.mem == Copied(c.mem, x.target, x.src, x.len) && At(d.mem, d.eip, rest)
    ensures SameRegs(c, d) && d.regs[EDI] == Advanced(x.target, x.len)
  {
    var t, s, len := x.target, x.src, x.len;
    var d3 := RunMovs(c, t, s, len, REP_MOVSB + rest);
    AtSplit(d3.mem, d3.eip, REP_MOVSB, d3.eip + 2, rest);
    assert len > 0 ==> Apart(t, len, s, len) && Apart(t, len, d3.eip, 2 + |rest|);
    AtCopied(d3.mem, t, s, len, d3.eip + 2, rest);
    var k4, d4 := RunMovsb(d3, t, s, len);
    k := Then(c, 3, d3, k4, d4);
    d := d4;
  }

  /** The clearing half of a segment. */
  lemma RunClear(c: Cpu, t: nat, fill: u32, n: nat) returns (k: nat, d: Cpu)
    requires c.Valid() && CODE <= c.eip && c.eip + 7 <= CODE + n < SIZE
    requires t + fill <= SIZE && (fill > 0 ==> Apart(t, fill, CODE, n)) && c.regs[EAX] == 0 && c.regs[EDI] == Wrap32(t)
    requires At(c.mem, c.eip, Mov(ECX, fill) + REP_STOSB)
    ensures Run(c, k) == Some(d) && d.Valid() && d.eip == c.eip + 7
    ensures d.mem == Filled(c.mem, t, fill, 0) && SameRegs(c, d)
  {
    AtSplit(c.mem, c.eip, Mov(ECX, fill), c.eip + 5, REP_STOSB);
    var d1 := RunMov(c, ECX, fill);
    var k2, d2 := RunStosb(d1, t, fill);
    k := Then(c, 1, d1, k2, d2);
    d := d2;
  }

  lemma CopyThenClear(m: seq<byte>, image: seq<byte>, x: Load)
    requires |m| == |image| == SIZE && x.target + x.len + x.fill <= SIZE && x.src + x.len <= SIZE
    requires Same(m, image, x.src, x.src + x.len)
    ensures Filled(Copied(m, x.target, x.src, x.len), x.target + x.len, x.fill, 0) == Loaded(m, image, x)
  {
  }

  /** The code of one segment loads it. */
  lemma RunSegment(c: Cpu, x: Load, lo: nat, hi: nat, n: nat, image: seq<byte>) returns (k: nat, d: Cpu)
    requires c.Valid() && Loadable(x, lo, hi, n) && CODE <= c.eip && c.eip + 24 <= CODE + n < SIZE
    requires c.regs[EAX] == 0 && At(c.mem, c.eip, SegmentCode(x))
    requires |image| == SIZE && Same(c.mem, image, lo, hi)
    ensures Run(c, k) == Some(d) && d.Valid() && d.eip == c.eip + 24
    ensures d.mem == Loaded(c.mem, image, x) && SameRegs(c, d)
  {
    var clear := Mov(ECX, x.fill) + REP_STOSB;
    var k1, d1 := RunCopy(c, x, lo, hi, n, clear);
    var k2, d2 := RunClear(d1, x.target + x.len, x.fill, n);
    CopyThenClear(c.mem, image, x);
    k := Then(c, k1, d1, k2, d2);
    d := d2;
  }

  lemma {:induction false} RunSegments(c: Cpu, ls: seq<Load>, lo: nat, hi: nat, n: nat) returns (k: nat, d: Cpu)
    requires c.Valid() && AllLoadable(ls, lo, hi, n) && lo <= hi <= SIZE
    requires c.eip == CODE && CODE + 24 * |ls| <= CODE + n < SIZE
    requires c.regs[EAX] == 0 && At(c.mem, CODE, SegmentsCode(ls))
    ensures Run(c, k) == Some(d) && d.Valid() && d.eip == CODE + 24 * |ls|
    ensures d.mem == LoadAll(c.mem, ls, lo, hi, n) && SameRegs(c, d)
  {
    if |ls| == 0 {
      k, d := 0, c;
    } else {
      var init, x := ls[..|ls| - 1], ls[|ls| - 1];
      AtSplit(c.mem, CODE, SegmentsCode(init), CODE + 24 * |init|, SegmentCode(x));
      var k1, d1 := RunSegments(c, init, lo, hi, n);
      LoadAllKeeps(c.mem, init, lo, hi, n);
      AtSame(c.mem, d1.mem, CODE, CODE + n, CODE + 24 * |init|, SegmentCode(x));
      var k2, d2 := RunSegment(d1, x, lo, hi, n, c.mem);
      k := Then(c, k1, d1, k2, d2);
      d := d2;
    }
  }

  lemma RunFinal(c: Cpu, entry: u32) returns (k: nat, d: Cpu)
    requires c.Valid() && c.eip + 12 < SIZE && At(c.mem, c.eip, FinalCode(entry))
    ensures Run(c, k) == Some(d) && d.Valid() && d.eip == entry && d.mem == c.mem
    ensures d.regs[EAX] == MBI_MAGIC && d.regs[EBX] == c.regs[EBX]
  {
    AtSplit(c.mem, c.eip, Mov(EAX, MBI_MAGIC), c.eip + 5, Mov(EDX, entry) + JMP_EDX);
    AtSplit(c.mem, c.eip + 5, Mov(EDX, entry), c.eip + 10, JMP_EDX);
    var d1 := RunMov(c, EAX, MBI_MAGIC);
    var d2 := RunMov(d1, EDX, entry);
    var d3 := RunJmp(d2);
    k := Then(c, 1, d1, 1, d2);
    d := d3;
    k := Then(c, k, d2, 1, d3);
  }

  /** Compiler correctness: started with EAX = 0, the generated code reaches the entry point with
      the magic number in EAX and EBX untouched, and memory is that of loading all segments. */
  lemma CodeLoadsImage(c: Cpu, ls: seq<Load>, entry: u32, lo: nat, hi: nat, n: nat) returns (k: nat, d: Cpu)
    requires c.Valid() && c.eip == CODE && c.regs[EAX] == 0 && |ls| < 0x1_0000 && n == 24 * |ls| + 12
    requires AllLoadable(ls, lo, hi, n) && lo <= hi <= SIZE
    requires At(c.mem, CODE, SegmentsCode(ls) + FinalCode(entry))
    ensures Run(c, k) == Some(d) && d.Valid() && d.eip == entry
    ensures d.regs[EAX] == MBI_MAGIC && d.regs[EBX] == c.regs[EBX]
    ensures d.mem == LoadAll(c.mem, ls, lo, hi, n)
  {
    var at := CODE + 24 * |ls|;
    AtSplit(c.mem, CODE, SegmentsCode(ls), CODE + 24 * |ls|, FinalCode(entry));
    var k1, d1 := RunSegments(c, ls, lo, hi, n);
    assert d1.eip == at;
    LoadAllKeeps(c.mem, ls, lo, hi, n);
    AtSame(c.mem, d1.mem, CODE, CODE + n, at, FinalCode(entry));
    var k2, d2 := RunFinal(d1, entry);
    k := Then(c, k1, d1, k2, d2);
    d := d2;
  }

  // ---------- generating the code ----------

  /** byte_out, through the moving code pointer. */
  method ByteOut(mem: array<byte>, code: nat, b: byte) returns (code': nat)
    requires code < mem.Length
    modifies mem
    ensures code' == code + 1 && Written(old(mem[..]), mem[..], code, [b])
  {
    mem[code] := b;
    code' := code + 1;
  }

  /** gen_mov. */
  method GenMov(mem: array<byte>, code: nat, reg: nat, constant: u32) returns (code': nat)
    requires code + 5 <= mem.Length && reg < 8
    modifies mem
    ensures code' == code + 5 && Written(old(mem[..]), mem[..], code, Mov(reg, constant))
  {
    assert Or(0xB8, reg) == 0xB8 + reg by {
      assert Pow2(3) == 8;
      OrDisjoint(0xB8, reg, 3);
    }
    ghost var m0 := mem[..];
    code' := ByteOut(mem, code, Or(0xB8, reg));
    ghost var m1 := mem[..];
    WriteWord(mem, code', constant);
    WrittenThen(m0, m1, mem[..], code, [0xB8 + reg], code + 1, WordBytes(constant));
    code' := code' + 4;
  }

  /** Two bytes of an instruction. */
  method GenTwo(mem: array<byte>, code: nat, b0: byte, b1: byte) returns (code': nat)
    requires code + 2 <= mem.Length
    modifies mem
    ensures code' == code + 2 && Written(old(mem[..]), mem[..], code, [b0, b1])
  {
    code' := ByteOut(mem, code, b0);
    code' := ByteOut(mem, code', b1);
  }

  /** gen_jmp_edx. */
  method GenJmpEdx(mem: array<byte>, code: nat) returns (code': nat)
    requires code + 2 <= mem.Length
    modifies mem
    ensures code' == code + 2 && Written(old(mem[..]), mem[..], code, JMP_EDX)
  {
    code' := GenTwo(mem, code, 0xFF, 0xE2);
  }

  /** gen_elf_segment. */
  method GenElfSegment(mem: array<byte>, code: nat, target: u32, src: u32, len: u32, fill: u32) returns (code': nat)
    requires code + 24 <= mem.Length
    modifies mem
    ensures code' == code + 24
    ensures Written(old(mem[..]), mem[..], code, SegmentCode(Load(target, src, len, fill)))
  {
    ghost var m0 := mem[..];
    code' := GenMov(mem, code, EDI, target);
    ghost var m1 := mem[..];
    code' := GenMov(mem, code', ESI, src);
    ghost var m2 := mem[..];
    code' := GenMov(mem, code', ECX, len);
    ghost var m3 := mem[..];
    code' := GenTwo(mem, code', 0xF3, 0xA4);
    ghost var m4 := mem[..];
    code' := GenMov(mem, code', ECX, fill);
    ghost var m5 := mem[..];
    code' := GenTwo(mem, code', 0xF3, 0xAA);
    ghost var r4 := Mov(ECX, fill) + REP_STOSB;
    ghost var r3 := REP_MOVSB + r4;
    ghost var r2 := Mov(ECX, len) + r3;
    ghost var r1 := Mov(ESI, src) + r2;
    WrittenThen(m4, m5, mem[..], code + 17, Mov(ECX, fill), code + 22, REP_STOSB);
    WrittenThen(m3, m4, mem[..], code + 15, REP_MOVSB, code + 17, r4);
    WrittenThen(m2, m3, mem[..], code + 10, Mov(ECX, len), code + 15, r3);
    WrittenThen(m1, m2, mem[..], code + 5, Mov(ESI, src), code + 10, r2);
    WrittenThen(m0, m1, mem[..], code, Mov(EDI, target), code + 5, r1);
  }

  /** The headers of an image that has not been touched read the same. */
  lemma SameHeader(l: Class, m: seq<byte>, m': seq<byte>, e: nat, end: nat)
    requires Same(m, m', e, end) && e + HeaderSize(l) <= end
    ensures PhNum(l, m, e) == PhNum(l, m', e) && PhEntSize(l, m, e) == PhEntSize(l, m', e)
    ensures PhOff(l, m, e) == PhOff(l, m', e) && Entry(l, m, e) == Entry(l, m', e)
    ensures TypeOk(m, e) <==> TypeOk(m', e)
  {
  }

  lemma SameLoad(l: Class, m: seq<byte>, m': seq<byte>, e: nat, end: nat, p: nat)
    requires Same(m, m', e, end) && e <= p && p + PhSize(l) <= end
    ensures Word(m, p) == Word(m', p) && LoadAt(l, m, e, p) == LoadAt(l, m', e, p)
  {
  }

  lemma NoWrap(a: nat, b: int)
    requires 0 <= b && a + b < WORD32
    ensures Wrap32(a + Wrap32(b)) == a + b
  {
  }

  /** The 32-bit address arithmetic of the loader does not wrap inside an image. */
  lemma PhAtWraps(l: Class, m: seq<byte>, e: nat, end: nat, i: nat)
    requires HeadersIn(l, m, e, end) && i < PhNum(l, m, e) && end <= SIZE
    ensures Wrap32(e + PhOff(l, m, e) + Wrap32(Rows(i, PhEntSize(l, m, e)))) == PhAt(l, m, e, i)
    ensures e <= PhAt(l, m, e, i) && PhAt(l, m, e, i) + PhSize(l) <= end
  {
    assert PhAt(l, m, e, i) + PhSize(l) <= end;
    NoWrap(e + PhOff(l, m, e), Rows(i, PhEntSize(l, m, e)));
  }

  datatype Failure = BadMagic | BadClass | BadType | SmallPhentsize

  /** The code is written outside the image. */
  lemma ImageUntouched(l: Class, m: seq<byte>, m': seq<byte>, e: nat, end: nat, w: seq<byte>)
    requires HeadersIn(l, m, e, end) && Written(m, m', CODE, w) && |w| <= 24 * PhNum(l, m, e) + 12
    requires Apart(e, end - e, CODE, 24 * PhNum(l, m, e) + 12)
    ensures Same(m, m', e, end) && PhNum(l, m', e) == PhNum(l, m, e)
  {
    SameHeader(l, m, m', e, end);
  }

  method HeaderAddress(mem: array<byte>, l: Class, e: nat, i: nat, ghost end: nat, ghost m0: seq<byte>) returns (p: u32)
    requires mem.Length == SIZE && HeadersIn(l, m0, e, end) && i < PhNum(l, m0, e) && Same(m0, mem[..], e, end)
    ensures p == PhAt(l, m0, e, i)
  {
    SameHeader(l, m0, mem[..], e, end);
    PhAtWraps(l, m0, e, end, i);
    p := Wrap32(e + PhOff(l, mem[..], e) + Wrap32(Rows(i, PhEntSize(l, mem[..], e))));
  }

  /** Program header i, read from memory m1 in which the image has not been touched. */
  lemma NextLoad(l: Class, m0: seq<byte>, m1: seq<byte>, e: nat, end: nat, i: nat)
    requires HeadersIn(l, m0, e, end) && i < PhNum(l, m0, e) && Same(m0, m1, e, end) && end <= SIZE
    ensures PhAt(l, m0, e, i) + PhSize(l) <= |m1|
    ensures Word(m1, PhAt(l, m0, e, i)) == PT_LOAD ==>
      Loads(l, m0, e, end, i + 1) == Loads(l, m0, e, end, i) + [LoadAt(l, m1, e, PhAt(l, m0, e, i))]
    ensures Word(m1, PhAt(l, m0, e, i)) == PT_LOAD ==>
      SegmentsCode(Loads(l, m0, e, end, i + 1)) ==
      SegmentsCode(Loads(l, m0, e, end, i)) + SegmentCode(LoadAt(l, m1, e, PhAt(l, m0, e, i)))
    ensures Word(m1, PhAt(l, m0, e, i)) != PT_LOAD ==> Loads(l, m0, e, end, i + 1) == Loads(l, m0, e, end, i)
  {
    var p, ls := PhAt(l, m0, e, i), Loads(l, m0, e, end, i);
    PhAtWraps(l, m0, e, end, i);
    SameLoad(l, m0, m1, e, end, p);
    var x := LoadAt(l, m0, e, p);
    assert (ls + [x])[..|ls|] == ls;
  }

  /** One turn of the loop of LOADER. */
  method GenHeader(mem: array<byte>, l: Class, e: nat, i: nat, code: nat, ghost end: nat, ghost m0: seq<byte>)
    returns (code': nat)
    requires mem.Length == SIZE && HeadersIn(l, m0, e, end) && i < PhNum(l, m0, e)
    requires Apart(e, end - e, CODE, 24 * PhNum(l, m0, e) + 12) && Same(m0, mem[..], e, end)
    requires Written(m0, mem[..], CODE, SegmentsCode(Loads(l, m0, e, end, i)))
    requires code == CODE + 24 * |Loads(l, m0, e, end, i)|
    modifies mem
    ensures Same(m0, mem[..], e, end) && PhNum(l, mem[..], e) == PhNum(l, m0, e)
    ensures Written(m0, mem[..], CODE, SegmentsCode(Loads(l, m0, e, end, i + 1)))
    ensures code' == CODE + 24 * |Loads(l, m0, e, end, i + 1)|
  {
    ghost var m1, ls := mem[..], Loads(l, m0, e, end, i);
    var p := HeaderAddress(mem, l, e, i, end, m0);
    NextLoad(l, m0, m1, e, end, i);
    code' := code;
    if Word(mem[..], p) == PT_LOAD {
      var x := LoadAt(l, mem[..], e, p);
      code' := GenElfSegment(mem, code, x.target, x.src, x.len, x.fill);
      WrittenThen(m0, m1, mem[..], CODE, SegmentsCode(ls), code, SegmentCode(x));
    }
    ImageUntouched(l, m0, mem[..], e, end, SegmentsCode(Loads(l, m0, e, end, i + 1)));
  }

  /** The LOADER macro, up to the code for the segments. */
  method GenSegments(mem: array<byte>, l: Class, e: nat, ghost end: nat) returns (code: nat)
    requires mem.Length == SIZE && HeadersIn(l, mem[..], e, end)
    requires Apart(e, end - e, CODE, 24 * PhNum(l, mem[..], e) + 12)
    modifies mem
    ensures Written(old(mem[..]), mem[..], CODE, SegmentsCode(Loads(l, old(mem[..]), e, end, PhNum(l, old(mem[..]), e))))
    ensures code == CODE + 24 * |Loads(l, old(mem[..]), e, end, PhNum(l, old(mem[..]), e))|
  {
    ghost var m0, n := mem[..], PhNum(l, mem[..], e);
    code := CODE;
    var i := 0;
    WrittenNone(m0, CODE);
    while i < PhNum(l, mem[..], e)
      invariant 0 <= i <= PhNum(l, mem[..], e) == n
      invariant Same(m0, mem[..], e, end)
      invariant Written(m0, mem[..], CODE, SegmentsCode(Loads(l, m0, e, end, i)))
      invariant code == CODE + 24 * |Loads(l, m0, e, end, i)|
      decreases n - i
    {
      code := GenHeader(mem, l, e, i, code, end, m0);
      i := i + 1;
    }
    assert i == n;
  }

  // ---------- start_module ----------

  const FLAG_CMDLINE := 4
  const FLAG_MODS := 8

  /** There is a module to start: the module flag is set and the count is not zero. */
  predicate HasModule(m: seq<byte>, mbi: nat)
    requires mbi + 28 <= |m|
  {
    Word(m, mbi) / FLAG_MODS % 2 == 1 && Word(m, mbi + 20) != 0
  }

  /** The address of the first module descriptor. */
  function FirstModule(m: seq<byte>, mbi: nat): u32
    requires mbi + 28 <= |m|
  {
    Word(m, mbi + 24)
  }

  /** The start of the first module. */
  ghost function ModuleStart(m: seq<byte>, mbi: nat): u32
    requires mbi + 28 <= |m| && FirstModule(m, mbi) + 16 <= |m|
  {
    Word(m, FirstModule(m, mbi))
  }

  /** Setting the flag that the command line is valid. */
  lemma OrCmdline(x: u32)
    ensures Or(x, FLAG_CMDLINE) == (if x / 4 % 2 == 1 then x else x + 4) < WORD32
  {
    OrBit(x, 2);
  }

  /** The module at `a` has been taken off the list, and its command line is the kernel's. */
  ghost predicate Taken(m: seq<byte>, m': seq<byte>, mbi: nat, a: nat)
    requires mbi + 28 <= |m| && a + 16 <= |m|
  {
    SameOutside(m, m', mbi, mbi + 28) && Same(m, m', mbi + 4, mbi + 16) &&
    Word(m', mbi + 24) == Wrap32(a + 16) && Word(m', mbi + 20) == Word(m, mbi + 20) - 1 &&
    Word(m', mbi + 16) == Word(m, a + 8) && Word(m', mbi) == Or(Word(m, mbi), FLAG_CMDLINE)
  }

  /** mods_addr and mods_count move on to the next module. */
  method NextModule(mem: array<byte>, mbi: nat, a: u32)
    requires mbi + 28 <= mem.Length && Word(mem[..], mbi + 20) != 0
    modifies mem
    ensures Word(mem[..], mbi + 24) == Wrap32(a + 16) && Word(mem[..], mbi + 20) == old(Word(mem[..], mbi + 20)) - 1
    ensures SameOutside(old(mem[..]), mem[..], mbi + 20, mbi + 28)
  {
    WriteWord(mem, mbi + 24, Wrap32(a + 16));
    WriteWord(mem, mbi + 20, Word(mem[..], mbi + 20) - 1);
  }

  /** The command line of the module at `a`, and the flag that says there is one. */
  method TakeCommandLine(mem: array<byte>, mbi: nat, a: u32)
    requires mbi + 28 <= mem.Length && a + 16 <= mem.Length && Apart(a, 16, mbi, 28)
    modifies mem
    ensures Word(mem[..], mbi + 16) == old(Word(mem[..], a + 8))
    ensures Word(mem[..], mbi) == Or(old(Word(mem[..], mbi)), FLAG_CMDLINE)
    ensures SameOutside(old(mem[..]), mem[..], mbi, mbi + 20) && Same(old(mem[..]), mem[..], mbi + 4, mbi + 16)
  {
    WriteWord(mem, mbi + 16, Word(mem[..], a + 8));
    var flags := Word(mem[..], mbi);
    OrCmdline(flags);
    WriteWord(mem, mbi, Or(flags, FLAG_CMDLINE));
  }

  method TakeModule(mem: array<byte>, mbi: nat) returns (a: u32)
    requires mem.Length == SIZE && mbi + 28 <= SIZE && HasModule(mem[..], mbi)
    requires FirstModule(mem[..], mbi) + 16 <= SIZE && Apart(FirstModule(mem[..], mbi), 16, mbi, 28)
    modifies mem
    ensures a == old(FirstModule(mem[..], mbi)) && Taken(old(mem[..]), mem[..], mbi, a)
  {
    a := FirstModule(mem[..], mbi);
    NextModule(mem, mbi, a);
    TakeCommandLine(mem, mbi, a);
  }

  /** What the header checks come to: the class of the image, or the assertion that fails. */
  datatype Checked = Good(l: Class) | Bad(why: Failure)

  /** The ELF header that is looked at lies below `end`. */
  ghost predicate HeaderIn(m: seq<byte>, e: nat, end: nat) {
    e + 5 <= end <= |m| && (ClassOf(m, e).Some? ==> e + HeaderSize(ClassOf(m, e).value) <= end)
  }

  function CheckHeader(m: seq<byte>, e: nat): Checked
    requires HeaderIn(m, e, |m|)
  {
    if !HasMagic(m, e) then Bad(BadMagic)
    else
      match ClassOf(m, e)
      case None => Bad(BadClass)
      case Some(l) =>
        if !TypeOk(m, e) then Bad(BadType)
        else if PhSize(l) > PhEntSize(l, m, e) then Bad(SmallPhentsize)
        else Good(l)
  }

  /** The image e .. end of the module to start. If its header is one to load, its program
      headers lie inside it, and it misses the generated code. */
  ghost predicate ImageOk(m: seq<byte>, e: nat, end: nat) {
    HeaderIn(m, e, end) && end <= SIZE == |m| &&
    match CheckHeader(m, e)
    case Bad(_) => true
    case Good(l) => HeadersIn(l, m, e, end) && Apart(e, end - e, CODE, 24 * PhNum(l, m, e) + 12)
  }

  lemma SameImage(m: seq<byte>, m': seq<byte>, e: nat, end: nat)
    requires ImageOk(m, e, end) && Same(m, m', e, end)
    ensures ImageOk(m', e, end)
  {
    if HasMagic(m, e) && ClassOf(m, e).Some? {
      var l := ClassOf(m, e).value;
      SameHeader(l, m, m', e, end);
      if CheckHeader(m, e) == Good(l) {
        forall i | 0 <= i < PhNum(l, m', e) ensures PhAt(l, m', e, i) + PhSize(l) <= end {
          assert PhAt(l, m, e, i) + PhSize(l) <= end;
        }
      }
    }
  }

  /** What start_module needs of its caller. */
  ghost predicate Startable(m: seq<byte>, mbi: nat, end: nat) {
    |m| == SIZE && mbi + 28 <= SIZE &&
    (HasModule(m, mbi) ==>
      FirstModule(m, mbi) + 16 <= SIZE && Apart(FirstModule(m, mbi), 16, mbi, 28) &&
      ImageOk(m, ModuleStart(m, mbi), end) && Apart(ModuleStart(m, mbi), end - ModuleStart(m, mbi), mbi, 28))
  }

  ghost function ModuleLoads(l: Class, m: seq<byte>, e: nat, end: nat): seq<Load>
    requires HeadersIn(l, m, e, end)
  {
    Loads(l, m, e, end, PhNum(l, m, e))
  }

  /** The entry point and the jump. */
  method GenEntry(mem: array<byte>, code: nat, entry: u32)
    requires code + 7 <= mem.Length
    modifies mem
    ensures Written(old(mem[..]), mem[..], code, Mov(EDX, entry) + JMP_EDX)
  {
    ghost var m0 := mem[..];
    var at := GenMov(mem, code, EDX, entry);
    ghost var m1 := mem[..];
    at := GenJmpEdx(mem, at);
    WrittenThen(m0, m1, mem[..], code, Mov(EDX, entry), code + 5, JMP_EDX);
  }

  /** What is generated behind the segments. */
  method GenFinal(mem: array<byte>, l: Class, e: nat, code: nat, ghost end: nat)
    requires code + 12 <= mem.Length && HeadersIn(l, mem[..], e, end) && Apart(e, end - e, code, 12)
    modifies mem
    ensures Written(old(mem[..]), mem[..], code, FinalCode(Entry(l, old(mem[..]), e)))
  {
    ghost var m0 := mem[..];
    var at := GenMov(mem, code, EAX, MBI_MAGIC);
    ghost var m1 := mem[..];
    SameHeader(l, m0, m1, e, end);
    var entry := Entry(l, mem[..], e);
    GenEntry(mem, at, entry);
    WrittenThen(m0, m1, mem[..], code, Mov(EAX, MBI_MAGIC), at, Mov(EDX, entry) + JMP_EDX);
  }

  lemma HeadersStay(l: Class, m0: seq<byte>, m1: seq<byte>, e: nat, end: nat, w: seq<byte>)
    requires HeadersIn(l, m0, e, end) && Written(m0, m1, CODE, w) && |w| <= 24 * PhNum(l, m0, e)
    requires Apart(e, end - e, CODE, 24 * PhNum(l, m0, e) + 12)
    ensures HeadersIn(l, m1, e, end) && Entry(l, m1, e) == Entry(l, m0, e) && Apart(e, end - e, CODE + |w|, 12)
  {
    SameHeader(l, m0, m1, e, end);
    forall i | 0 <= i < PhNum(l, m1, e) ensures PhAt(l, m1, e, i) + PhSize(l) <= end {
      assert PhAt(l, m0, e, i) + PhSize(l) <= end;
    }
  }

  /** The LOADER macro and gen_jmp_edx: the whole code. */
  method GenLoader(mem: array<byte>, l: Class, e: nat, ghost end: nat)
    requires mem.Length == SIZE && HeadersIn(l, mem[..], e, end)
    requires Apart(e, end - e, CODE, 24 * PhNum(l, mem[..], e) + 12)
    modifies mem
    ensures Written(old(mem[..]), mem[..], CODE,
      SegmentsCode(ModuleLoads(l, old(mem[..]), e, end)) + FinalCode(Entry(l, old(mem[..]), e)))
  {
    ghost var m0 := mem[..];
    ghost var w := SegmentsCode(ModuleLoads(l, m0, e, end));
    var code := GenSegments(mem, l, e, end);
    ghost var m1 := mem[..];
    HeadersStay(l, m0, m1, e, end, w);
    GenFinal(mem, l, e, code, end);
    WrittenThen(m0, m1, mem[..], CODE, w, code, FinalCode(Entry(l, m0, e)));
  }

  datatype Outcome = NoModule | Halted(why: Failure) | Jump(cpu: Cpu)

  /** What becomes of memory m and of the call when the image at e is to be started. */
  ghost predicate Generated(m: seq<byte>, m': seq<byte>, e: nat, end: nat, r: Outcome) {
    ImageOk(m, e, end) &&
    match CheckHeader(m, e)
    case Bad(why) => r == Halted(why) && m' == m
    case Good(l) =>
      r.Jump? && Written(m, m', CODE, SegmentsCode(ModuleLoads(l, m, e, end)) + FinalCode(Entry(l, m, e)))
  }

  /** The state in which the generated code is entered. */
  function Entered(m: seq<byte>, mbi: u32, regs: seq<u32>): Cpu
    requires |regs| == 8
  {
    Cpu(CODE, regs[EAX := 0][EDX := CODE][EBX := mbi], m)
  }

  /** The part of start_module from the header checks on. */
  method StartImage(mem: array<byte>, e: nat, mbi: u32, regs: seq<u32>, ghost end: nat) returns (r: Outcome)
    requires |regs| == 8 && ImageOk(mem[..], e, end)
    modifies mem
    ensures Generated(old(mem[..]), mem[..], e, end, r) && !r.NoModule?
    ensures r.Jump? ==> r.cpu == Entered(mem[..], mbi, regs)
  {
    match CheckHeader(mem[..], e)
    case Bad(why) =>
      r := Halted(why);
    case Good(l) =>
      GenLoader(mem, l, e, end);
      r := Jump(Entered(mem[..], mbi, regs));
  }

  /** start_module after the relocation. `taken` is memory before the code is generated. */
  method StartModule(mem: array<byte>, mbi: u32, regs: seq<u32>, ghost end: nat)
    returns (r: Outcome, ghost taken: seq<byte>)
    requires mem.Length == SIZE && |regs| == 8 && Startable(mem[..], mbi, end)
    modifies mem
    ensures r.NoModule? <==> !old(HasModule(mem[..], mbi))
    ensures r.NoModule? ==> mem[..] == old(mem[..])
    ensures !r.NoModule? ==> Taken(old(mem[..]), taken, mbi, old(FirstModule(mem[..], mbi)))
    ensures !r.NoModule? ==> Generated(taken, mem[..], old(ModuleStart(mem[..], mbi)), end, r)
    ensures r.Jump? ==> r.cpu == Entered(mem[..], mbi, regs)
  {
    taken := mem[..];
    if !HasModule(mem[..], mbi) {
      return NoModule, taken;
    }
    var a := TakeModule(mem, mbi);
    ghost var m0 := taken;
    taken := mem[..];
    var e := Word(mem[..], a);
    SameImage(m0, taken, e, end);
    r := StartImage(mem, e, mbi, regs, end);
  }

  lemma GeneratedCode(m: seq<byte>, m': seq<byte>, e: nat, end: nat, r: Outcome, l: Class)
    requires Generated(m, m', e, end, r) && CheckHeader(m, e) == Good(l)
    ensures e <= end <= SIZE && |ModuleLoads(l, m, e, end)| < 0x1_0000
    ensures At(m', CODE, SegmentsCode(ModuleLoads(l, m, e, end)) + FinalCode(Entry(l, m, e)))
  {
  }

  /** The handoff: from the state in which start_module jumps, execution reaches the entry point
      of the image, with the magic number in EAX, the address of the boot information in EBX, and
      all segments loaded. */
  lemma HandsOff(m: seq<byte>, m': seq<byte>, e: nat, end: nat, r: Outcome, l: Class, ls: seq<Load>, n: nat)
    returns (k: nat, d: Cpu)
    requires Generated(m, m', e, end, r) && r.Jump? && CheckHeader(m, e) == Good(l)
    requires r.cpu.Valid() && r.cpu.eip == CODE && r.cpu.regs[EAX] == 0 && r.cpu.mem == m'
    requires ls == ModuleLoads(l, m, e, end) && n == 24 * |ls| + 12 && AllLoadable(ls, e, end, n)
    ensures Run(r.cpu, k) == Some(d) && d.Valid() && d.eip == Entry(l, m, e)
    ensures d.regs[EAX] == MBI_MAGIC && d.regs[EBX] == r.cpu.regs[EBX]
    ensures d.mem == LoadAll(m', ls, e, end, n)
  {
    GeneratedCode(m, m', e, end, r, l);
    k, d := CodeLoadsImage(r.cpu, ls, Entry(l, m, e), e, end, n);
  }
}
