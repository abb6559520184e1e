/** The ELF loader on files written out field by field, as standalone/include/elf.h lays them out. */
module ElfLaws {
  import opened Words
  import opened Memory
  import opened X86
  import opened ElfLoader

  // ---------- ELF files ----------

  /** struct eh and struct eh64 behind the identification. */
  datatype Eh = Eh(kind: nat, machine: nat, version: u32, entry: u64, phoff: u64, shoff: u64, flags: u32,
                   ehsize: nat, phentsize: nat, phnum: nat, shentsize: nat, shnum: nat, shstrndx: nat)

  /** struct ph and struct ph64. */
  datatype Ph = Ph(kind: u32, flags: u32, offset: u64, vaddr: u64, paddr: u64, filesz: u64, memsz: u64, align: u64)

  /** Every field fits into its place. */
  predicate EhOk(l: Class, h: Eh) {
    h.kind < 0x1_0000 && h.machine < 0x1_0000 && h.ehsize < 0x1_0000 && h.phentsize < 0x1_0000 &&
    h.phnum < 0x1_0000 && h.shentsize < 0x1_0000 && h.shnum < 0x1_0000 && h.shstrndx < 0x1_0000 &&
    (l.Elf32? ==> h.entry < WORD32 && h.phoff < WORD32 && h.shoff < WORD32)
  }

  predicate PhOk(l: Class, h: Ph) {
    l.Elf32? ==>
      h.offset < WORD32 && h.vaddr < WORD32 && h.paddr < WORD32 && h.filesz < WORD32 && h.memsz < WORD32 && h.align < WORD32
  }

  function EhWords(l: Class, h: Eh): (ws: seq<u32>)
    requires EhOk(l, h)
    ensures |ws| == if l.Elf32? then 9 else 12
  {
    match l
    case Elf32 =>
      [Pair(h.kind, h.machine), h.version, h.entry, h.phoff, h.shoff, h.flags,
       Pair(h.ehsize, h.phentsize), Pair(h.phnum, h.shentsize), Pair(h.shnum, h.shstrndx)]
    case Elf64 =>
      [Pair(h.kind, h.machine), h.version, h.entry % WORD32, h.entry / WORD32, h.phoff % WORD32, h.phoff / WORD32,
       h.shoff % WORD32, h.shoff / WORD32, h.flags,
       Pair(h.ehsize, h.phentsize), Pair(h.phnum, h.shentsize), Pair(h.shnum, h.shstrndx)]
  }

  /** In the 32-bit structure the flags come before the alignment, in the 64-bit one after the type. */
  function PhWords(l: Class, h: Ph): (ws: seq<u32>)
    requires PhOk(l, h)
    ensures |ws| == if l.Elf32? then 8 else 14
  {
    match l
    case Elf32 => [h.kind, h.offset, h.vaddr, h.paddr, h.filesz, h.memsz, h.flags, h.align]
    case Elf64 =>
      [h.kind, h.flags, h.offset % WORD32, h.offset / WORD32, h.vaddr % WORD32, h.vaddr / WORD32,
       h.paddr % WORD32, h.paddr / WORD32, h.filesz % WORD32, h.filesz / WORD32, h.memsz % WORD32, h.memsz / WORD32,
       h.align % WORD32, h.align / WORD32]
  }

  /** The fields that are looked at. */
  ghost predicate HeaderReads(m: seq<byte>, e: nat, l: Class, h: Eh) {
    e + HeaderSize(l) <= |m| && PhEntSize(l, m, e) == h.phentsize && PhNum(l, m, e) == h.phnum &&
    (TypeOk(m, e) <==> h.kind == 2 && (h.machine == 3 || h.machine == 62) && h.version == 1) &&
    Entry(l, m, e) == h.entry % WORD32 && PhOff(l, m, e) == h.phoff
  }

  lemma Reads32(m: seq<byte>, e: nat, h: Eh)
    requires e + 52 <= |m| && h.phoff < WORD32 && h.entry < WORD32
    requires Half(m, e + 16) == h.kind && Half(m, e + 18) == h.machine && Word(m, e + 20) == h.version
    requires Word(m, e + 24) == h.entry && Word(m, e + 28) == h.phoff
    requires Half(m, e + 42) == h.phentsize && Half(m, e + 44) == h.phnum < 0x1_0000
    ensures HeaderReads(m, e, Elf32, h)
  {
  }

  lemma EhMeans32(m: seq<byte>, e: nat, h: Eh)
    requires EhOk(Elf32, h) && At(m, e + 16, WordsBytes(EhWords(Elf32, h)))
    ensures HeaderReads(m, e, Elf32, h)
  {
    var ws := EhWords(Elf32, h);
    WordsAt(m, e + 16, ws, 0, e + 16);
    WordsAt(m, e + 16, ws, 1, e + 20);
    WordsAt(m, e + 16, ws, 2, e + 24);
    WordsAt(m, e + 16, ws, 3, e + 28);
    WordsAt(m, e + 16, ws, 6, e + 40);
    WordsAt(m, e + 16, ws, 7, e + 44);
    PairAt(m, e + 16, h.kind, h.machine, e + 18);
    PairAt(m, e + 40, h.ehsize, h.phentsize, e + 42);
    PairAt(m, e + 44, h.phnum, h.shentsize, e + 46);
    WordsAt(m, e + 16, ws, 8, e + 48);
    Reads32(m, e, h);
  }

  lemma EhMeans64(m: seq<byte>, e: nat, h: Eh)
    requires EhOk(Elf64, h) && At(m, e + 16, WordsBytes(EhWords(Elf64, h)))
    ensures HeaderReads(m, e, Elf64, h)
  {
    var ws := EhWords(Elf64, h);
    WordsAt(m, e + 16, ws, 0, e + 16);
    WordsAt(m, e + 16, ws, 1, e + 20);
    WordsAt(m, e + 16, ws, 2, e + 24);
    WordsAt(m, e + 16, ws, 3, e + 28);
    WordsAt(m, e + 16, ws, 4, e + 32);
    WordsAt(m, e + 16, ws, 5, e + 36);
    WordsAt(m, e + 16, ws, 9, e + 52);
    WordsAt(m, e + 16, ws, 10, e + 56);
    PairAt(m, e + 16, h.kind, h.machine, e + 18);
    TwoAt(m, e + 24, h.entry);
    TwoAt(m, e + 32, h.phoff);
    PairAt(m, e + 52, h.ehsize, h.phentsize, e + 54);
    PairAt(m, e + 56, h.phnum, h.shentsize, e + 58);
  }

  lemma EhMeans(m: seq<byte>, e: nat, l: Class, h: Eh)
    requires EhOk(l, h) && At(m, e + 16, WordsBytes(EhWords(l, h)))
    ensures HeaderReads(m, e, l, h)
  {
    match l
    case Elf32 => EhMeans32(m, e, h);
    case Elf64 => EhMeans64(m, e, h);
  }

  /** What a program header asks for: `filesz` bytes from `offset` of the image to the physical
      address, and zeros up to `memsz`. */
  function LoadOf(e: nat, h: Ph): Load {
    Load(h.paddr % WORD32, Wrap32(e + h.offset), h.filesz % WORD32, Wrap32(h.memsz - h.filesz))
  }

  lemma PhMeans32(m: seq<byte>, p: nat, e: nat, h: Ph)
    requires PhOk(Elf32, h) && At(m, p, WordsBytes(PhWords(Elf32, h)))
    ensures p + 32 <= |m| && Word(m, p) == h.kind && LoadAt(Elf32, m, e, p) == LoadOf(e, h)
  {
    var ws := PhWords(Elf32, h);
    WordsAt(m, p, ws, 0, p);
    WordsAt(m, p, ws, 1, p + 4);
    WordsAt(m, p, ws, 3, p + 12);
    WordsAt(m, p, ws, 4, p + 16);
    WordsAt(m, p, ws, 5, p + 20);
  }

  lemma PhMeans64(m: seq<byte>, p: nat, e: nat, h: Ph)
    requires PhOk(Elf64, h) && At(m, p, WordsBytes(PhWords(Elf64, h)))
    ensures p + 56 <= |m| && Word(m, p) == h.kind && LoadAt(Elf64, m, e, p) == LoadOf(e, h)
  {
    var ws := PhWords(Elf64, h);
    WordsAt(m, p, ws, 0, p);
    WordsAt(m, p, ws, 2, p + 8);
    WordsAt(m, p, ws, 3, p + 12);
    WordsAt(m, p, ws, 6, p + 24);
    WordsAt(m, p, ws, 7, p + 28);
    WordsAt(m, p, ws, 8, p + 32);
    WordsAt(m, p, ws, 9, p + 36);
    WordsAt(m, p, ws, 10, p + 40);
    WordsAt(m, p, ws, 11, p + 44);
    TwoAt(m, p + 8, h.offset);
    TwoAt(m, p + 24, h.paddr);
    TwoAt(m, p + 32, h.filesz);
    TwoAt(m, p + 40, h.memsz);
  }

  lemma PhMeans(m: seq<byte>, p: nat, e: nat, l: Class, h: Ph)
    requires PhOk(l, h) && At(m, p, WordsBytes(PhWords(l, h)))
    ensures p + PhSize(l) <= |m| && Word(m, p) == h.kind && LoadAt(l, m, e, p) == LoadOf(e, h)
  {
    match l
    case Elf32 => PhMeans32(m, p, e, h);
    case Elf64 => PhMeans64(m, p, e, h);
  }

  /** A file: its class, what follows it in the identification, header and program headers. */
  datatype File = File(l: Class, ident: seq<byte>, h: Eh, phs: seq<Ph>)

  ghost predicate FileOk(f: File) {
    |f.ident| == 11 && EhOk(f.l, f.h) && |f.phs| == f.h.phnum && forall i :: 0 <= i < |f.phs| ==> PhOk(f.l, f.phs[i])
  }

  /** Where program header i stands in the file. */
  function PhPlace(e: nat, f: File, i: nat): nat {
    e + f.h.phoff + Rows(i, f.h.phentsize)
  }

  ghost predicate PhStands(m: seq<byte>, e: nat, f: File, i: nat)
    requires FileOk(f) && i < |f.phs|
  {
    At(m, PhPlace(e, f, i), WordsBytes(PhWords(f.l, f.phs[i])))
  }

  /** The file stands at e: 7F 45 4C 46, the class (1 or 2), header and program headers. */
  ghost predicate FileAt(m: seq<byte>, e: nat, f: File)
    requires FileOk(f)
  {
    At(m, e, [0x7F, 0x45, 0x4C, 0x46, if f.l.Elf32? then 1 else 2] + f.ident) &&
    At(m, e + 16, WordsBytes(EhWords(f.l, f.h))) &&
    forall i :: 0 <= i < |f.phs| ==> PhStands(m, e, f, i)
  }

  /** The header and all program headers end by `end`, and the image misses the generated code. */
  ghost predicate FileIn(m: seq<byte>, e: nat, end: nat, f: File) {
    FileOk(f) && |m| == SIZE && end <= SIZE && e + (if f.l.Elf32? then 52 else 64) <= end &&
    (forall i :: 0 <= i < |f.phs| ==> PhPlace(e, f, i) + (if f.l.Elf32? then 32 else 56) <= end) &&
    Apart(e, end - e, 0x7C00, 24 * |f.phs| + 12)
  }

  /** An executable for the i386 or the x86-64 with program headers of at least the usual size. */
  predicate Startable(f: File) {
    f.h.kind == 2 && (f.h.machine == 3 || f.h.machine == 62) && f.h.version == 1 &&
    f.h.phentsize >= (if f.l.Elf32? then 32 else 56)
  }

  lemma IdentMeans(m: seq<byte>, e: nat, l: Class, ident: seq<byte>)
    requires At(m, e, [0x7F, 0x45, 0x4C, 0x46, if l.Elf32? then 1 else 2] + ident)
    ensures e + 5 <= |m| && HasMagic(m, e) && ClassOf(m, e) == Some(l)
  {
    var head: seq<byte> := [0x7F, 0x45, 0x4C, 0x46, if l.Elf32? then 1 else 2];
    AtSplit(m, e, head, e + 5, ident);
    assert m[e] == head[0] && m[e + 1] == head[1] && m[e + 2] == head[2] && m[e + 3] == head[3] && m[e + 4] == head[4];
  }

  lemma FileMeans(m: seq<byte>, e: nat, end: nat, f: File)
    requires FileIn(m, e, end, f) && FileAt(m, e, f)
    ensures HeaderReads(m, e, f.l, f.h) && HeadersIn(f.l, m, e, end) && ImageOk(m, e, end)
    ensures Startable(f) <==> CheckHeader(m, e) == Good(f.l)
    ensures !Startable(f) ==> CheckHeader(m, e).Bad?
    ensures forall i :: 0 <= i < |f.phs| ==> PhAt(f.l, m, e, i) == PhPlace(e, f, i)
  {
    IdentMeans(m, e, f.l, f.ident);
    EhMeans(m, e, f.l, f.h);
    assert forall i :: 0 <= i < |f.phs| ==> PhAt(f.l, m, e, i) == PhPlace(e, f, i);
  }

  // ---------- the code for a file ----------

  /** BF BE B9 are mov edi, esi, ecx; F3 A4 is rep movsb, F3 AA rep stosb. */
  function SegmentBytes(target: u32, src: u32, len: u32, fill: u32): seq<byte> {
    ([0xBF] + WordBytes(target)) + (([0xBE] + WordBytes(src)) + (([0xB9] + WordBytes(len)) + ([0xF3, 0xA4] +
    (([0xB9] + WordBytes(fill)) + [0xF3, 0xAA]))))
  }

  /** mov eax, 0x2BADB002; mov edx, entry; jmp edx. */
  function FinalBytes(entry: u32): seq<byte> {
    [0xB8, 0x02, 0xB0, 0xAD, 0x2B] + (([0xBA] + WordBytes(entry)) + [0xFF, 0xE2])
  }

  /** Only segments of type 1 are loaded. */
  ghost function PhCode(e: nat, h: Ph): seq<byte> {
    if h.kind == 1
    then SegmentBytes(h.paddr % WORD32, Wrap32(e + h.offset), h.filesz % WORD32, Wrap32(h.memsz - h.filesz))
    else []
  }

  ghost function PhsCode(e: nat, phs: seq<Ph>, n: nat): seq<byte>
    requires n <= |phs|
  {
    if n == 0 then [] else PhsCode(e, phs, n - 1) + PhCode(e, phs[n - 1])
  }

  lemma CodeIs(x: Load, entry: u32)
    ensures SegmentCode(x) == SegmentBytes(x.target, x.src, x.len, x.fill)
    ensures FinalCode(entry) == FinalBytes(entry)
  {
    assert Mov(0, 0x2BADB002) == [0xB8, 0x02, 0xB0, 0xAD, 0x2B];
  }

  ghost function LoadsOf(e: nat, phs: seq<Ph>, n: nat): (ls: seq<Load>)
    requires n <= |phs|
    ensures |ls| <= n
  {
    if n == 0 then [] else LoadsOf(e, phs, n - 1) + (if phs[n - 1].kind == 1 then [LoadOf(e, phs[n - 1])] else [])
  }

  /** Program header i is read as what it is. */
  ghost predicate PhRead(l: Class, m: seq<byte>, e: nat, phs: seq<Ph>, i: nat)
    requires e + HeaderSize(l) <= |m| && i < |phs|
  {
    var p := PhAt(l, m, e, i);
    p + PhSize(l) <= |m| && Word(m, p) == phs[i].kind && LoadAt(l, m, e, p) == LoadOf(e, phs[i])
  }

  ghost predicate PhsRead(l: Class, m: seq<byte>, e: nat, end: nat, phs: seq<Ph>) {
    HeadersIn(l, m, e, end) && PhNum(l, m, e) == |phs| && forall i :: 0 <= i < |phs| ==> PhRead(l, m, e, phs, i)
  }

  lemma FilePhs(m: seq<byte>, e: nat, end: nat, f: File)
    requires FileIn(m, e, end, f) && FileAt(m, e, f)
    ensures PhsRead(f.l, m, e, end, f.phs)
  {
    FileMeans(m, e, end, f);
    forall i | 0 <= i < |f.phs| ensures PhRead(f.l, m, e, f.phs, i) {
      assert PhStands(m, e, f, i);
      PhMeans(m, PhPlace(e, f, i), e, f.l, f.phs[i]);
    }
  }

  lemma CodeNext(ls: seq<Load>, x: Load)
    ensures SegmentsCode(ls + [x]) == SegmentsCode(ls) + SegmentBytes(x.target, x.src, x.len, x.fill)
  {
    CodeIs(x, 0);
    assert (ls + [x])[..|ls|] == ls;
  }

  lemma {:induction false} LoadsAre(l: Class, m: seq<byte>, e: nat, end: nat, phs: seq<Ph>, n: nat)
    requires PhsRead(l, m, e, end, phs) && n <= |phs|
    ensures Loads(l, m, e, end, n) == LoadsOf(e, phs, n)
    decreases n
  {
    if n > 0 {
      LoadsAre(l, m, e, end, phs, n - 1);
      assert PhRead(l, m, e, phs, n - 1);
    }
  }

  lemma CodeStep(e: nat, h: Ph, ls: seq<Load>, w: seq<byte>)
    requires SegmentsCode(ls) == w
    ensures SegmentsCode(ls + (if h.kind == 1 then [LoadOf(e, h)] else [])) == w + PhCode(e, h)
  {
    if h.kind == 1 {
      CodeNext(ls, LoadOf(e, h));
    } else {
      assert ls + [] == ls && w + [] == w;
    }
  }

  lemma {:induction false} CodeOfLoads(e: nat, phs: seq<Ph>, n: nat)
    requires n <= |phs|
    ensures SegmentsCode(LoadsOf(e, phs, n)) == PhsCode(e, phs, n)
    decreases n
  {
    if n > 0 {
      CodeOfLoads(e, phs, n - 1);
      CodeStep(e, phs[n - 1], LoadsOf(e, phs, n - 1), PhsCode(e, phs, n - 1));
    }
  }

  lemma FileLoads(m: seq<byte>, e: nat, end: nat, f: File, n: nat)
    requires FileIn(m, e, end, f) && FileAt(m, e, f) && n <= |f.phs|
    ensures HeadersIn(f.l, m, e, end) && PhNum(f.l, m, e) == |f.phs|
    ensures Loads(f.l, m, e, end, n) == LoadsOf(e, f.phs, n)
    ensures SegmentsCode(LoadsOf(e, f.phs, n)) == PhsCode(e, f.phs, n)
  {
    FilePhs(m, e, end, f);
    LoadsAre(f.l, m, e, end, f.phs, n);
    CodeOfLoads(e, f.phs, n);
  }

  lemma PhsCodeNext(e: nat, phs: seq<Ph>, i: nat)
    requires i < |phs|
    ensures PhsCode(e, phs, i + 1) == PhsCode(e, phs, i) + PhCode(e, phs[i])
  {
  }

  lemma WrittenRest(m0: seq<byte>, m1: seq<byte>, m2: seq<byte>, a: nat, u: seq<byte>, b: nat, v: seq<byte>)
    requires b == a + |u| && Written(m0, m1, a, u) && Written(m0, m2, a, u + v)
    ensures Written(m1, m2, b, v)
  {
    AtSplit(m2, a, u, b, v);
  }

  lemma WrittenNext(m0: seq<byte>, m1: seq<byte>, m2: seq<byte>, e: nat, phs: seq<Ph>, i: nat, code: nat)
    requires i < |phs| && Written(m0, m1, 0x7C00, PhsCode(e, phs, i)) && code == 0x7C00 + |PhsCode(e, phs, i)|
    requires Written(m0, m2, 0x7C00, PhsCode(e, phs, i + 1))
    ensures Written(m1, m2, code, PhCode(e, phs[i]))
    ensures |PhsCode(e, phs, i + 1)| == |PhsCode(e, phs, i)| + |PhCode(e, phs[i])|
  {
    PhsCodeNext(e, phs, i);
    WrittenRest(m0, m1, m2, 0x7C00, PhsCode(e, phs, i), code, PhCode(e, phs[i]));
  }

  /** The first i program headers have been translated. */
  ghost predicate Translated(l: Class, m: seq<byte>, e: nat, end: nat, phs: seq<Ph>, i: nat) {
    HeadersIn(l, m, e, end) && i <= |phs| == PhNum(l, m, e) && SegmentsCode(Loads(l, m, e, end, i)) == PhsCode(e, phs, i)
  }

  lemma PhsTranslated(l: Class, m: seq<byte>, e: nat, end: nat, phs: seq<Ph>, n: nat)
    requires PhsRead(l, m, e, end, phs) && n <= |phs|
    ensures Translated(l, m, e, end, phs, n)
  {
    LoadsAre(l, m, e, end, phs, n);
    CodeOfLoads(e, phs, n);
  }

  /** One turn of the loop: the code for program header i is added at the code pointer. */
  method GeneratesTurn(mem: array<byte>, l: Class, e: nat, i: nat, code: nat, ghost end: nat, ghost phs: seq<Ph>, ghost m0: seq<byte>)
    returns (code': nat)
    requires mem.Length == SIZE && i < |phs| && Apart(e, end - e, 0x7C00, 24 * |phs| + 12)
    requires PhsRead(l, m0, e, end, phs)
    requires Written(m0, mem[..], 0x7C00, PhsCode(e, phs, i)) && code == 0x7C00 + |PhsCode(e, phs, i)|
    modifies mem
    ensures Written(old(mem[..]), mem[..], code, PhCode(e, phs[i])) && code' == code + |PhCode(e, phs[i])|
    ensures Written(m0, mem[..], 0x7C00, PhsCode(e, phs, i + 1))
  {
    ghost var m1 := mem[..];
    PhsTranslated(l, m0, e, end, phs, i);
    PhsTranslated(l, m0, e, end, phs, i + 1);
    ImageUntouched(l, m0, m1, e, end, PhsCode(e, phs, i));
    code' := GenHeader(mem, l, e, i, code, end, m0);
    WrittenNext(m0, m1, mem[..], e, phs, i, code);
  }

  /** The code that one turn adds, for every program header that stands in memory. */
  method GeneratesHeader(mem: array<byte>, l: Class, e: nat, i: nat, code: nat, ghost end: nat, ghost f: File, ghost m0: seq<byte>)
    returns (code': nat)
    requires mem.Length == SIZE && l == f.l && FileIn(m0, e, end, f) && FileAt(m0, e, f) && i < |f.phs|
    requires Written(m0, mem[..], 0x7C00, PhsCode(e, f.phs, i)) && code == 0x7C00 + |PhsCode(e, f.phs, i)|
    modifies mem
    ensures Written(old(mem[..]), mem[..], code, PhCode(e, f.phs[i])) && code' == code + |PhCode(e, f.phs[i])|
    ensures Written(m0, mem[..], 0x7C00, PhsCode(e, f.phs, i + 1))
  {
    FilePhs(m0, e, end, f);
    code' := GeneratesTurn(mem, l, e, i, code, end, f.phs, m0);
  }

  /** start_module from the header checks on: a file that is not startable is refused, and for any
      other the code stands at 0x7C00 and is entered with EAX = 0, EDX = 0x7C00 and EBX = mbi. */
  method StartsFile(mem: array<byte>, e: nat, mbi: u32, regs: seq<u32>, ghost end: nat, ghost f: File) returns (r: Outcome)
    requires |regs| == 8 && FileIn(mem[..], e, end, f) && FileAt(mem[..], e, f)
    modifies mem
    ensures !Startable(f) ==> r.Halted? && mem[..] == old(mem[..])
    ensures Startable(f) ==> Written(old(mem[..]), mem[..], 0x7C00, PhsCode(e, f.phs, |f.phs|) + FinalBytes(f.h.entry % WORD32))
    ensures Startable(f) ==> r == Jump(Cpu(0x7C00, regs[0 := 0][2 := 0x7C00][3 := mbi], mem[..]))
  {
    ghost var m := mem[..];
    FileMeans(m, e, end, f);
    FileLoads(m, e, end, f, |f.phs|);
    CodeIs(Load(0, 0, 0, 0), f.h.entry % WORD32);
    r := StartImage(mem, e, mbi, regs, end);
  }

  /** From there execution reaches the entry point of the file with the magic number in EAX and the
      boot information in EBX, all segments loaded. */
  lemma FileRuns(c: Cpu, e: nat, end: nat, f: File, n: nat, mbi: u32) returns (k: nat, d: Cpu)
    requires c.Valid() && c.eip == 0x7C00 && c.regs[0] == 0 && c.regs[3] == mbi
    requires At(c.mem, 0x7C00, PhsCode(e, f.phs, |f.phs|) + FinalBytes(f.h.entry % WORD32))
    requires FileIn(c.mem, e, end, f) && FileAt(c.mem, e, f) && e <= end
    requires n == 24 * |LoadsOf(e, f.phs, |f.phs|)| + 12 && AllLoadable(LoadsOf(e, f.phs, |f.phs|), e, end, n)
    ensures Run(c, k) == Some(d) && d.Valid() && d.eip == f.h.entry % WORD32
    ensures d.regs[0] == 0x2BADB002 && d.regs[3] == mbi
    ensures d.mem == LoadAll(c.mem, LoadsOf(e, f.phs, |f.phs|), e, end, n)
  {
    FileLoads(c.mem, e, end, f, |f.phs|);
    CodeIs(Load(0, 0, 0, 0), f.h.entry % WORD32);
    k, d := CodeLoadsImage(c, LoadsOf(e, f.phs, |f.phs|), f.h.entry % WORD32, e, end, n);
  }

  /** An image that begins with anything else than 7F 45 4C 46 and class 1 or 2 is refused. */
  method RefusesImage(mem: array<byte>, e: nat, mbi: u32, regs: seq<u32>, ghost end: nat) returns (r: Outcome)
    requires |regs| == 8 && e + 64 <= end <= SIZE == mem.Length
    requires mem[e] != 0x7F || mem[e + 1] != 0x45 || mem[e + 2] != 0x4C || mem[e + 3] != 0x46 || (mem[e + 4] != 1 && mem[e + 4] != 2)
    modifies mem
    ensures r.Halted? && mem[..] == old(mem[..])
  {
    assert CheckHeader(mem[..], e).Bad?;
    r := StartImage(mem, e, mbi, regs, end);
  }
}
