/** The boot information, the memory map and the module list, written out word by word as
    include/mbi.h lays them out. */
module BootLaws {
  import opened Words
  import opened Memory
  import opened MemoryMap
  import Relocate
  import ElfLoader

  // ---------- the structures ----------

  /** struct mbi up to mmap_addr. */
  datatype Mbi = Mbi(flags: u32, memLower: u32, memUpper: u32, bootDevice: u32, cmdline: u32, modsCount: u32, modsAddr: u32,
                     d0: u32, d1: u32, d2: u32, d3: u32, mmapLength: u32, mmapAddr: u32)

  function MbiWords(b: Mbi): seq<u32> {
    [b.flags, b.memLower, b.memUpper, b.bootDevice, b.cmdline, b.modsCount, b.modsAddr,
     b.d0, b.d1, b.d2, b.d3, b.mmapLength, b.mmapAddr]
  }

  /** struct module. */
  datatype Mod = Mod(start: u32, end: u32, str: u32, reserved: u32)

  function ModWords(d: Mod): seq<u32> {
    [d.start, d.end, d.str, d.reserved]
  }

  /** memory_map_t, and what stands between it and the next entry. */
  datatype Region = Region(addr: u64, len: u64, kind: u32, pad: seq<byte>)

  predicate RegionOk(r: Region) {
    20 + |r.pad| < WORD32
  }

  function RegionBytes(r: Region): seq<byte>
    requires RegionOk(r)
  {
    WordsBytes([20 + |r.pad|, r.addr % WORD32, r.addr / WORD32, r.len % WORD32, r.len / WORD32, r.kind]) + r.pad
  }

  ghost predicate RegionsOk(rs: seq<Region>) {
    forall i :: 0 <= i < |rs| ==> RegionOk(rs[i])
  }

  /** The first n entries of the map, one after the other. */
  ghost function MapBytes(rs: seq<Region>, n: nat): seq<byte>
    requires RegionsOk(rs) && n <= |rs|
  {
    if n == 0 then [] else MapBytes(rs, n - 1) + RegionBytes(rs[n - 1])
  }

  lemma MbiMeans(m: seq<byte>, mbi: nat, b: Mbi)
    requires At(m, mbi, WordsBytes(MbiWords(b)))
    ensures mbi + 52 <= |m| && Word(m, mbi) == b.flags && Word(m, mbi + 16) == b.cmdline
    ensures Word(m, mbi + 20) == b.modsCount && Word(m, mbi + 24) == b.modsAddr
    ensures Word(m, mbi + 44) == b.mmapLength && Word(m, mbi + 48) == b.mmapAddr
  {
    WordsAt(m, mbi, MbiWords(b), 0, mbi);
    WordsAt(m, mbi, MbiWords(b), 4, mbi + 16);
    WordsAt(m, mbi, MbiWords(b), 5, mbi + 20);
    WordsAt(m, mbi, MbiWords(b), 6, mbi + 24);
    WordsAt(m, mbi, MbiWords(b), 11, mbi + 44);
    WordsAt(m, mbi, MbiWords(b), 12, mbi + 48);
  }

  /** The module list and the memory map are where the boot information says; there is a module to
      start if bit 3 of the flags is set and the count is not zero. */
  lemma ListsMean(m: seq<byte>, mbi: nat, b: Mbi)
    requires At(m, mbi, WordsBytes(MbiWords(b)))
    ensures mbi + 52 <= |m| && Relocate.Count(m, mbi) == b.modsCount && Relocate.Table(m, mbi) == b.modsAddr
    ensures MapEnd(m, mbi) == Wrap32(b.mmapAddr + b.mmapLength) && ElfLoader.FirstModule(m, mbi) == b.modsAddr
    ensures ElfLoader.HasModule(m, mbi) <==> b.flags / 8 % 2 == 1 && b.modsCount != 0
  {
    MbiMeans(m, mbi, b);
  }

  lemma ModMeans(m: seq<byte>, tab: nat, i: nat, a: nat, d: Mod)
    requires a == tab + 16 * i && At(m, a, WordsBytes(ModWords(d)))
    ensures a + 16 <= |m| && Word(m, a) == d.start && Word(m, a + 4) == d.end && Word(m, a + 8) == d.str
    ensures Relocate.ModuleAt(m, tab, i) == Relocate.Module(d.start, d.end, d.str)
  {
    WordsAt(m, a, ModWords(d), 0, a);
    WordsAt(m, a, ModWords(d), 1, a + 4);
    WordsAt(m, a, ModWords(d), 2, a + 8);
    WordsAt(m, a, ModWords(d), 3, a + 12);
  }

  // ---------- the module to start ----------

  /** start_module takes the first module off the list: bit 2 of the flags is set, the command line is
      that of the module, there is one module less, and the list starts 16 bytes later. */
  method TakesModule(mem: array<byte>, mbi: nat, ghost b: Mbi, ghost d: Mod) returns (a: u32)
    requires mem.Length == SIZE && At(mem[..], mbi, WordsBytes(MbiWords(b))) && At(mem[..], b.modsAddr, WordsBytes(ModWords(d)))
    requires b.flags / 8 % 2 == 1 && b.modsCount > 0 && Apart(b.modsAddr, 16, mbi, 28)
    modifies mem
    ensures a == b.modsAddr && SameOutside(old(mem[..]), mem[..], mbi, mbi + 28)
    ensures Word(mem[..], mbi) == if b.flags / 4 % 2 == 1 then b.flags else b.flags + 4
    ensures Same(old(mem[..]), mem[..], mbi + 4, mbi + 16) && Word(mem[..], mbi + 16) == d.str
    ensures Word(mem[..], mbi + 20) == b.modsCount - 1 && Word(mem[..], mbi + 24) == Wrap32(b.modsAddr + 16)
  {
    MbiMeans(mem[..], mbi, b);
    ModMeans(mem[..], b.modsAddr, 0, b.modsAddr, d);
    ElfLoader.OrCmdline(b.flags);
    a := ElfLoader.TakeModule(mem, mbi);
  }

  // ---------- the memory map ----------

  function EntryOf(r: Region): Entry
    requires RegionOk(r)
  {
    Entry(20 + |r.pad|, r.addr, r.len, r.kind)
  }

  ghost function EntriesOf(rs: seq<Region>): (es: seq<Entry>)
    requires RegionsOk(rs)
    ensures |es| == |rs|
  {
    seq(|rs|, i requires 0 <= i < |rs| => EntryOf(rs[i]))
  }

  lemma RegionMeans(m: seq<byte>, a: nat, r: Region)
    requires RegionOk(r) && At(m, a, RegionBytes(r))
    ensures a + 24 <= |m| && EntryAt(m, a) == EntryOf(r)
  {
    var ws: seq<u32> := [20 + |r.pad|, r.addr % WORD32, r.addr / WORD32, r.len % WORD32, r.len / WORD32, r.kind];
    AtSplit(m, a, WordsBytes(ws), a + 24, r.pad);
    WordsAt(m, a, ws, 0, a);
    WordsAt(m, a, ws, 1, a + 4);
    WordsAt(m, a, ws, 2, a + 8);
    WordsAt(m, a, ws, 3, a + 12);
    WordsAt(m, a, ws, 4, a + 16);
    WordsAt(m, a, ws, 5, a + 20);
    TwoAt(m, a + 4, r.addr);
    TwoAt(m, a + 12, r.len);
  }

  lemma {:induction false} RegionStands(m: seq<byte>, p: nat, rs: seq<Region>, n: nat, i: nat, a: nat)
    requires RegionsOk(rs) && i < n <= |rs| && At(m, p, MapBytes(rs, n)) && a == p + |MapBytes(rs, i)|
    ensures At(m, a, RegionBytes(rs[i]))
    decreases n
  {
    AtSplit(m, p, MapBytes(rs, n - 1), p + |MapBytes(rs, n - 1)|, RegionBytes(rs[n - 1]));
    if i < n - 1 {
      RegionStands(m, p, rs, n - 1, i, a);
    }
  }

  lemma {:induction false} AddressIs(p: nat, rs: seq<Region>, i: nat)
    requires RegionsOk(rs) && i <= |rs|
    ensures AddressOf(p, EntriesOf(rs), i) == p + |MapBytes(rs, i)|
    decreases i
  {
    if i > 0 {
      AddressIs(p, rs, i - 1);
    }
  }

  lemma {:induction false} MapGrows(rs: seq<Region>, i: nat, n: nat)
    requires RegionsOk(rs) && i <= n <= |rs|
    ensures |MapBytes(rs, i)| + 24 * (n - i) <= |MapBytes(rs, n)|
    decreases n
  {
    if i < n {
      MapGrows(rs, i, n - 1);
    }
  }

  /** Those bytes are a map with those entries. */
  lemma MapMeans(m: seq<byte>, p: nat, end: nat, rs: seq<Region>)
    requires RegionsOk(rs) && At(m, p, MapBytes(rs, |rs|)) && end == p + |MapBytes(rs, |rs|)| < SIZE <= |m|
    ensures MapAt(m, p, end, EntriesOf(rs))
  {
    var es := EntriesOf(rs);
    AddressIs(p, rs, |rs|);
    forall i | 0 <= i < |es| ensures Stands(m, p, end, es, i) {
      var a := p + |MapBytes(rs, i)|;
      AddressIs(p, rs, i);
      MapGrows(rs, i, |rs|);
      RegionStands(m, p, rs, |rs|, i, a);
      RegionMeans(m, a, rs[i]);
    }
  }

  /** The boot information `b` at mbi, and the map `rs` where it says, which ends in memory. */
  ghost predicate BootAt(m: seq<byte>, mbi: nat, b: Mbi, rs: seq<Region>) {
    RegionsOk(rs) && At(m, mbi, WordsBytes(MbiWords(b))) && At(m, b.mmapAddr, MapBytes(rs, |rs|)) &&
    b.mmapLength == |MapBytes(rs, |rs|)| && b.mmapAddr + b.mmapLength < SIZE == |m|
  }

  lemma MapEndIs(m: seq<byte>, mbi: nat, end: nat)
    requires mbi + 52 <= |m| && end == Word(m, mbi + 48) + Word(m, mbi + 44) < SIZE
    ensures MapEnd(m, mbi) == end
  {
  }

  lemma BootMeans(m: seq<byte>, mbi: nat, b: Mbi, rs: seq<Region>)
    requires BootAt(m, mbi, b, rs)
    ensures mbi + 52 <= |m| && Word(m, mbi + 48) == b.mmapAddr && MapAt(m, Word(m, mbi + 48), MapEnd(m, mbi), EntriesOf(rs))
  {
    var end: nat := b.mmapAddr + b.mmapLength;
    MbiMeans(m, mbi, b);
    MapEndIs(m, mbi, end);
    MapMeans(m, b.mmapAddr, end, rs);
  }

  /** Ascending disjoint regions, each with a page boundary in it or at its end. */
  ghost predicate Ordered(rs: seq<Region>) {
    (forall i :: 0 <= i < |rs| ==>
      rs[i].addr + rs[i].len + 0xFFF < WORD64 && exists p: nat :: PageBoundary(p) && rs[i].addr <= p <= rs[i].addr + rs[i].len) &&
    forall i, j :: 0 <= i < j < |rs| ==> rs[i].addr + rs[i].len <= rs[j].addr
  }

  /** The len bytes from t on lie below the limit and within whole pages of the available region r. */
  ghost predicate Free(r: Region, len: nat, limit: nat, t: nat) {
    r.kind == 1 && t + len <= limit &&
    exists lo: nat, hi: nat :: PageBoundary(lo) && PageBoundary(hi) && r.addr <= lo <= t && t + len <= hi <= r.addr + r.len
  }

  ghost predicate FreeIn(rs: seq<Region>, len: nat, limit: nat, t: nat) {
    exists i :: 0 <= i < |rs| && Free(rs[i], len, limit, t)
  }

  lemma OrderedAscends(rs: seq<Region>)
    requires RegionsOk(rs) && Ordered(rs)
    ensures Ascending(EntriesOf(rs))
  {
    forall i | 0 <= i < |rs| ensures InRange(EntriesOf(rs)[i]) && !Vanishes(EntriesOf(rs)[i]) {
      VanishesIff(EntryOf(rs[i]));
    }
  }

  lemma FreeIsRoom(rs: seq<Region>, q: Search, t: nat)
    requires RegionsOk(rs) && Ascending(EntriesOf(rs))
    ensures Room(EntriesOf(rs), q, t) <==> FreeIn(rs, q.len, q.limit, t)
  {
    var es := EntriesOf(rs);
    forall i | 0 <= i < |rs| ensures RoomIn(es[i], q, t) <==> Free(rs[i], q.len, q.limit, t) {
      RoomIsPages(es[i], q, t);
    }
    if Room(es, q, t) {
      var i :| 0 <= i < |es| && RoomIn(es[i], q, t);
      assert Free(rs[i], q.len, q.limit, t);
    }
    if FreeIn(rs, q.len, q.limit, t) {
      var i :| 0 <= i < |rs| && Free(rs[i], q.len, q.limit, t);
      assert RoomIn(es[i], q, t);
    }
  }

  /** mbi_find_memory gives the highest free block, if there is one. */
  method FindsHighest(mem: array<byte>, mbi: u32, len: u32, limit: u64, ghost b: Mbi, ghost rs: seq<Region>)
    returns (found: bool, start: u32)
    requires mem.Length == SIZE && BootAt(mem[..], mbi, b, rs) && Ordered(rs) && 0 < len < limit <= 0x1_0000_0000
    ensures found <==> exists t: nat :: FreeIn(rs, len, limit, t)
    ensures found ==> FreeIn(rs, len, limit, start) && forall t: nat :: FreeIn(rs, len, limit, t) ==> t <= start
  {
    BootMeans(mem[..], mbi, b, rs);
    OrderedAscends(rs);
    ghost var es, q := EntriesOf(rs), Search(len, limit, true);
    AscendingFindsGreatest(es, q);
    forall t: nat ensures Room(es, q, t) <==> FreeIn(rs, len, limit, t) {
      FreeIsRoom(rs, q, t);
    }
    var blockLen;
    found, start, blockLen := FindMemory(mem, mbi, len, true, limit, es);
  }

  /** The request can be cut off from the available region r at t. */
  ghost predicate CanServe(r: Region, len: nat, align: nat, t: nat) {
    r.kind == 1 && r.addr < t && t % Pow2(align) == 0 && t + len <= r.addr + r.len < 0x1_0000_0000
  }

  lemma BootAllocOk(m: seq<byte>, mbi: nat, b: Mbi, rs: seq<Region>)
    requires BootAt(m, mbi, b, rs) && Apart(mbi + 44, 8, b.mmapAddr, b.mmapLength)
    requires forall i :: 0 <= i < |rs| ==> rs[i].addr + rs[i].len < WORD64
    ensures AllocOk(m, mbi, EntriesOf(rs)) && Word(m, mbi + 48) == b.mmapAddr
  {
    BootMeans(m, mbi, b, rs);
    AddressIs(b.mmapAddr, rs, |rs|);
  }

  lemma ServesIs(rs: seq<Region>, rq: Request, k: nat, t: nat)
    requires RegionsOk(rs) && k < |rs|
    ensures Serves(EntriesOf(rs)[k], rq, t) <==> CanServe(rs[k], rq.len, rq.align, t)
  {
  }

  lemma LengthWords(m: seq<byte>, a: nat, e: Entry)
    requires a + 24 <= |m| && EntryAt(m, a) == e && e.len < WORD32
    ensures Word(m, a + 12) == e.len && Word(m, a + 16) == 0
  {
  }

  lemma {:induction false} ShortenedWords(m: seq<byte>, mbi: nat, p: nat, es: seq<Entry>, i: nat, e: Entry, a: nat)
    requires i < |es| && e.size == es[i].size && e.len < WORD32 && a == AddressOf(p, es, i)
    requires AllocOk(m, mbi, es[i := e]) && Word(m, mbi + 48) == p
    ensures a + 24 <= SIZE == |m| && Word(m, a + 12) == e.len && Word(m, a + 16) == 0
  {
    SameAddresses(p, es, i, e, i);
    assert Stands(m, p, MapEnd(m, mbi), es[i := e], i);
    LengthWords(m, a, e);
  }

  /** mbi_alloc_protected_memory: the first region that can serve a request does, at the greatest
      address there, and its entry in memory is shortened to end where the block begins. */
  method Allocates(mem: array<byte>, mbi: u32, rq: Request, ghost b: Mbi, ghost rs: seq<Region>)
    returns (r: Option<u32>, ghost i: nat)
    requires mem.Length == SIZE && BootAt(mem[..], mbi, b, rs) && rq.align < 32
    requires Apart(mbi + 44, 8, b.mmapAddr, b.mmapLength) && forall i :: 0 <= i < |rs| ==> rs[i].addr + rs[i].len < WORD64
    modifies mem
    ensures i <= |rs| && (r.Some? <==> i < |rs|)
    ensures forall k, t: nat :: 0 <= k < i ==> !CanServe(rs[k], rq.len, rq.align, t)
    ensures r.Some? ==>
      CanServe(rs[i], rq.len, rq.align, r.value) && forall t: nat :: CanServe(rs[i], rq.len, rq.align, t) ==> t <= r.value
    ensures r.None? ==> mem[..] == old(mem[..])
    ensures r.Some? ==>
      var a := b.mmapAddr + |MapBytes(rs, i)|;
      a + 24 <= SIZE && Word(mem[..], a + 12) == r.value - rs[i].addr && Word(mem[..], a + 16) == 0 &&
      SameOutside(old(mem[..]), mem[..], a + 12, a + 20)
  {
    ghost var es := EntriesOf(rs);
    BootAllocOk(mem[..], mbi, b, rs);
    r, i := AllocProtected(mem, mbi, rq, es);
    forall k, t: nat | 0 <= k < |rs| ensures Serves(es[k], rq, t) <==> CanServe(rs[k], rq.len, rq.align, t) {
      ServesIs(rs, rq, k, t);
    }
    if r.Some? {
      AddressIs(b.mmapAddr, rs, i);
      ShortenedWords(mem[..], mbi, b.mmapAddr, es, i, es[i].(len := r.value - rs[i].addr), b.mmapAddr + |MapBytes(rs, i)|);
    }
  }
}
