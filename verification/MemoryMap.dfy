/** The Multiboot memory map (section 3.3 of the Multiboot Specification 0.6.96) and the two
    allocators that scan it (standalone/mbi.c). */
module MemoryMap {
  import opened Words
  import opened Memory

  const PAGE := 0x1000
  const MMAP_AVAILABLE := 1

  /** A map entry; `size` does not count the size field itself. */
  datatype Entry = Entry(size: u32, addr: u64, len: u64, kind: u32)

  function EntryAt(m: seq<byte>, p: nat): Entry
    requires p + 24 <= |m|
  {
    Entry(Word(m, p), Quad(m, p + 4), Quad(m, p + 12), Word(m, p + 20))
  }

  function Next(p: nat, e: Entry): nat {
    e.size + p + 4
  }

  /** Where entry i of the list that starts at p stands. */
  ghost function AddressOf(p: nat, es: seq<Entry>, i: nat): nat
    requires i <= |es|
  {
    if i == 0 then p else Next(AddressOf(p, es, i - 1), es[i - 1])
  }

  ghost predicate EntryIs(m: seq<byte>, a: nat, end: nat, e: Entry) {
    a < end && a + 24 <= |m| && EntryAt(m, a) == e && e.size >= 20
  }

  ghost predicate Stands(m: seq<byte>, p: nat, end: nat, es: seq<Entry>, i: nat)
    requires i < |es|
  {
    EntryIs(m, AddressOf(p, es, i), end, es[i])
  }

  /** The entries `es` stand in memory from p on, up to `end`. */
  ghost predicate MapAt(m: seq<byte>, p: nat, end: nat, es: seq<Entry>) {
    end <= AddressOf(p, es, |es|) < SIZE <= |m| &&
    forall i :: 0 <= i < |es| ==> Stands(m, p, end, es, i)
  }

  lemma {:induction false} AddressesAscend(p: nat, es: seq<Entry>, i: nat, j: nat)
    requires i < j <= |es| && forall k :: 0 <= k < |es| ==> es[k].size >= 20
    ensures AddressOf(p, es, i) + 24 <= AddressOf(p, es, j)
    decreases j
  {
    if i < j - 1 {
      AddressesAscend(p, es, i, j - 1);
    }
  }

  lemma SizesOk(m: seq<byte>, p: nat, end: nat, es: seq<Entry>)
    requires MapAt(m, p, end, es)
    ensures forall k :: 0 <= k < |es| ==> es[k].size >= 20
  {
    forall k | 0 <= k < |es| ensures es[k].size >= 20 {
      assert Stands(m, p, end, es, k);
    }
  }

  // ---------- mbi_find_memory ----------

  /** `(x + 0xFFF) & ~0xFFF` in 64 bits. */
  function RoundUp(x: u64): u64 {
    Wrap64(x + 0xFFF) / PAGE * PAGE
  }

  /** The entry lies strictly inside one page, so that nothing is left of it. */
  predicate Vanishes(e: Entry) {
    RoundUp(e.addr) > Wrap64(e.addr + e.len)
  }

  /** The pages of an entry: their start and length. */
  function Pages(e: Entry): u64 {
    Wrap64(e.len - (RoundUp(e.addr) - e.addr)) / PAGE * PAGE
  }

  predicate Fits(e: Entry, len: u32, limit: u64) {
    e.kind == MMAP_AVAILABLE && Pages(e) >= len && RoundUp(e.addr) <= limit - len
  }

  /** The highest start in a fitting entry, as a 32-bit pointer. */
  function Start(e: Entry, len: u32, limit: u64): u32 {
    var top: int := Wrap64(RoundUp(e.addr) + Pages(e));
    Wrap32((if top > limit then limit else top) - len)
  }

  datatype Search = Search(len: u32, limit: u64, highest: bool)

  /** The loop of mbi_find_memory: at entry i with what has been found, or finished. */
  datatype Loop = Scanning(i: nat, found: Option<u32>) | Finished(result: Option<u32>)

  /** One turn of the loop. The two `continue`s leave the entry pointer where it is. */
  function Turn(es: seq<Entry>, q: Search, s: Loop): Loop {
    match s
    case Finished(_) => s
    case Scanning(i, found) =>
      if i >= |es| then Finished(found)
      else if Vanishes(es[i]) then s
      else if !Fits(es[i], q.len, q.limit) then Scanning(i + 1, found)
      else if found.Some? && found.value > RoundUp(es[i].addr) then s
      else if !q.highest then Finished(Some(Start(es[i], q.len, q.limit)))
      else Scanning(i + 1, Some(Start(es[i], q.len, q.limit)))
  }

  function Turns(es: seq<Entry>, q: Search, s: Loop, n: nat): Loop
    decreases n
  {
    if n == 0 then s else Turns(es, q, Turn(es, q, s), n - 1)
  }

  datatype Verdict = Ends(result: Option<u32>) | Loops

  /** What the scan comes to. */
  function Scan(es: seq<Entry>, q: Search, i: nat, found: Option<u32>): Verdict
    requires i <= |es|
    decreases |es| - i
  {
    if i == |es| then Ends(found)
    else if Vanishes(es[i]) then Loops
    else if !Fits(es[i], q.len, q.limit) then Scan(es, q, i + 1, found)
    else if found.Some? && found.value > RoundUp(es[i].addr) then Loops
    else if !q.highest then Ends(Some(Start(es[i], q.len, q.limit)))
    else Scan(es, q, i + 1, Some(Start(es[i], q.len, q.limit)))
  }

  lemma {:induction false} Stays(es: seq<Entry>, q: Search, s: Loop, n: nat)
    requires Turn(es, q, s) == s
    ensures Turns(es, q, s, n) == s
  {
    if n > 0 {
      Stays(es, q, s, n - 1);
    }
  }

  lemma FinishedStays(es: seq<Entry>, q: Search, s: Loop, n: nat)
    requires s.Finished?
    ensures Turns(es, q, s, n) == s
  {
    Stays(es, q, s, n);
  }

  /** The verdict is that of the loop: an end is reached in at most |es| + 1 turns, and where it
      says Loops no number of turns ends the loop. */
  lemma {:induction false} ScanIsLoop(es: seq<Entry>, q: Search, i: nat, found: Option<u32>)
    requires i <= |es|
    ensures Scan(es, q, i, found).Ends? ==>
      Turns(es, q, Scanning(i, found), |es| - i + 1) == Finished(Scan(es, q, i, found).result)
    ensures Scan(es, q, i, found).Loops? ==> forall n: nat :: Turns(es, q, Scanning(i, found), n).Scanning?
    decreases |es| - i
  {
    var s := Scanning(i, found);
    var s' := Turn(es, q, s);
    if s'.Finished? {
      FinishedStays(es, q, s', |es| - i);
    } else if s' == s {
      forall n: nat ensures Turns(es, q, s, n) == s {
        Stays(es, q, s, n);
      }
    } else {
      ScanIsLoop(es, q, i + 1, s'.found);
      forall n: nat ensures Scan(es, q, i, found).Loops? ==> Turns(es, q, s, n).Scanning? {
        if n > 0 {
          assert Turns(es, q, s, n) == Turns(es, q, s', n - 1);
        }
      }
    }
  }

  /** Entries that end below the last page of the 64-bit address space. */
  ghost predicate InRange(e: Entry) {
    e.addr + e.len + 0xFFF < WORD64
  }

  ghost predicate AllInRange(es: seq<Entry>) {
    forall i :: 0 <= i < |es| ==> InRange(es[i])
  }

  /** What page rounding leaves of an entry. */
  lemma Rounding(e: Entry)
    requires InRange(e)
    ensures e.addr <= RoundUp(e.addr) < e.addr + PAGE && RoundUp(e.addr) % PAGE == 0
    ensures !Vanishes(e) ==>
      Pages(e) % PAGE == 0 && RoundUp(e.addr) + Pages(e) <= e.addr + e.len < RoundUp(e.addr) + Pages(e) + PAGE
  {
  }

  /** A search that asks for something, below 4 GB. */
  ghost predicate Proper(q: Search) {
    0 < q.len < q.limit <= WORD32
  }

  lemma StartIs(top: u64, len: u32, limit: u64)
    requires 0 < len < limit <= WORD32 && len <= top
    ensures Wrap32((if top > limit then limit else top) - len) == (if top > limit then limit else top) - len
  {
  }

  /** In a fitting entry there is room from the rounded address up to the start that is tried. */
  lemma StartFits(e: Entry, q: Search)
    requires Proper(q) && InRange(e) && !Vanishes(e) && Fits(e, q.len, q.limit)
    ensures RoundUp(e.addr) <= Start(e, q.len, q.limit)
    ensures Start(e, q.len, q.limit) + q.len ==
      (if RoundUp(e.addr) + Pages(e) > q.limit then q.limit else RoundUp(e.addr) + Pages(e))
  {
    Rounding(e);
    var top: u64 := RoundUp(e.addr) + Pages(e);
    assert Wrap64(top) == top;
    StartIs(top, q.len, q.limit);
  }

  /** The pages of entry e hold the q.len bytes from t on, below the limit. */
  ghost predicate RoomIn(e: Entry, q: Search, t: nat) {
    e.kind == MMAP_AVAILABLE && RoundUp(e.addr) <= t && t + q.len <= RoundUp(e.addr) + Pages(e) && t + q.len <= q.limit
  }

  ghost predicate Room(es: seq<Entry>, q: Search, t: nat) {
    exists i :: 0 <= i < |es| && RoomIn(es[i], q, t)
  }

  lemma RoomMeansFits(e: Entry, q: Search, t: nat)
    requires Proper(q) && InRange(e) && !Vanishes(e) && RoomIn(e, q, t)
    ensures Fits(e, q.len, q.limit) && t <= Start(e, q.len, q.limit)
  {
    StartFits(e, q);
  }

  lemma FitsMeansRoom(e: Entry, q: Search)
    requires Proper(q) && InRange(e) && !Vanishes(e) && Fits(e, q.len, q.limit)
    ensures RoomIn(e, q, Start(e, q.len, q.limit))
  {
    StartFits(e, q);
  }

  predicate PageBoundary(p: int) {
    p % 0x1000 == 0
  }

  /** RoundUp is the first page boundary from the start of the entry on. */
  lemma RoundUpIsFirst(e: Entry, p: nat)
    requires InRange(e) && PageBoundary(p) && e.addr <= p
    ensures PageBoundary(RoundUp(e.addr)) && e.addr <= RoundUp(e.addr) <= p
  {
    Rounding(e);
  }

  /** An entry vanishes if and only if there is no page boundary in it or at its end. */
  lemma VanishesIff(e: Entry)
    requires InRange(e)
    ensures Vanishes(e) <==> forall p: nat :: PageBoundary(p) ==> !(e.addr <= p <= e.addr + e.len)
  {
    Rounding(e);
    forall p: nat | PageBoundary(p) && e.addr <= p <= e.addr + e.len ensures !Vanishes(e) {
      RoundUpIsFirst(e, p);
    }
    assert PageBoundary(RoundUp(e.addr));
  }

  /** There is room at t if and only if t and the bytes from it on lie below the limit and within
      whole pages of available memory. */
  lemma RoomIsPages(e: Entry, q: Search, t: nat)
    requires InRange(e) && !Vanishes(e)
    ensures RoomIn(e, q, t) <==>
      e.kind == 1 && t + q.len <= q.limit &&
      exists lo: nat, hi: nat ::
        PageBoundary(lo) && PageBoundary(hi) && e.addr <= lo <= t && t + q.len <= hi <= e.addr + e.len
  {
    Rounding(e);
    var first, last := RoundUp(e.addr), RoundUp(e.addr) + Pages(e);
    assert PageBoundary(first) && PageBoundary(last);
    forall lo: nat, hi: nat |
        PageBoundary(lo) && PageBoundary(hi) && e.addr <= lo <= t && t + q.len <= hi <= e.addr + e.len
      ensures first <= lo && hi <= last
    {
      RoundUpIsFirst(e, lo);
    }
  }

  /** An entry fits if and only if there is room in it, and the start that is tried is the greatest. */
  lemma FitsIff(e: Entry, q: Search)
    requires Proper(q) && InRange(e) && !Vanishes(e)
    ensures Fits(e, q.len, q.limit) <==> exists t: nat :: RoomIn(e, q, t)
    ensures Fits(e, q.len, q.limit) ==>
      RoomIn(e, q, Start(e, q.len, q.limit)) && forall t: nat :: RoomIn(e, q, t) ==> t <= Start(e, q.len, q.limit)
  {
    forall t: nat | RoomIn(e, q, t) ensures Fits(e, q.len, q.limit) && t <= Start(e, q.len, q.limit) {
      RoomMeansFits(e, q, t);
    }
    if Fits(e, q.len, q.limit) {
      FitsMeansRoom(e, q);
    }
  }

  /** No entry vanishes, and the fitting entries come in ascending order, seen from where the
      block in each of them would start. */
  ghost predicate Orderly(es: seq<Entry>, q: Search, i: nat) {
    (forall k :: i <= k < |es| ==> !Vanishes(es[k])) &&
    forall j, k :: i <= j < k < |es| && Fits(es[j], q.len, q.limit) && Fits(es[k], q.len, q.limit) ==>
      Start(es[j], q.len, q.limit) <= RoundUp(es[k].addr)
  }

  ghost predicate Above(es: seq<Entry>, q: Search, i: nat, found: Option<u32>) {
    found.Some? ==>
      forall k :: i <= k < |es| && Fits(es[k], q.len, q.limit) ==> found.value <= RoundUp(es[k].addr)
  }

  /** The search for the highest block ends if and only if the map is orderly. */
  lemma {:induction false} HighestEndsIff(es: seq<Entry>, q: Search, i: nat, found: Option<u32>)
    requires q.highest && Proper(q) && AllInRange(es) && i <= |es|
    ensures Scan(es, q, i, found).Ends? <==> Orderly(es, q, i) && Above(es, q, i, found)
    decreases |es| - i
  {
    if i < |es| && !Vanishes(es[i]) {
      if !Fits(es[i], q.len, q.limit) {
        HighestEndsIff(es, q, i + 1, found);
      } else {
        StartFits(es[i], q);
        HighestEndsIff(es, q, i + 1, Some(Start(es[i], q.len, q.limit)));
      }
    }
  }

  /** What the search for the highest block returns: the start in the last fitting entry r, or
      what had been found before when there is none (r = -1). */
  lemma {:induction false} ScanFrom(es: seq<Entry>, q: Search, i: nat, found: Option<u32>) returns (r: int)
    requires q.highest && Proper(q) && AllInRange(es) && i <= |es| && Orderly(es, q, i) && Above(es, q, i, found)
    ensures -1 == r || (i <= r < |es| && Fits(es[r], q.len, q.limit))
    ensures Scan(es, q, i, found) == Ends(if r < 0 then found else Some(Start(es[r], q.len, q.limit)))
    ensures forall k :: i <= k < |es| && Fits(es[k], q.len, q.limit) ==>
      r >= 0 && Start(es[k], q.len, q.limit) <= Start(es[r], q.len, q.limit)
    decreases |es| - i
  {
    if i == |es| {
      r := -1;
    } else if !Fits(es[i], q.len, q.limit) {
      r := ScanFrom(es, q, i + 1, found);
    } else {
      StartFits(es[i], q);
      r := ScanFrom(es, q, i + 1, Some(Start(es[i], q.len, q.limit)));
      if r < 0 {
        r := i;
      } else {
        StartFits(es[r], q);
      }
    }
  }

  /** It then finds the greatest start at which the block has room, or nothing when there is no
      room anywhere. */
  lemma {:induction false} HighestIsGreatest(es: seq<Entry>, q: Search)
    requires q.highest && Proper(q) && AllInRange(es) && Scan(es, q, 0, None).Ends?
    ensures Scan(es, q, 0, None).result == None <==> forall t: nat :: !Room(es, q, t)
    ensures Scan(es, q, 0, None).result.Some? ==>
      Room(es, q, Scan(es, q, 0, None).result.value) &&
      forall t: nat :: Room(es, q, t) ==> t <= Scan(es, q, 0, None).result.value
  {
    HighestEndsIff(es, q, 0, None);
    var r := ScanFrom(es, q, 0, None);
    forall t: nat, k | 0 <= k < |es| && RoomIn(es[k], q, t)
      ensures Fits(es[k], q.len, q.limit) && t <= Start(es[k], q.len, q.limit)
    {
      RoomMeansFits(es[k], q, t);
    }
    if r >= 0 {
      FitsMeansRoom(es[r], q);
      assert Room(es, q, Start(es[r], q.len, q.limit));
    }
  }

  /** Ascending disjoint entries none of which lies strictly inside one page. */
  ghost predicate Ascending(es: seq<Entry>) {
    (forall i :: 0 <= i < |es| ==> InRange(es[i]) && !Vanishes(es[i])) &&
    forall i, j :: 0 <= i < j < |es| ==> es[i].addr + es[i].len <= es[j].addr
  }

  lemma AscendingIsOrderly(es: seq<Entry>, q: Search)
    requires Proper(q) && Ascending(es)
    ensures AllInRange(es) && Orderly(es, q, 0)
  {
    forall i | 0 <= i < |es|
      ensures es[i].addr <= RoundUp(es[i].addr)
      ensures Fits(es[i], q.len, q.limit) ==> Start(es[i], q.len, q.limit) <= es[i].addr + es[i].len
    {
      Rounding(es[i]);
      if Fits(es[i], q.len, q.limit) {
        StartFits(es[i], q);
      }
    }
  }

  /** The search for the lowest block stops at the first fitting entry f, which it reaches if and
      only if no entry before it vanishes. */
  lemma {:induction false} LowestIsFirst(es: seq<Entry>, q: Search, i: nat, f: nat)
    requires !q.highest && i <= f <= |es|
    requires forall k :: i <= k < f ==> !Fits(es[k], q.len, q.limit)
    requires f < |es| ==> Fits(es[f], q.len, q.limit)
    ensures Scan(es, q, i, None).Ends? <==> forall k :: i <= k <= f && k < |es| ==> !Vanishes(es[k])
    ensures Scan(es, q, i, None).Ends? ==>
      Scan(es, q, i, None).result == if f < |es| then Some(Start(es[f], q.len, q.limit)) else None
    decreases f - i
  {
    if i < f && !Vanishes(es[i]) {
      LowestIsFirst(es, q, i + 1, f);
    }
  }

  /** An entry inside one page hangs the scan. */
  lemma SmallEntryLoops()
    ensures Scan([Entry(20, 0x9F800, 0x100, 2)], Search(0x1000, WORD32, true), 0, None).Loops?
  {
  }

  /** So do available entries in descending order. */
  lemma DescendingLoops()
    ensures Scan([Entry(20, 0x10_0000, 0x10_0000, 1), Entry(20, 0, 0x8_0000, 1)], Search(0x1000, WORD32, true), 0, None).Loops?
  {
    var e, d, q := Entry(20, 0x10_0000, 0x10_0000, 1), Entry(20, 0, 0x8_0000, 1), Search(0x1000, WORD32, true);
    assert Scan([e, d], q, 1, Some(Start(e, q.len, q.limit))).Loops?;
  }

  /** Two equal entries do not: the start in the first is not above the second. */
  lemma EqualEntriesEnd()
    ensures var e := Entry(20, 0, 0x1000, 1);
      Scan([e, e], Search(0x1000, WORD32, true), 0, None) == Ends(Some(0))
  {
    var e, q := Entry(20, 0, 0x1000, 1), Search(0x1000, WORD32, true);
    assert RoundUp(0) == 0 && Pages(e) == 0x1000 && Start(e, q.len, q.limit) == 0;
    assert Scan([e, e], q, 2, Some(0)) == Ends(Some(0));
    assert Scan([e, e], q, 1, Some(0)) == Ends(Some(0));
  }

  function MapEnd(m: seq<byte>, mbi: nat): u32
    requires mbi + 52 <= |m|
  {
    Wrap32(Word(m, mbi + 48) + Word(m, mbi + 44))
  }

  /** Beyond the end of the list there is no entry. */
  lemma BeforeEnd(m: seq<byte>, p: nat, end: nat, es: seq<Entry>, i: nat)
    requires MapAt(m, p, end, es) && i <= |es|
    ensures i < |es| ==> AddressOf(p, es, i) < end
  {
    if i < |es| {
      assert Stands(m, p, end, es, i);
    }
  }

  /** The entry pointer does not wrap. */
  lemma NextAddress(m: seq<byte>, p: nat, end: nat, es: seq<Entry>, i: nat)
    requires MapAt(m, p, end, es) && i < |es|
    ensures AddressOf(p, es, i + 1) == Wrap32(Next(AddressOf(p, es, i), es[i]))
  {
    SizesOk(m, p, end, es);
    if i + 1 < |es| {
      AddressesAscend(p, es, i + 1, |es|);
    }
  }

  /** mbi_find_memory, where it ends. */
  method FindMemory(mem: array<byte>, mbi: u32, len: u32, highest: bool, limit: u64, ghost es: seq<Entry>)
    returns (found: bool, start: u32, blockLen: u32)
    requires mem.Length == SIZE && mbi + 52 <= SIZE
    requires MapAt(mem[..], Word(mem[..], mbi + 48), MapEnd(mem[..], mbi), es)
    requires limit > len ==> Scan(es, Search(len, limit, highest), 0, None).Ends?
    ensures found <==> limit > len && Scan(es, Search(len, limit, highest), 0, None).result.Some?
    ensures found ==> start == Scan(es, Search(len, limit, highest), 0, None).result.value && blockLen == len
  {
    found, start, blockLen := false, 0, 0;
    if limit <= len {
      return;
    }
    ghost var q, i, p0 := Search(len, limit, highest), 0, Word(mem[..], mbi + 48);
    var p: nat := Word(mem[..], mbi + 48);
    while p < MapEnd(mem[..], mbi)
      invariant 0 <= i <= |es| && p == AddressOf(p0, es, i)
      invariant Scan(es, q, i, if found then Some(start) else None) == Scan(es, q, 0, None)
      invariant found ==> blockLen == len
      decreases |es| - i
    {
      assert i < |es| && Stands(mem[..], p0, MapEnd(mem[..], mbi), es, i);
      var e := EntryAt(mem[..], p);
      if Vanishes(e) {
        assert false;
      } else if Fits(e, len, limit) {
        if found && start > RoundUp(e.addr) {
          assert false;
        }
        found, start, blockLen := true, Start(e, len, limit), len;
        if !highest {
          return;
        }
      }
      NextAddress(mem[..], p0, MapEnd(mem[..], mbi), es, i);
      p := Wrap32(Next(p, e));
      i := i + 1;
    }
    BeforeEnd(mem[..], p0, MapEnd(mem[..], mbi), es, i);
  }

  /** In an ascending map the search for the highest block always ends, with the greatest start
      at which there is room. */
  lemma AscendingFindsGreatest(es: seq<Entry>, q: Search)
    requires q.highest && Proper(q) && Ascending(es)
    ensures Scan(es, q, 0, None).Ends?
    ensures Scan(es, q, 0, None).result == None <==> forall t: nat :: !Room(es, q, t)
    ensures Scan(es, q, 0, None).result.Some? ==>
      Room(es, q, Scan(es, q, 0, None).result.value) &&
      forall t: nat :: Room(es, q, t) ==> t <= Scan(es, q, 0, None).result.value
  {
    AscendingIsOrderly(es, q);
    HighestEndsIff(es, q, 0, None);
    HighestIsGreatest(es, q);
  }

  // ---------- mbi_alloc_protected_memory ----------

  lemma ClearLow(x: nat, p: nat)
    requires p > 0
    ensures 0 <= x - x % p <= x < x - x % p + p && (x - x % p) % p == 0
  {
    DivisionEquation(x, p);
    var q := x / p;
    MulLe(p, 0, q);
    assert x - x % p == p * q;
    MulModZero(p, q);
  }

  /** `x & ~((1 << align) - 1)`: the low bits are cleared. */
  function AlignDown(x: nat, align: nat): (r: nat)
    ensures r <= x < r + Pow2(align) && r % Pow2(align) == 0
  {
    ClearLow(x, Pow2(align));
    x - x % Pow2(align)
  }

  datatype Request = Request(len: u32, align: nat)

  /** Where a request would be cut off from the entry. */
  function CutAt(e: Entry, rq: Request): nat
    requires e.len >= rq.len
  {
    AlignDown(e.addr + e.len - rq.len, rq.align)
  }

  predicate Usable(e: Entry, rq: Request) {
    e.kind == MMAP_AVAILABLE && e.len >= rq.len && (e.addr + e.len) / WORD32 == 0 && CutAt(e, rq) > e.addr
  }

  /** The request may be cut off from entry e at t: the region is aligned, ends at most where the
      entry does, below 4 GB, and leaves something of the entry. */
  ghost predicate Serves(e: Entry, rq: Request, t: nat) {
    e.kind == 1 && e.addr < t && t % Pow2(rq.align) == 0 && t + rq.len <= e.addr + e.len < WORD32
  }

  lemma MulLess(p: nat, b: nat, a: nat)
    requires p * b < p * a
    ensures b < a
  {
    if a <= b {
      MulLe(p, a, b);
    }
  }

  /** AlignDown gives the greatest multiple. */
  lemma AlignDownGreatest(x: nat, align: nat, t: nat)
    requires t % Pow2(align) == 0 && t <= x
    ensures t <= AlignDown(x, align)
  {
    var p, d := Pow2(align), AlignDown(x, align);
    if t > d {
      DivisionEquation(t, p);
      DivisionEquation(d, p);
      var a, b := t / p, d / p;
      assert t == p * a && d == p * b;
      MulLess(p, b, a);
      assert p * (b + 1) == p * b + p;
      MulLe(p, b + 1, a);
      assert false;
    }
  }

  /** An entry is usable if and only if it can serve the request, and it is cut at the greatest
      address at which it can. */
  lemma UsableIff(e: Entry, rq: Request)
    ensures Usable(e, rq) <==> exists t: nat :: Serves(e, rq, t)
    ensures Usable(e, rq) ==> Serves(e, rq, CutAt(e, rq)) && forall t: nat :: Serves(e, rq, t) ==> t <= CutAt(e, rq)
  {
    DivisionEquation(e.addr + e.len, WORD32);
    forall t: nat | Serves(e, rq, t) ensures Usable(e, rq) && t <= CutAt(e, rq) {
      AlignDownGreatest(e.addr + e.len - rq.len, rq.align, t);
    }
    if Usable(e, rq) {
      assert Serves(e, rq, CutAt(e, rq));
    }
  }

  /** The first usable entry from index i on. */
  function FirstUsable(es: seq<Entry>, rq: Request, i: nat): (k: nat)
    requires i <= |es|
    ensures i <= k <= |es|
    ensures k < |es| ==> Usable(es[k], rq)
    ensures forall j :: i <= j < k ==> !Usable(es[j], rq)
    decreases |es| - i
  {
    if i == |es| || Usable(es[i], rq) then i else FirstUsable(es, rq, i + 1)
  }

  function Shortened(e: Entry, rq: Request): (s: Entry)
    requires Usable(e, rq)
    ensures 0 < s.len <= e.len && s.addr + s.len == CutAt(e, rq)
  {
    e.(len := CutAt(e, rq) - e.addr)
  }

  ghost function MapSize(p: nat, es: seq<Entry>): int {
    AddressOf(p, es, |es|) - p
  }

  /** The map `es` stands in memory, apart from the fields that point to it, and no entry reaches
      beyond the 64-bit addresses. */
  ghost predicate AllocOk(m: seq<byte>, mbi: nat, es: seq<Entry>) {
    mbi + 52 <= SIZE == |m| && MapAt(m, Word(m, mbi + 48), MapEnd(m, mbi), es) &&
    Apart(mbi + 44, 8, Word(m, mbi + 48), MapSize(Word(m, mbi + 48), es)) &&
    forall i :: 0 <= i < |es| ==> es[i].addr + es[i].len < WORD64
  }

  /** The entries lie between the start of the list and its end. */
  lemma EntryWithin(m: seq<byte>, p: nat, end: nat, es: seq<Entry>, i: nat)
    requires MapAt(m, p, end, es) && i < |es|
    ensures EntryIs(m, AddressOf(p, es, i), end, es[i])
    ensures p <= AddressOf(p, es, i) && AddressOf(p, es, i) + 24 <= AddressOf(p, es, |es|)
  {
    SizesOk(m, p, end, es);
    assert Stands(m, p, end, es, i);
    AddressesAscend(p, es, i, |es|);
    if i > 0 {
      AddressesAscend(p, es, 0, i);
    }
  }

  /** The loop over the map. */
  method FindUsable(mem: array<byte>, mbi: u32, rq: Request, ghost es: seq<Entry>) returns (r: Option<nat>)
    requires mem.Length == SIZE && mbi + 52 <= SIZE
    requires MapAt(mem[..], Word(mem[..], mbi + 48), MapEnd(mem[..], mbi), es)
    ensures r.Some? <==> FirstUsable(es, rq, 0) < |es|
    ensures r.Some? ==>
      r.value == AddressOf(Word(mem[..], mbi + 48), es, FirstUsable(es, rq, 0)) && r.value + 24 <= SIZE &&
      EntryAt(mem[..], r.value) == es[FirstUsable(es, rq, 0)]
  {
    ghost var p0, end := Word(mem[..], mbi + 48), MapEnd(mem[..], mbi);
    var p: nat := Word(mem[..], mbi + 48);
    ghost var i := 0;
    while p < MapEnd(mem[..], mbi)
      invariant 0 <= i <= |es| && p == AddressOf(p0, es, i)
      invariant FirstUsable(es, rq, i) == FirstUsable(es, rq, 0)
      decreases |es| - i
    {
      EntryWithin(mem[..], p0, end, es, i);
      var e := EntryAt(mem[..], p);
      if Usable(e, rq) {
        return Some(p);
      }
      NextAddress(mem[..], p0, MapEnd(mem[..], mbi), es, i);
      p := Wrap32(Next(p, e));
      i := i + 1;
    }
    BeforeEnd(mem[..], p0, end, es, i);
    return None;
  }

  lemma SameMapFields(m: seq<byte>, m': seq<byte>, mbi: nat)
    requires Same(m, m', mbi + 44, mbi + 52)
    ensures Word(m, mbi + 48) == Word(m', mbi + 48) && MapEnd(m, mbi) == MapEnd(m', mbi)
  {
    assert Word(m, mbi + 44) == Word(m', mbi + 44);
  }

  lemma SameEntry(m: seq<byte>, m': seq<byte>, a: nat, b: nat)
    requires SameOutside(m, m', b + 12, b + 20) && (a + 24 <= b || b + 24 <= a) && a + 24 <= |m|
    ensures EntryAt(m, a) == EntryAt(m', a)
  {
  }

  lemma EntryKept(m: seq<byte>, m': seq<byte>, p: nat, end: nat, es: seq<Entry>, i: nat, k: nat)
    requires MapAt(m, p, end, es) && i < |es| && k < |es|
    requires SameOutside(m, m', AddressOf(p, es, i) + 12, AddressOf(p, es, i) + 20)
    ensures AddressOf(p, es, k) < end && es[k].size >= 20
    ensures k != i ==> EntryIs(m', AddressOf(p, es, k), end, es[k])
  {
    SizesOk(m, p, end, es);
    assert Stands(m, p, end, es, k) && Stands(m, p, end, es, i);
    if k < i {
      AddressesAscend(p, es, k, i);
    } else if i < k {
      AddressesAscend(p, es, i, k);
    }
    if k != i {
      SameEntry(m, m', AddressOf(p, es, k), AddressOf(p, es, i));
    }
  }

  lemma {:induction false} SameAddresses(p: nat, es: seq<Entry>, i: nat, e: Entry, k: nat)
    requires i < |es| && e.size == es[i].size && k <= |es|
    ensures AddressOf(p, es[i := e], k) == AddressOf(p, es, k)
    decreases k
  {
    if k > 0 {
      SameAddresses(p, es, i, e, k - 1);
    }
  }

  /** Changing the length of entry i changes nothing else in the list. */
  lemma EntryShortened(m: seq<byte>, m': seq<byte>, p: nat, end: nat, es: seq<Entry>, i: nat, e: Entry)
    requires MapAt(m, p, end, es) && i < |es| && e.size == es[i].size
    requires SameOutside(m, m', AddressOf(p, es, i) + 12, AddressOf(p, es, i) + 20)
    requires AddressOf(p, es, i) + 24 <= |m| && EntryAt(m', AddressOf(p, es, i)) == e
    ensures MapAt(m', p, end, es[i := e])
  {
    var es' := es[i := e];
    SameAddresses(p, es, i, e, |es|);
    forall k | 0 <= k < |es'|
      ensures Stands(m', p, end, es', k)
    {
      SameAddresses(p, es, i, e, k);
      EntryKept(m, m', p, end, es, i, k);
    }
  }

  lemma ShortenedOk(m: seq<byte>, m': seq<byte>, mbi: nat, es: seq<Entry>, i: nat, e: Entry)
    requires AllocOk(m, mbi, es) && i < |es| && e == es[i].(len := e.len) && e.len <= es[i].len
    requires var a := AddressOf(Word(m, mbi + 48), es, i); a + 24 <= |m| && SameOutside(m, m', a + 12, a + 20) && EntryAt(m', a) == e
    ensures AllocOk(m', mbi, es[i := e])
    ensures Word(m', mbi + 48) == Word(m, mbi + 48) && MapEnd(m', mbi) == MapEnd(m, mbi)
  {
    var p, end := Word(m, mbi + 48), MapEnd(m, mbi);
    EntryWithin(m, p, end, es, i);
    EntryShortened(m, m', p, end, es, i, e);
    SameMapFields(m, m', mbi);
    SameAddresses(p, es, i, e, |es|);
  }

  /** The cut lies below 4 GB. */
  lemma ShortenedFits(e: Entry, rq: Request)
    requires Usable(e, rq)
    ensures CutAt(e, rq) < WORD32
  {
    DivisionEquation(e.addr + e.len, WORD32);
  }

  /** Writes back the two halves of the new length. */
  method ShortenEntry(mem: array<byte>, p: nat, e: Entry, rq: Request)
    requires p + 24 <= mem.Length && EntryAt(mem[..], p) == e && Usable(e, rq)
    modifies mem
    ensures EntryAt(mem[..], p) == Shortened(e, rq) && SameOutside(old(mem[..]), mem[..], p + 12, p + 20)
  {
    var len := Shortened(e, rq).len;
    WriteWord(mem, p + 16, len / WORD32);
    WriteWord(mem, p + 12, len % WORD32);
  }

  /** Shortens entry i of the map. */
  method TakeFrom(mem: array<byte>, mbi: u32, p: nat, e: Entry, rq: Request, ghost es: seq<Entry>, ghost i: nat)
    returns (r: Option<u32>)
    requires AllocOk(mem[..], mbi, es) && i < |es| && e == es[i] && Usable(e, rq)
    requires p == AddressOf(Word(mem[..], mbi + 48), es, i)
    modifies mem
    ensures AllocOk(mem[..], mbi, es[i := Shortened(e, rq)]) && r == Some(CutAt(e, rq))
    ensures Word(mem[..], mbi + 48) == old(Word(mem[..], mbi + 48)) && MapEnd(mem[..], mbi) == old(MapEnd(mem[..], mbi))
    ensures SameOutside(old(mem[..]), mem[..], p + 12, p + 20)
  {
    ghost var m0 := mem[..];
    EntryWithin(m0, Word(m0, mbi + 48), MapEnd(m0, mbi), es, i);
    ShortenEntry(mem, p, e, rq);
    ShortenedOk(m0, mem[..], mbi, es, i, Shortened(e, rq));
    ShortenedFits(e, rq);
    r := Some(CutAt(e, rq));
  }

  lemma FirstServes(es: seq<Entry>, rq: Request, i: nat)
    requires i == FirstUsable(es, rq, 0)
    ensures forall k, t: nat :: 0 <= k < i ==> !Serves(es[k], rq, t)
    ensures i < |es| ==>
      Serves(es[i], rq, CutAt(es[i], rq)) && forall t: nat :: Serves(es[i], rq, t) ==> t <= CutAt(es[i], rq)
  {
    forall k, t: nat | 0 <= k < i ensures !Serves(es[k], rq, t) {
      UsableIff(es[k], rq);
    }
    if i < |es| {
      UsableIff(es[i], rq);
    }
  }

  /** mbi_alloc_protected_memory; `align` is a shift count. None stands for the failing assertion.
      The request is served from the first entry i that can serve it, at the greatest address
      there; it fails if there is no such entry. Nothing changes but the eight bytes for the length
      of that entry, which then ends where the region begins. */
  method AllocProtected(mem: array<byte>, mbi: u32, rq: Request, ghost es: seq<Entry>) returns (r: Option<u32>, ghost i: nat)
    requires AllocOk(mem[..], mbi, es) && rq.align < 32
    modifies mem
    ensures i <= |es| && (r.Some? <==> i < |es|)
    ensures forall k, t: nat :: 0 <= k < i ==> !Serves(es[k], rq, t)
    ensures r.Some? ==> Serves(es[i], rq, r.value) && forall t: nat :: Serves(es[i], rq, t) ==> t <= r.value
    ensures r.Some? ==> AllocOk(mem[..], mbi, es[i := es[i].(len := r.value - es[i].addr)])
    ensures i == FirstUsable(es, rq, 0)
    ensures r.None? ==> mem[..] == old(mem[..])
    ensures r.Some? ==> r.value == CutAt(es[FirstUsable(es, rq, 0)], rq)
    ensures r.Some? ==>
      AllocOk(mem[..], mbi, es[FirstUsable(es, rq, 0) := Shortened(es[FirstUsable(es, rq, 0)], rq)])
    ensures Word(mem[..], mbi + 48) == old(Word(mem[..], mbi + 48)) && MapEnd(mem[..], mbi) == old(MapEnd(mem[..], mbi))
    ensures var a := AddressOf(old(Word(mem[..], mbi + 48)), es, i); SameOutside(old(mem[..]), mem[..], a + 12, a + 20)
  {
    var p := FindUsable(mem, mbi, rq, es);
    i := FirstUsable(es, rq, 0);
    FirstServes(es, rq, i);
    if p.Some? {
      var e := EntryAt(mem[..], p.value);
      r := TakeFrom(mem, mbi, p.value, e, rq, es, FirstUsable(es, rq, 0));
    } else {
      r := None;
    }
  }

  // ---------- runs of allocations ----------

  /** A region that was handed out, and the entry it was cut from. */
  datatype Grant = Grant(i: nat, start: nat, end: nat)

  datatype Heap = Heap(entries: seq<Entry>, given: seq<Grant>)

  /** What one call does. */
  ghost function Serve(h: Heap, rq: Request): Heap {
    var i := FirstUsable(h.entries, rq, 0);
    if i == |h.entries| then h
    else
      var e := h.entries[i];
      Heap(h.entries[i := Shortened(e, rq)], h.given + [Grant(i, CutAt(e, rq), e.addr + e.len)])
  }

  ghost function ServeAll(es: seq<Entry>, rqs: seq<Request>): Heap
    decreases |rqs|
  {
    if |rqs| == 0 then Heap(es, []) else Serve(ServeAll(es, rqs[..|rqs| - 1]), rqs[|rqs| - 1])
  }

  /** The addresses that the callers get. */
  ghost function Starts(given: seq<Grant>): (rs: seq<nat>)
    ensures |rs| == |given|
  {
    seq(|given|, k requires 0 <= k < |given| => given[k].start)
  }

  predicate NoneUsable(es: seq<Entry>, rq: Request) {
    forall i :: 0 <= i < |es| ==> !Usable(es[i], rq)
  }

  /** One of the calls. */
  method AllocNext(mem: array<byte>, mbi: u32, rq: Request, ghost h: Heap, ghost p: nat) returns (r: Option<u32>, ghost h': Heap)
    requires AllocOk(mem[..], mbi, h.entries) && rq.align < 32 && p == Word(mem[..], mbi + 48)
    modifies mem
    ensures r.None? ==> NoneUsable(h.entries, rq) && h' == h && mem[..] == old(mem[..])
    ensures r.Some? ==> h' == Serve(h, rq) && Starts(h'.given) == Starts(h.given) + [r.value]
    ensures AllocOk(mem[..], mbi, h'.entries) && Word(mem[..], mbi + 48) == p && MapSize(p, h'.entries) == MapSize(p, h.entries)
    ensures SameOutside(old(mem[..]), mem[..], p, p + MapSize(p, h.entries))
  {
    ghost var i := FirstUsable(h.entries, rq, 0);
    if i < |h.entries| {
      EntryWithin(mem[..], p, MapEnd(mem[..], mbi), h.entries, i);
      SameAddresses(p, h.entries, i, Shortened(h.entries[i], rq), |h.entries|);
    }
    ghost var k;
    r, k := AllocProtected(mem, mbi, rq, h.entries);
    h' := if r.Some? then Serve(h, rq) else h;
  }

  lemma ServeAllNext(es: seq<Entry>, rqs: seq<Request>, k: nat)
    requires k < |rqs|
    ensures ServeAll(es, rqs[..k + 1]) == Serve(ServeAll(es, rqs[..k]), rqs[k])
  {
    assert rqs[..k + 1][..k] == rqs[..k];
  }

  /** A run of calls, which ends early if one of them halts. Map and results are those of
      ServeAll, and nothing outside the map changes. */
  method AllocAll(mem: array<byte>, mbi: u32, rqs: seq<Request>, ghost es: seq<Entry>) returns (rs: seq<u32>)
    requires AllocOk(mem[..], mbi, es) && forall k :: 0 <= k < |rqs| ==> rqs[k].align < 32
    modifies mem
    ensures |rs| <= |rqs| && AllocOk(mem[..], mbi, ServeAll(es, rqs[..|rs|]).entries)
    ensures rs == Starts(ServeAll(es, rqs[..|rs|]).given)
    ensures |rs| < |rqs| ==> NoneUsable(ServeAll(es, rqs[..|rs|]).entries, rqs[|rs|])
    ensures var p := old(Word(mem[..], mbi + 48));
      Word(mem[..], mbi + 48) == p && SameOutside(old(mem[..]), mem[..], p, p + MapSize(p, es))
  {
    ghost var m0, p, h := mem[..], Word(mem[..], mbi + 48), Heap(es, []);
    rs := [];
    while |rs| < |rqs|
      invariant |rs| <= |rqs| && h == ServeAll(es, rqs[..|rs|]) && rs == Starts(h.given)
      invariant AllocOk(mem[..], mbi, h.entries) && Word(mem[..], mbi + 48) == p
      invariant SameOutside(m0, mem[..], p, p + MapSize(p, es)) && MapSize(p, h.entries) == MapSize(p, es)
    {
      var r;
      r, h := AllocNext(mem, mbi, rqs[|rs|], h, p);
      if r.None? {
        return;
      }
      ServeAllNext(es, rqs, |rs|);
      rs := rs + [r.value];
    }
  }

  predicate Holds(e: Entry, x: int) {
    e.addr <= x < e.addr + e.len
  }

  predicate Covers(g: Grant, x: int) {
    g.start <= x < g.end
  }

  /** Address x is in a region cut from entry i. */
  ghost predicate Granted(given: seq<Grant>, i: nat, x: int) {
    exists k :: 0 <= k < |given| && given[k].i == i && Covers(given[k], x)
  }

  /** Entry i now, and the regions cut from it, make up what it was. */
  ghost predicate Intact(es: seq<Entry>, h: Heap) {
    |h.entries| == |es| &&
    (forall i :: 0 <= i < |es| ==> h.entries[i] == es[i].(len := h.entries[i].len) && h.entries[i].len <= es[i].len) &&
    (forall i :: 0 <= i < |es| && h.entries[i].len != es[i].len ==> h.entries[i].len > 0) &&
    forall i, x :: 0 <= i < |es| ==> (Holds(es[i], x) <==> Holds(h.entries[i], x) || Granted(h.given, i, x))
  }

  lemma GrantedMore(given: seq<Grant>, g: Grant, i: nat, x: int)
    ensures Granted(given + [g], i, x) <==> Granted(given, i, x) || (g.i == i && Covers(g, x))
  {
    var more := given + [g];
    assert more[|given|] == g && forall k :: 0 <= k < |given| ==> more[k] == given[k];
    if g.i == i && Covers(g, x) {
      assert more[|given|].i == i && Covers(more[|given|], x);
    }
    if Granted(given, i, x) {
      var k :| 0 <= k < |given| && given[k].i == i && Covers(given[k], x);
      assert more[k].i == i && Covers(more[k], x);
    }
  }

  /** Every region lies in memory that was available, above what is left of its entry and above
      every later region from the same entry. */
  ghost predicate Separate(es: seq<Entry>, h: Heap) {
    |h.entries| == |es| &&
    (forall k :: 0 <= k < |h.given| ==>
      h.given[k].i < |es| && es[h.given[k].i].kind == MMAP_AVAILABLE &&
      es[h.given[k].i].addr + h.entries[h.given[k].i].len <= h.given[k].start <= h.given[k].end) &&
    forall j, k :: 0 <= j < k < |h.given| && h.given[j].i == h.given[k].i ==> h.given[k].end <= h.given[j].start
  }

  lemma IntactStep(es: seq<Entry>, h: Heap, rq: Request)
    requires Intact(es, h)
    ensures Intact(es, Serve(h, rq))
  {
    var i := FirstUsable(h.entries, rq, 0);
    if i < |h.entries| {
      var e := h.entries[i];
      var g := Grant(i, CutAt(e, rq), e.addr + e.len);
      var h' := Serve(h, rq);
      forall j, x | 0 <= j < |es|
        ensures Holds(es[j], x) <==> Holds(h'.entries[j], x) || Granted(h'.given, j, x)
      {
        GrantedMore(h.given, g, j, x);
      }
    }
  }

  lemma SeparateStep(es: seq<Entry>, h: Heap, rq: Request)
    requires Intact(es, h) && Separate(es, h)
    ensures Separate(es, Serve(h, rq))
  {
  }

  /** Both hold after every run of allocations. */
  lemma {:induction false} RunsKeep(es: seq<Entry>, rqs: seq<Request>)
    ensures Intact(es, ServeAll(es, rqs)) && Separate(es, ServeAll(es, rqs))
  {
    if |rqs| > 0 {
      var init := rqs[..|rqs| - 1];
      RunsKeep(es, init);
      IntactStep(es, ServeAll(es, init), rqs[|rqs| - 1]);
      SeparateStep(es, ServeAll(es, init), rqs[|rqs| - 1]);
    }
  }

  /** The entries have no address in common. */
  ghost predicate Disjoint(es: seq<Entry>) {
    forall i, j :: 0 <= i < |es| && 0 <= j < |es| && i != j ==> Apart(es[i].addr, es[i].len, es[j].addr, es[j].len)
  }

  /** In a disjoint map, whatever is requested: no address is handed out twice, none that is
      handed out is still listed, and all of them were available memory. */
  lemma AllocationsAreSafe(es: seq<Entry>, rqs: seq<Request>, k: nat, x: int)
    requires Disjoint(es) && k < |ServeAll(es, rqs).given| && Covers(ServeAll(es, rqs).given[k], x)
    ensures var h := ServeAll(es, rqs);
      h.given[k].i < |es| && Holds(es[h.given[k].i], x) && es[h.given[k].i].kind == MMAP_AVAILABLE
    ensures var h := ServeAll(es, rqs); forall j :: 0 <= j < |h.given| && j != k ==> !Covers(h.given[j], x)
    ensures var h := ServeAll(es, rqs); forall i :: 0 <= i < |h.entries| ==> !Holds(h.entries[i], x)
  {
    RunsKeep(es, rqs);
    var h := ServeAll(es, rqs);
    forall j | 0 <= j < |h.given| && Covers(h.given[j], x)
      ensures h.given[j].i < |es| && Holds(es[h.given[j].i], x)
    {
      assert Granted(h.given, h.given[j].i, x);
    }
  }

  /** A served request gets an aligned region that is large enough, below 4 GB. */
  lemma GrantsAreAligned(h: Heap, rq: Request)
    requires FirstUsable(h.entries, rq, 0) < |h.entries|
    ensures |Serve(h, rq).given| == |h.given| + 1
    ensures var g := Serve(h, rq).given[|h.given|];
      g.start % Pow2(rq.align) == 0 && g.start + rq.len <= g.end < WORD32
  {
    var e := h.entries[FirstUsable(h.entries, rq, 0)];
    DivisionEquation(e.addr + e.len, WORD32);
  }
}
