/** The remote boot handshake: the host's writes (boot/morbo.py) arrive in order, in packets, at a
    target (standalone/morbo.c) that polls the module count meanwhile. */
module Handshake {
  import opened Words
  import opened Memory
  import opened RemoteBoot

  /** A part of a write, as it arrives. */
  datatype Packet = Packet(addr: nat, data: seq<byte>)

  /** `ps` are the n bytes of a write to `addr`, cut into packets. */
  ghost predicate Cut(ps: seq<Packet>, addr: nat, data: seq<byte>) {
    if |ps| == 0 then data == []
    else
      ps[0].addr == addr && 0 < |ps[0].data| <= |data| && ps[0].data == data[..|ps[0].data|] &&
      Cut(ps[1..], addr + |ps[0].data|, data[|ps[0].data|..])
  }

  /** `ps` are the packets of some writes, one after the other. */
  ghost predicate CutAll(ps: seq<Packet>, ws: seq<Write>) {
    if |ws| == 0 then ps == []
    else exists k :: 0 <= k <= |ps| && Cut(ps[..k], ws[0].addr, ws[0].data) && CutAll(ps[k..], ws[1..])
  }

  /** Memory after a packet. */
  ghost function Stored(m: seq<byte>, p: Packet): (r: seq<byte>)
    requires p.addr + |p.data| <= |m|
    ensures |r| == |m|
  {
    seq(|m|, a requires 0 <= a < |m| => if p.addr <= a < p.addr + |p.data| then p.data[a - p.addr] else m[a])
  }

  ghost predicate PacketsFit(ps: seq<Packet>) {
    forall i :: 0 <= i < |ps| ==> ps[i].addr + |ps[i].data| <= SIZE
  }

  ghost function StoredAll(m: seq<byte>, ps: seq<Packet>): (r: seq<byte>)
    requires |m| == SIZE && PacketsFit(ps)
    ensures |r| == SIZE
    decreases |ps|
  {
    if |ps| == 0 then m else StoredAll(Stored(m, ps[0]), ps[1..])
  }

  // ---------- the boot information ----------

  const FLAG_MODS := 8
  const COUNT := 20
  const MODS_ADDR := 24

  function Count(m: seq<byte>, mbi: nat): u32
    requires mbi + 28 <= |m|
  {
    Word(m, mbi + COUNT)
  }

  /** The host's update of the first 28 bytes: the module flag and the table's address; everything
      else, and the count above all, is written back as it was read. */
  ghost predicate Updated(w: seq<byte>, w': seq<byte>, table: u32) {
    |w| == |w'| == 28 && Same(w, w', 4, MODS_ADDR) &&
    Word(w', 0) == Or(Word(w, 0), FLAG_MODS) && Word(w', MODS_ADDR) == table
  }

  // ---------- the protocol ----------

  /** Where the host is: pushing modules and table, updating the boot information, or done with
      that and writing the count. */
  datatype Phase = Pushing | Updating | Counting

  /** The target: before its store of 0 into the count, polling, or out of the loop. */
  datatype Target = Starting | Polling | Released

  datatype State = State(mem: seq<byte>, queue: seq<Packet>, phase: Phase, target: Target)

  /** What is fixed in a run; `info` is the boot information before it. */
  datatype Setup = Setup(mbi: nat, info: seq<byte>, mods: seq<Pushed>, writes: seq<Write>)

  ghost predicate WritesApart(ws: seq<Write>, mbi: nat) {
    (forall i :: 0 <= i < |ws| ==> ws[i].addr + |ws[i].data| <= SIZE && Apart(ws[i].addr, |ws[i].data|, mbi, 28)) &&
    forall i, j :: 0 <= i < j < |ws| ==> Apart(ws[i].addr, |ws[i].data|, ws[j].addr, |ws[j].data|)
  }

  /** The writes of a plan of `Boot`, to disjoint regions. */
  ghost predicate SetupOk(u: Setup) {
    var table := u.mbi + TABLE_OFFSET;
    table < SIZE && |u.info| == 28 && RowsFit(u.mods, table, |u.mods|) && WritesApart(u.writes, u.mbi) && |u.mods| < WORD32 &&
    u.writes == WritesOf(u.mods) + [Write(table, Rows(u.mods, table, |u.mods|) + CommandLines(u.mods, |u.mods|))]
  }

  ghost predicate Init(u: Setup, s: State) {
    |s.mem| == SIZE && u.mbi + 28 <= SIZE && At(s.mem, u.mbi, u.info) && CutAll(s.queue, u.writes) &&
    s.phase == Pushing && s.target == Starting && Count(s.mem, u.mbi) == 0
  }

  /** The next packet arrives. */
  ghost predicate Arrive(s: State, s': State) {
    |s.queue| > 0 && s.queue[0].addr + |s.queue[0].data| <= |s.mem| &&
    s' == s.(mem := Stored(s.mem, s.queue[0]), queue := s.queue[1..])
  }

  /** All writes have arrived: the host reads the boot information and sends it back updated. */
  ghost predicate Update(u: Setup, s: State, s': State) {
    s.phase == Pushing && |s.queue| == 0 && u.mbi + 28 <= |s.mem| && s' == s.(queue := s'.queue, phase := Updating) &&
    exists w: seq<byte> ::
      Updated(s.mem[u.mbi..u.mbi + 28], w, Wrap32(u.mbi + TABLE_OFFSET)) && Cut(s'.queue, u.mbi, w)
  }

  /** That has arrived too: the host writes the count, which is a single packet. */
  ghost predicate Release(u: Setup, s: State, s': State) {
    s.phase == Updating && |s.queue| == 0 &&
    s' == s.(queue := [Packet(u.mbi + COUNT, WordBytes(Wrap32(|u.mods|)))], phase := Counting)
  }

  /** The target's store of 0. */
  ghost predicate Clear(u: Setup, s: State, s': State) {
    s.target == Starting && u.mbi + 28 <= |s.mem| &&
    s' == s.(mem := Stored(s.mem, Packet(u.mbi + COUNT, WordBytes(0))), target := Polling)
  }

  /** One turn of its loop. */
  ghost predicate Poll(u: Setup, s: State, s': State) {
    s.target == Polling && u.mbi + 28 <= |s.mem| &&
    s' == if Count(s.mem, u.mbi) == 0 then s else s.(target := Released)
  }

  ghost predicate Next(u: Setup, s: State, s': State) {
    Arrive(s, s') || Update(u, s, s') || Release(u, s, s') || Clear(u, s, s') || Poll(u, s, s')
  }

  /** A run of the system. */
  ghost predicate IsRun(u: Setup, run: seq<State>) {
    |run| > 0 && Init(u, run[0]) && forall i :: 0 <= i < |run| - 1 ==> Next(u, run[i], run[i + 1])
  }

  // ---------- what holds in every state ----------

  ghost predicate AllWritten(m: seq<byte>, ws: seq<Write>) {
    forall i :: 0 <= i < |ws| ==> At(m, ws[i].addr, ws[i].data)
  }

  /** Flags with bit 3 set. */
  function WithModules(flags: u32): nat {
    if flags / 8 % 2 == 1 then flags else flags + 8
  }

  /** The boot information points to the table; its other flags and fields are those of `info`. */
  ghost predicate MbiReady(m: seq<byte>, mbi: nat, info: seq<byte>) {
    mbi + 28 <= |m| && |info| == 28 && Word(m, mbi + 24) == mbi + 0x4000 && At(m, mbi + 4, info[4..20]) &&
    Word(m, mbi) == WithModules(Word(info, 0))
  }

  /** Packets that miss the boot information. */
  ghost predicate MissMbi(ps: seq<Packet>, mbi: nat) {
    forall i :: 0 <= i < |ps| ==> Apart(ps[i].addr, |ps[i].data|, mbi, 28)
  }

  /** Packets inside the boot information, with zeros for the count. */
  ghost predicate KeepCount(ps: seq<Packet>, mbi: nat) {
    (forall i :: 0 <= i < |ps| ==> mbi <= ps[i].addr && ps[i].addr + |ps[i].data| <= mbi + 28) &&
    forall i, k :: 0 <= i < |ps| && 0 <= k < |ps[i].data| && mbi + COUNT <= ps[i].addr + k < mbi + COUNT + 4 ==>
      ps[i].data[k] == 0
  }

  ghost predicate Inv(u: Setup, s: State) {
    u.mbi + 28 <= SIZE == |s.mem| && |u.mods| < WORD32 && PacketsFit(s.queue) &&
    match s.phase
    case Pushing =>
      s.target != Released && Count(s.mem, u.mbi) == 0 && MissMbi(s.queue, u.mbi) && At(s.mem, u.mbi, u.info) &&
      AllWritten(StoredAll(s.mem, s.queue), u.writes)
    case Updating =>
      s.target != Released && Count(s.mem, u.mbi) == 0 && AllWritten(s.mem, u.writes) && KeepCount(s.queue, u.mbi) &&
      MbiReady(StoredAll(s.mem, s.queue), u.mbi, u.info)
    case Counting =>
      AllWritten(s.mem, u.writes) && MbiReady(s.mem, u.mbi, u.info) &&
      if |s.queue| > 0 then
        s.target != Released && Count(s.mem, u.mbi) == 0 &&
        s.queue == [Packet(u.mbi + COUNT, WordBytes(Wrap32(|u.mods|)))]
      else
        (Count(s.mem, u.mbi) == 0 || Count(s.mem, u.mbi) == |u.mods|) &&
        (s.target == Released ==> Count(s.mem, u.mbi) == |u.mods| != 0)
  }

  // ---------- packets and writes ----------

  lemma {:induction false} StoredAllConcat(m: seq<byte>, ps: seq<Packet>, qs: seq<Packet>)
    requires |m| == SIZE && PacketsFit(ps) && PacketsFit(qs)
    ensures PacketsFit(ps + qs) && StoredAll(m, ps + qs) == StoredAll(StoredAll(m, ps), qs)
    decreases |ps|
  {
    if |ps| == 0 {
      assert ps + qs == qs;
    } else {
      assert (ps + qs)[1..] == ps[1..] + qs;
      StoredAllConcat(Stored(m, ps[0]), ps[1..], qs);
    }
  }

  /** The packets of a write have the effect of the write. */
  lemma {:induction false} CutStores(m: seq<byte>, ps: seq<Packet>, addr: nat, data: seq<byte>)
    requires |m| == SIZE && Cut(ps, addr, data) && addr + |data| <= SIZE
    ensures PacketsFit(ps) && StoredAll(m, ps) == Stored(m, Packet(addr, data))
    decreases |ps|
  {
    if |ps| > 0 {
      var p, n := ps[0], |ps[0].data|;
      CutStores(Stored(m, p), ps[1..], addr + n, data[n..]);
      assert forall k :: 0 <= k < |data| - n ==> data[n..][k] == data[n + k];
      assert Stored(Stored(m, p), Packet(addr + n, data[n..])) == Stored(m, Packet(addr, data));
    }
  }

  /** Every packet of a write carries bytes of it. */
  lemma {:induction false} CutBytes(ps: seq<Packet>, addr: nat, data: seq<byte>, i: nat)
    requires Cut(ps, addr, data) && i < |ps|
    ensures addr <= ps[i].addr && ps[i].addr + |ps[i].data| <= addr + |data|
    ensures forall k :: 0 <= k < |ps[i].data| ==> ps[i].data[k] == data[ps[i].addr - addr + k]
    decreases |ps|
  {
    if i > 0 {
      var n := |ps[0].data|;
      CutBytes(ps[1..], addr + n, data[n..], i - 1);
    }
  }

  /** Memory after some writes. */
  ghost function AfterWrites(m: seq<byte>, ws: seq<Write>): (r: seq<byte>)
    requires |m| == SIZE && forall i :: 0 <= i < |ws| ==> ws[i].addr + |ws[i].data| <= SIZE
    ensures |r| == SIZE
    decreases |ws|
  {
    if |ws| == 0 then m else AfterWrites(Stored(m, Packet(ws[0].addr, ws[0].data)), ws[1..])
  }

  lemma {:induction false} CutAllStores(m: seq<byte>, ps: seq<Packet>, ws: seq<Write>, mbi: nat)
    requires |m| == SIZE && CutAll(ps, ws) && WritesApart(ws, mbi)
    ensures PacketsFit(ps) && StoredAll(m, ps) == AfterWrites(m, ws) && MissMbi(ps, mbi)
    decreases |ws|
  {
    if |ws| > 0 {
      var k :| 0 <= k <= |ps| && Cut(ps[..k], ws[0].addr, ws[0].data) && CutAll(ps[k..], ws[1..]);
      var first, rest := ps[..k], ps[k..];
      assert ps == first + rest;
      CutStores(m, first, ws[0].addr, ws[0].data);
      CutAllStores(StoredAll(m, first), rest, ws[1..], mbi);
      StoredAllConcat(m, first, rest);
      forall i | 0 <= i < |ps| ensures Apart(ps[i].addr, |ps[i].data|, mbi, 28) {
        if i < k {
          CutBytes(first, ws[0].addr, ws[0].data, i);
          assert ps[i] == first[i];
        } else {
          assert ps[i] == rest[i - k];
        }
      }
    }
  }

  /** Writes elsewhere leave a region alone. */
  lemma {:induction false} WrittenElsewhere(m: seq<byte>, ws: seq<Write>, lo: nat, n: nat)
    requires |m| == SIZE && lo + n <= SIZE
    requires forall i :: 0 <= i < |ws| ==> ws[i].addr + |ws[i].data| <= SIZE && Apart(ws[i].addr, |ws[i].data|, lo, n)
    ensures Same(m, AfterWrites(m, ws), lo, lo + n)
    decreases |ws|
  {
    if |ws| > 0 {
      WrittenElsewhere(Stored(m, Packet(ws[0].addr, ws[0].data)), ws[1..], lo, n);
    }
  }

  /** After writes to disjoint regions all of them stand. */
  lemma {:induction false} AllStand(m: seq<byte>, ws: seq<Write>, mbi: nat)
    requires |m| == SIZE && WritesApart(ws, mbi)
    ensures AllWritten(AfterWrites(m, ws), ws)
    decreases |ws|
  {
    if |ws| > 0 {
      var w, m1 := ws[0], Stored(m, Packet(ws[0].addr, ws[0].data));
      AllStand(m1, ws[1..], mbi);
      forall i | 0 <= i < |ws[1..]|
        ensures ws[1..][i].addr + |ws[1..][i].data| <= SIZE && Apart(ws[1..][i].addr, |ws[1..][i].data|, w.addr, |w.data|)
      {
        assert ws[1..][i] == ws[i + 1];
      }
      WrittenElsewhere(m1, ws[1..], w.addr, |w.data|);
      forall i | 0 <= i < |ws| ensures At(AfterWrites(m, ws), ws[i].addr, ws[i].data) {
        if i > 0 {
          assert ws[i] == ws[1..][i - 1];
        }
      }
    }
  }

  // ---------- the invariant is kept ----------

  lemma InitInv(u: Setup, s: State)
    requires SetupOk(u) && Init(u, s)
    ensures Inv(u, s)
  {
    CutAllStores(s.mem, s.queue, u.writes, u.mbi);
    AllStand(s.mem, u.writes, u.mbi);
  }

  lemma ZeroWord(m: seq<byte>, a: nat)
    requires a + 4 <= |m|
    ensures Word(m, a) == 0 <==> forall k :: a <= k < a + 4 ==> m[k] == 0
  {
    assert Word(m, a) == 0 <==> Half(m, a) == 0 && Half(m, a + 2) == 0;
  }

  /** A packet in the boot information leaves the writes alone. */
  lemma WritesStay(u: Setup, m: seq<byte>, p: Packet)
    requires SetupOk(u) && |m| == SIZE && AllWritten(m, u.writes)
    requires u.mbi <= p.addr && p.addr + |p.data| <= u.mbi + 28
    ensures AllWritten(Stored(m, p), u.writes)
  {
  }

  lemma PushInv(u: Setup, s: State, s': State)
    requires SetupOk(u) && Inv(u, s) && Arrive(s, s') && s.phase == Pushing
    ensures Inv(u, s')
  {
    assert Apart(s.queue[0].addr, |s.queue[0].data|, u.mbi, 28);
  }

  /** Parts of the boot information arrive: the count is overwritten with 0 where it is 0. */
  lemma UpdatePacketInv(u: Setup, s: State, s': State)
    requires SetupOk(u) && Inv(u, s) && Arrive(s, s') && s.phase == Updating
    ensures Inv(u, s')
  {
    var p := s.queue[0];
    assert u.mbi <= p.addr && p.addr + |p.data| <= u.mbi + 28;
    WritesStay(u, s.mem, p);
    assert Count(s'.mem, u.mbi) == 0 by {
      ZeroWord(s.mem, u.mbi + COUNT);
      ZeroWord(s'.mem, u.mbi + COUNT);
      forall k | u.mbi + COUNT <= k < u.mbi + COUNT + 4 ensures s'.mem[k] == 0 {
        assert p.addr <= k < p.addr + |p.data| ==> p.data[k - p.addr] == 0;
      }
    }
    assert KeepCount(s'.queue, u.mbi);
  }

  /** The count packet changes neither flags nor table address. */
  lemma CountPacket(m: seq<byte>, mbi: nat, n: u32)
    requires mbi + 28 <= |m|
    ensures var m' := Stored(m, Packet(mbi + COUNT, WordBytes(n)));
      Count(m', mbi) == n && Word(m', mbi) == Word(m, mbi) && Word(m', mbi + MODS_ADDR) == Word(m, mbi + MODS_ADDR) &&
      Same(m, m', mbi + 4, mbi + 20)
  {
    AtWord(Stored(m, Packet(mbi + COUNT, WordBytes(n))), mbi + COUNT, n);
  }

  lemma CountKeepsReady(m: seq<byte>, mbi: nat, info: seq<byte>, n: u32)
    requires MbiReady(m, mbi, info)
    ensures MbiReady(Stored(m, Packet(mbi + COUNT, WordBytes(n))), mbi, info)
  {
    CountPacket(m, mbi, n);
  }

  lemma CountStands(u: Setup, m: seq<byte>, m': seq<byte>, n: u32)
    requires SetupOk(u) && |m| == SIZE && AllWritten(m, u.writes) && MbiReady(m, u.mbi, u.info)
    requires m' == Stored(m, Packet(u.mbi + COUNT, WordBytes(n)))
    ensures AllWritten(m', u.writes) && MbiReady(m', u.mbi, u.info) && |m'| == SIZE && Count(m', u.mbi) == n
  {
    WritesStay(u, m, Packet(u.mbi + COUNT, WordBytes(n)));
    CountPacket(m, u.mbi, n);
    CountKeepsReady(m, u.mbi, u.info, n);
  }

  lemma CountedInv(u: Setup, m: seq<byte>, n: u32, t: Target)
    requires u.mbi + 28 <= SIZE == |m| && |u.mods| == n && t != Released
    requires AllWritten(m, u.writes) && MbiReady(m, u.mbi, u.info) && Count(m, u.mbi) == n
    ensures Inv(u, State(m, [], Counting, t))
  {
  }

  lemma CountArrived(u: Setup, m: seq<byte>, m': seq<byte>, n: u32, t: Target)
    requires SetupOk(u) && |m| == SIZE && AllWritten(m, u.writes) && MbiReady(m, u.mbi, u.info)
    requires n == |u.mods| && t != Released && m' == Stored(m, Packet(u.mbi + COUNT, WordBytes(n)))
    ensures Inv(u, State(m', [], Counting, t))
  {
    CountStands(u, m, m', n);
    CountedInv(u, m', n, t);
  }

  lemma ShortWrap(n: nat)
    requires n < WORD32
    ensures Wrap32(n) == n
  {
  }

  lemma CountInv(u: Setup, s: State, s': State)
    requires SetupOk(u) && Inv(u, s) && Arrive(s, s') && s.phase == Counting
    ensures Inv(u, s')
  {
    ShortWrap(|u.mods|);
    CountArrived(u, s.mem, s'.mem, Wrap32(|u.mods|), s.target);
    assert s' == State(s'.mem, [], Counting, s.target);
  }

  lemma ArriveInv(u: Setup, s: State, s': State)
    requires SetupOk(u) && Inv(u, s) && Arrive(s, s')
    ensures Inv(u, s')
  {
    match s.phase {
      case Pushing => PushInv(u, s, s');
      case Updating => UpdatePacketInv(u, s, s');
      case Counting => CountInv(u, s, s');
    }
  }

  /** Setting the flag that the module list is valid. */
  lemma OrModules(x: u32)
    ensures Or(x, FLAG_MODS) == (if x / 8 % 2 == 1 then x else x + 8) < WORD32
  {
    OrBit(x, 3);
  }

  lemma UpdateKeepsCount(m: seq<byte>, w: seq<byte>, ps: seq<Packet>, mbi: nat, table: u32)
    requires |m| == SIZE && mbi + 28 <= SIZE && Count(m, mbi) == 0
    requires Updated(m[mbi..mbi + 28], w, table) && Cut(ps, mbi, w)
    ensures KeepCount(ps, mbi)
  {
    ZeroWord(m, mbi + COUNT);
    forall a | COUNT <= a < COUNT + 4 ensures w[a] == 0 {
      assert m[mbi..mbi + 28][a] == m[mbi + a];
    }
    forall i | 0 <= i < |ps|
      ensures mbi <= ps[i].addr && ps[i].addr + |ps[i].data| <= mbi + 28
      ensures forall k :: 0 <= k < |ps[i].data| && mbi + COUNT <= ps[i].addr + k < mbi + COUNT + 4 ==> ps[i].data[k] == 0
    {
      CutBytes(ps, mbi, w, i);
    }
  }

  lemma StoredWord(m: seq<byte>, a: nat, w: seq<byte>, k: nat)
    requires a + |w| <= |m| && k + 4 <= |w|
    ensures Word(Stored(m, Packet(a, w)), a + k) == Word(w, k)
  {
  }

  lemma UpdateMakesReady(m: seq<byte>, before: seq<byte>, w: seq<byte>, mbi: nat)
    requires |m| == SIZE && mbi + TABLE_OFFSET < SIZE && |before| == 28
    requires Updated(before, w, Wrap32(mbi + TABLE_OFFSET))
    ensures MbiReady(Stored(m, Packet(mbi, w)), mbi, before)
  {
    var m' := Stored(m, Packet(mbi, w));
    StoredWord(m, mbi, w, 0);
    StoredWord(m, mbi, w, MODS_ADDR);
    var flags := Word(before, 0);
    OrModules(flags);
    assert Word(m', mbi) == Or(flags, FLAG_MODS);
  }

  lemma AtSlice(m: seq<byte>, a: nat, w: seq<byte>)
    requires At(m, a, w)
    ensures m[a..a + |w|] == w
  {
  }

  lemma UpdateStores(m: seq<byte>, w: seq<byte>, ps: seq<Packet>, mbi: nat, info: seq<byte>)
    requires |m| == SIZE && mbi + TABLE_OFFSET < SIZE && |info| == 28 && At(m, mbi, info) && Count(m, mbi) == 0
    requires Updated(m[mbi..mbi + 28], w, Wrap32(mbi + TABLE_OFFSET)) && Cut(ps, mbi, w)
    ensures PacketsFit(ps) && KeepCount(ps, mbi) && MbiReady(StoredAll(m, ps), mbi, info)
  {
    AtSlice(m, mbi, info);
    CutStores(m, ps, mbi, w);
    UpdateKeepsCount(m, w, ps, mbi, Wrap32(mbi + TABLE_OFFSET));
    UpdateMakesReady(m, info, w, mbi);
  }

  lemma UpdateInv(u: Setup, s: State, s': State)
    requires SetupOk(u) && Inv(u, s) && Update(u, s, s')
    ensures Inv(u, s')
  {
    var w: seq<byte> :|
      Updated(s.mem[u.mbi..u.mbi + 28], w, Wrap32(u.mbi + TABLE_OFFSET)) && Cut(s'.queue, u.mbi, w);
    UpdateStores(s.mem, w, s'.queue, u.mbi, u.info);
    assert s.mem == StoredAll(s.mem, s.queue);
  }

  lemma ReleaseInv(u: Setup, s: State, s': State)
    requires SetupOk(u) && Inv(u, s) && Release(u, s, s')
    ensures Inv(u, s')
  {
    assert s.mem == StoredAll(s.mem, s.queue);
  }

  /** Storing 0 over 0 changes nothing. */
  lemma ClearNothing(m: seq<byte>, a: nat)
    requires a + 4 <= |m| && Word(m, a) == 0
    ensures Stored(m, Packet(a, WordBytes(0))) == m
  {
    ZeroWord(m, a);
    assert WordBytes(0) == [0, 0, 0, 0];
  }

  lemma ClearInv(u: Setup, s: State, s': State)
    requires SetupOk(u) && Inv(u, s) && Clear(u, s, s')
    ensures Inv(u, s')
  {
    if Count(s.mem, u.mbi) == 0 {
      ClearNothing(s.mem, u.mbi + COUNT);
    } else {
      var p := Packet(u.mbi + COUNT, WordBytes(0));
      WritesStay(u, s.mem, p);
      CountPacket(s.mem, u.mbi, 0);
    }
  }

  lemma PollInv(u: Setup, s: State, s': State)
    requires SetupOk(u) && Inv(u, s) && Poll(u, s, s')
    ensures Inv(u, s')
  {
  }

  /** The invariant holds throughout every run. */
  lemma {:induction false} RunInv(u: Setup, run: seq<State>, i: nat)
    requires SetupOk(u) && IsRun(u, run) && i < |run|
    ensures Inv(u, run[i])
  {
    if i == 0 {
      InitInv(u, run[0]);
    } else {
      RunInv(u, run, i - 1);
      var s, s' := run[i - 1], run[i];
      assert Next(u, s, s');
      if Arrive(s, s') {
        ArriveInv(u, s, s');
      } else if Update(u, s, s') {
        UpdateInv(u, s, s');
      } else if Release(u, s, s') {
        ReleaseInv(u, s, s');
      } else if Clear(u, s, s') {
        ClearInv(u, s, s');
      } else {
        PollInv(u, s, s');
      }
    }
  }

  /** Everything a started target relies on. */
  ghost predicate InPlace(u: Setup, m: seq<byte>) {
    MbiReady(m, u.mbi, u.info) && Word(m, u.mbi + 20) == |u.mods| > 0 &&
    forall i :: 0 <= i < |u.mods| ==>
      At(m, u.mods[i].start, u.mods[i].data) && Describes(m, u.mbi + 0x4000, i, u.mods[i])
  }

  lemma AllInPlace(u: Setup, m: seq<byte>)
    requires SetupOk(u) && |m| == SIZE && AllWritten(m, u.writes) && MbiReady(m, u.mbi, u.info)
    requires Word(m, u.mbi + 20) == |u.mods| > 0
    ensures InPlace(u, m)
  {
    var n := |u.mods|;
    assert At(m, u.writes[n].addr, u.writes[n].data);
    forall k | 0 <= k < n
      ensures At(m, u.mods[k].start, u.mods[k].data) && Describes(m, u.mbi + TABLE_OFFSET, k, u.mods[k])
    {
      assert At(m, u.writes[k].addr, u.writes[k].data);
      TableDescribes(m, u.mods, u.mbi + TABLE_OFFSET, k);
    }
  }

  /** Safety: whatever the order of packets and target steps, the target leaves its loop only
      when modules, table, command lines, flag, table address and count are in place. */
  lemma ReleasedInPlace(u: Setup, run: seq<State>, i: nat)
    requires SetupOk(u) && IsRun(u, run) && i < |run| && run[i].target == Released
    ensures InPlace(u, run[i].mem)
  {
    RunInv(u, run, i);
    AllInPlace(u, run[i].mem);
  }

  // ---------- the target can be released ----------

  lemma Extend(u: Setup, run: seq<State>, s: State)
    requires IsRun(u, run) && Next(u, run[|run| - 1], s)
    ensures IsRun(u, run + [s])
  {
    var longer := run + [s];
    forall i | 0 <= i < |longer| - 1 ensures Next(u, longer[i], longer[i + 1]) {
      if i < |run| - 1 {
        assert longer[i] == run[i] && longer[i + 1] == run[i + 1];
      }
    }
  }

  /** All packets that are under way can arrive. */
  lemma {:induction false} ArriveAll(u: Setup, run: seq<State>) returns (longer: seq<State>)
    requires SetupOk(u) && IsRun(u, run)
    ensures IsRun(u, longer) && longer[0] == run[0] && longer[|longer| - 1].queue == []
    ensures longer[|longer| - 1].phase == run[|run| - 1].phase && longer[|longer| - 1].target == run[|run| - 1].target
    decreases |run[|run| - 1].queue|
  {
    var s := run[|run| - 1];
    if |s.queue| == 0 {
      longer := run;
    } else {
      RunInv(u, run, |run| - 1);
      var s' := s.(mem := Stored(s.mem, s.queue[0]), queue := s.queue[1..]);
      assert Arrive(s, s');
      Extend(u, run, s');
      longer := ArriveAll(u, run + [s']);
    }
  }

  lemma UpdateNow(u: Setup, s: State) returns (s': State)
    requires SetupOk(u) && Inv(u, s) && s.phase == Pushing && s.queue == []
    ensures Update(u, s, s') && s'.target == s.target
  {
    var before, table := s.mem[u.mbi..u.mbi + 28], Wrap32(u.mbi + TABLE_OFFSET);
    OrModules(Word(before, 0));
    var w := WordBytes(Or(Word(before, 0), FLAG_MODS)) + before[4..24] + WordBytes(table);
    assert Updated(before, w, table) by {
      AtWord(w, 0, Or(Word(before, 0), FLAG_MODS));
      AtWord(w, 24, table);
    }
    var p := Packet(u.mbi, w);
    s' := s.(queue := [p], phase := Updating);
    assert Cut([p][1..], u.mbi + 28, w[28..]);
    assert Cut(s'.queue, u.mbi, w);
  }

  lemma CountUnderWay(u: Setup, s: State)
    requires Inv(u, s) && s.phase == Counting && |s.queue| > 0
    ensures u.mbi + 28 <= SIZE == |s.mem| && |u.mods| < WORD32
    ensures s.queue[0] == Packet(u.mbi + COUNT, WordBytes(Wrap32(|u.mods|)))
  {
  }

  lemma CountArrives(u: Setup, s: State) returns (s': State)
    requires u.mbi + 28 <= SIZE == |s.mem| && 0 < |u.mods| < WORD32 && |s.queue| > 0
    requires s.queue[0] == Packet(u.mbi + COUNT, WordBytes(Wrap32(|u.mods|))) && s.target == Polling
    ensures Arrive(s, s') && s'.target == Polling && |s'.mem| == SIZE && Count(s'.mem, u.mbi) != 0
  {
    s' := s.(mem := Stored(s.mem, s.queue[0]), queue := s.queue[1..]);
    CountPacket(s.mem, u.mbi, Wrap32(|u.mods|));
  }

  /** The count packet arrives: then the count is not zero. */
  lemma ArriveOne(u: Setup, run: seq<State>) returns (longer: seq<State>)
    requires SetupOk(u) && IsRun(u, run) && |u.mods| > 0
    requires var s := run[|run| - 1]; s.target == Polling && s.phase == Counting && |s.queue| > 0
    ensures IsRun(u, longer) && longer[0] == run[0]
    ensures var s := longer[|longer| - 1]; s.target == Polling && |s.mem| == SIZE && Count(s.mem, u.mbi) != 0
  {
    RunInv(u, run, |run| - 1);
    CountUnderWay(u, run[|run| - 1]);
    var s' := CountArrives(u, run[|run| - 1]);
    Extend(u, run, s');
    longer := run + [s'];
  }

  /** From every initial state with a module to boot some run leads to the release. */
  lemma CanRelease(u: Setup, s: State) returns (run: seq<State>)
    requires SetupOk(u) && Init(u, s) && |u.mods| > 0
    ensures IsRun(u, run) && run[0] == s && run[|run| - 1].target == Released
  {
    ClearNothing(s.mem, u.mbi + COUNT);
    var s1 := s.(target := Polling);
    assert Clear(u, s, s1);
    Extend(u, [s], s1);
    run := ArriveAll(u, [s, s1]);
    RunInv(u, run, |run| - 1);
    var s2 := UpdateNow(u, run[|run| - 1]);
    Extend(u, run, s2);
    run := ArriveAll(u, run + [s2]);
    var s3 := run[|run| - 1].(queue := [Packet(u.mbi + COUNT, WordBytes(Wrap32(|u.mods|)))], phase := Counting);
    assert Release(u, run[|run| - 1], s3);
    Extend(u, run, s3);
    run := ArriveOne(u, run + [s3]);
    var s5 := run[|run| - 1].(target := Released);
    assert Poll(u, run[|run| - 1], s5);
    Extend(u, run, s5);
    run := run + [s5];
  }
}
