/** The host half of a remote boot (boot/morbo.py): where modules go, and what is written to the
    target, in which order. */
module RemoteBoot {
  import opened Words
  import opened Memory

  /** An entry of the configuration: a load address, or a module with its command line. */
  datatype Item = Address(a: nat) | File(cmd: seq<byte>, data: seq<byte>)

  /** A module as it was pushed. */
  datatype Pushed = Pushed(start: nat, cmd: seq<byte>, data: seq<byte>)

  function EndOf(p: Pushed): nat {
    p.start + |p.data|
  }

  /** A remote write. */
  datatype Write = Write(addr: nat, data: seq<byte>)

  const PAGE := 0x1000
  const FIRST_ADDRESS := 0x0100_0000

  /** The next page boundary. */
  function PageUp(a: nat): (b: nat)
    ensures a <= b < a + PAGE && b % PAGE == 0
  {
    (a + PAGE - 1) / PAGE * PAGE
  }

  /** Where the next module goes after the first n items. */
  ghost function LoadAddress(items: seq<Item>, n: nat): nat
    requires n <= |items|
  {
    if n == 0 then FIRST_ADDRESS
    else
      match items[n - 1]
      case Address(a) => a
      case File(_, data) => PageUp(LoadAddress(items, n - 1) + |data|)
  }

  /** The modules are those files, each at the load address of its turn. */
  ghost predicate PushedFrom(items: seq<Item>, n: nat, mods: seq<Pushed>)
    requires n <= |items|
  {
    if n == 0 then mods == []
    else if items[n - 1].Address? then PushedFrom(items, n - 1, mods)
    else
      |mods| > 0 && PushedFrom(items, n - 1, mods[..|mods| - 1]) &&
      mods[|mods| - 1] == Pushed(LoadAddress(items, n - 1), items[n - 1].cmd, items[n - 1].data)
  }

  ghost function WritesOf(mods: seq<Pushed>): (ws: seq<Write>)
    ensures |ws| == |mods|
  {
    seq(|mods|, i requires 0 <= i < |mods| => Write(mods[i].start, mods[i].data))
  }

  /** The loop of `boot` that pushes modules. */
  method PushModules(items: seq<Item>) returns (mods: seq<Pushed>, writes: seq<Write>)
    ensures PushedFrom(items, |items|, mods) && writes == WritesOf(mods)
  {
    mods, writes := [], [];
    var loadaddr := FIRST_ADDRESS;
    var i := 0;
    while i < |items|
      invariant 0 <= i <= |items| && loadaddr == LoadAddress(items, i)
      invariant PushedFrom(items, i, mods) && writes == WritesOf(mods)
    {
      match items[i] {
        case Address(a) => loadaddr := a;
        case File(cmd, data) =>
          writes := writes + [Write(loadaddr, data)];
          var p := Pushed(loadaddr, cmd, data);
          assert (mods + [p])[..|mods|] == mods;
          mods := mods + [p];
          loadaddr := loadaddr + |data|;
          loadaddr := loadaddr + (PAGE - loadaddr % PAGE) % PAGE;
      }
      i := i + 1;
    }
  }

  lemma {:induction false} PushedBelow(items: seq<Item>, n: nat, mods: seq<Pushed>, i: nat)
    requires n <= |items| && PushedFrom(items, n, mods) && i < |mods|
    requires forall k :: 0 <= k < n ==> items[k].File?
    ensures EndOf(mods[i]) <= LoadAddress(items, n) && LoadAddress(items, n) % PAGE == 0
  {
    if i < |mods| - 1 {
      PushedBelow(items, n - 1, mods[..|mods| - 1], i);
    }
  }

  /** Without explicit addresses modules are in order and do not overlap. */
  lemma {:induction false} PushedAscend(items: seq<Item>, n: nat, mods: seq<Pushed>, i: nat, j: nat)
    requires n <= |items| && PushedFrom(items, n, mods) && i < j < |mods|
    requires forall k :: 0 <= k < n ==> items[k].File?
    ensures EndOf(mods[i]) <= mods[j].start && mods[j].start % PAGE == 0
  {
    if j < |mods| - 1 {
      PushedAscend(items, n - 1, mods[..|mods| - 1], i, j);
    } else {
      PushedBelow(items, n - 1, mods[..|mods| - 1], i);
    }
  }

  /** How many of the first n items are modules. */
  ghost function Files(items: seq<Item>, n: nat): (k: nat)
    requires n <= |items|
    ensures k <= n
  {
    if n == 0 then 0 else Files(items, n - 1) + (if items[n - 1].File? then 1 else 0)
  }

  lemma {:induction false} PushedCount(items: seq<Item>, n: nat, mods: seq<Pushed>)
    requires n <= |items| && PushedFrom(items, n, mods)
    ensures |mods| == Files(items, n)
    decreases n
  {
    if n > 0 {
      PushedCount(items, n - 1, if items[n - 1].File? then mods[..|mods| - 1] else mods);
    }
  }

  lemma {:induction false} PushedAt(items: seq<Item>, n: nat, mods: seq<Pushed>, i: nat)
    requires i < n <= |items| && PushedFrom(items, n, mods) && items[i].File?
    ensures Files(items, i) < |mods|
    ensures mods[Files(items, i)] == Pushed(LoadAddress(items, i), items[i].cmd, items[i].data)
    decreases n
  {
    if i == n - 1 {
      PushedCount(items, n - 1, mods[..|mods| - 1]);
    } else {
      PushedAt(items, n - 1, if items[n - 1].File? then mods[..|mods| - 1] else mods, i);
    }
  }

  /** Item i, which is a file, is pushed: to 16 MB if it comes first, to the address right before it,
      or to the first page boundary at or behind the end of the file right before it. */
  lemma PushedWhere(items: seq<Item>, mods: seq<Pushed>, i: nat, k: nat)
    requires PushedFrom(items, |items|, mods) && i < |items| && items[i].File? && k == Files(items, i)
    ensures k < |mods| && mods[k].cmd == items[i].cmd && mods[k].data == items[i].data
    ensures i == 0 ==> mods[k].start == 0x0100_0000
    ensures i > 0 && items[i - 1].Address? ==> mods[k].start == items[i - 1].a
    ensures i > 0 && items[i - 1].File? ==>
      k > 0 && mods[k].start % 0x1000 == 0 &&
      mods[k - 1].start + |mods[k - 1].data| <= mods[k].start < mods[k - 1].start + |mods[k - 1].data| + 0x1000
  {
    PushedAt(items, |items|, mods, i);
    if i > 0 && items[i - 1].File? {
      PushedAt(items, |items|, mods, i - 1);
    }
  }

  // ---------- the module table ----------

  /** All command lines, each with its terminator, of the first n modules. */
  ghost function CommandLines(mods: seq<Pushed>, n: nat): seq<byte>
    requires n <= |mods|
  {
    if n == 0 then [] else CommandLines(mods, n - 1) + (mods[n - 1].cmd + [0])
  }

  function Row(start: u32, end: u32, str: u32): (r: seq<byte>)
    ensures |r| == 16
  {
    WordBytes(start) + WordBytes(end) + WordBytes(str) + WordBytes(0)
  }

  /** The numbers of row i fit into 32 bits. */
  ghost predicate RowFits(mods: seq<Pushed>, table: nat, i: nat)
    requires i < |mods|
  {
    EndOf(mods[i]) < WORD32 && table + 16 * |mods| + |CommandLines(mods, i)| < WORD32
  }

  ghost predicate RowsFit(mods: seq<Pushed>, table: nat, n: nat)
    requires n <= |mods|
  {
    forall i :: 0 <= i < n ==> RowFits(mods, table, i)
  }

  /** The first n rows; row i points to the module and to its command line behind the rows. */
  ghost function Rows(mods: seq<Pushed>, table: nat, n: nat): (r: seq<byte>)
    requires n <= |mods| && RowsFit(mods, table, n)
    ensures |r| == 16 * n
  {
    if n == 0 then []
    else
      assert RowFits(mods, table, n - 1);
      Rows(mods, table, n - 1) +
      Row(mods[n - 1].start, EndOf(mods[n - 1]), table + 16 * |mods| + |CommandLines(mods, n - 1)|)
  }

  /** The loop of `boot` that lays out the table; None is the error that a number does not fit. */
  method BuildTable(mods: seq<Pushed>, table: nat) returns (r: Option<seq<byte>>)
    ensures r.Some? <==> RowsFit(mods, table, |mods|)
    ensures r.Some? ==> r.value == Rows(mods, table, |mods|) + CommandLines(mods, |mods|)
  {
    var marray, cmdlines, space := [], [], 16 * |mods|;
    var i := 0;
    while i < |mods|
      invariant 0 <= i <= |mods| && RowsFit(mods, table, i)
      invariant marray == Rows(mods, table, i) && cmdlines == CommandLines(mods, i)
    {
      var m, str := mods[i], table + space + |cmdlines|;
      if EndOf(m) >= WORD32 || str >= WORD32 {
        assert !RowFits(mods, table, i);
        return None;
      }
      assert RowFits(mods, table, i);
      marray := marray + Row(m.start, EndOf(m), str);
      cmdlines := cmdlines + (m.cmd + [0]);
      i := i + 1;
    }
    return Some(marray + cmdlines);
  }

  /** What a table says about module i: its bounds, and the address of its command line. */
  ghost predicate Describes(m: seq<byte>, table: nat, i: nat, p: Pushed) {
    table + 16 * i + 16 <= |m| && Word(m, table + 16 * i) == p.start && Word(m, table + 16 * i + 4) == EndOf(p) &&
    At(m, Word(m, table + 16 * i + 8), p.cmd + [0])
  }

  lemma {:induction false} RowsAt(m: seq<byte>, mods: seq<Pushed>, table: nat, n: nat, i: nat)
    requires i < n <= |mods| && RowsFit(mods, table, n) && At(m, table, Rows(mods, table, n))
    ensures RowFits(mods, table, i)
    ensures At(m, table + 16 * i, Row(mods[i].start, EndOf(mods[i]), table + 16 * |mods| + |CommandLines(mods, i)|))
  {
    assert RowFits(mods, table, n - 1);
    AtSplit(m, table, Rows(mods, table, n - 1), table + 16 * (n - 1),
            Row(mods[n - 1].start, EndOf(mods[n - 1]), table + 16 * |mods| + |CommandLines(mods, n - 1)|));
    if i < n - 1 {
      RowsAt(m, mods, table, n - 1, i);
    }
  }

  lemma {:induction false} CommandLineAt(m: seq<byte>, a: nat, mods: seq<Pushed>, n: nat, i: nat)
    requires i < n <= |mods| && At(m, a, CommandLines(mods, n))
    ensures At(m, a + |CommandLines(mods, i)|, mods[i].cmd + [0])
  {
    AtSplit(m, a, CommandLines(mods, n - 1), a + |CommandLines(mods, n - 1)|, mods[n - 1].cmd + [0]);
    if i < n - 1 {
      CommandLineAt(m, a, mods, n - 1, i);
    }
  }

  lemma RowWords(m: seq<byte>, a: nat, start: u32, end: u32, str: u32)
    requires At(m, a, Row(start, end, str))
    ensures Word(m, a) == start && Word(m, a + 4) == end && Word(m, a + 8) == str
  {
    var w1, w2, w3, w4 := WordBytes(start), WordBytes(end), WordBytes(str), WordBytes(0);
    AtSplit(m, a, w1 + w2 + w3, a + 12, w4);
    AtSplit(m, a, w1 + w2, a + 8, w3);
    AtSplit(m, a, w1, a + 4, w2);
    AtWord(m, a, start);
    AtWord(m, a + 4, end);
    AtWord(m, a + 8, str);
  }

  lemma RowDescribes(m: seq<byte>, table: nat, i: nat, p: Pushed, str: nat)
    requires EndOf(p) < WORD32 && str < WORD32
    requires At(m, table + 16 * i, Row(p.start, EndOf(p), str)) && At(m, str, p.cmd + [0])
    ensures Describes(m, table, i, p)
  {
    RowWords(m, table + 16 * i, p.start, EndOf(p), str);
  }

  /** Where the table stands, row i describes module i and names command line i. */
  lemma TableDescribes(m: seq<byte>, mods: seq<Pushed>, table: nat, i: nat)
    requires RowsFit(mods, table, |mods|) && i < |mods|
    requires At(m, table, Rows(mods, table, |mods|) + CommandLines(mods, |mods|))
    ensures Describes(m, table, i, mods[i])
  {
    var n := |mods|;
    AtSplit(m, table, Rows(mods, table, n), table + 16 * n, CommandLines(mods, n));
    RowsAt(m, mods, table, n, i);
    CommandLineAt(m, table + 16 * n, mods, n, i);
    RowDescribes(m, table, i, mods[i], table + 16 * n + |CommandLines(mods, i)|);
  }

  const TABLE_OFFSET := 0x4000

  /** All writes before the boot information is touched: the modules, then table and command
      lines. None is the error that a number does not fit. */
  method Boot(items: seq<Item>, mbi: nat) returns (mods: seq<Pushed>, r: Option<seq<Write>>)
    ensures PushedFrom(items, |items|, mods)
    ensures r.Some? <==> RowsFit(mods, mbi + TABLE_OFFSET, |mods|)
    ensures r.Some? ==>
      r.value == WritesOf(mods) +
        [Write(mbi + TABLE_OFFSET, Rows(mods, mbi + TABLE_OFFSET, |mods|) + CommandLines(mods, |mods|))]
  {
    var writes;
    mods, writes := PushModules(items);
    var loadaddr := mbi + TABLE_OFFSET;
    var table := BuildTable(mods, loadaddr);
    if table.Some? {
      r := Some(writes + [Write(loadaddr, table.value)]);
    } else {
      r := None;
    }
  }
}
