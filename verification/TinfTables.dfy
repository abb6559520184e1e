/** The static and dynamic tables of the inflater (standalone/tinflate.c): Huffman trees built
    by counting sort, and the base and extra-bit tables. */
module TinfTables {
  import opened Words
  import opened Bits
  import opened Huffman
  import opened DeflateFormat

  /** TINF_TREE: how many codes of each length, and the symbols sorted by code. */
  class Tree {
    const table: array<nat>
    const trans: array<nat>

    constructor ()
      ensures fresh(table) && fresh(trans) && table.Length == 16 && trans.Length == 288
      ensures forall i :: 0 <= i < 16 ==> table[i] == 0
    {
      table := new nat[16](_ => 0);
      trans := new nat[288](_ => 0);
    }

    ghost predicate Shape() {
      table.Length == 16 && trans.Length == 288 && table != trans
    }

    /** The tree decodes the code given by `lens`. */
    ghost predicate Decodes(lens: Lengths)
      reads table, trans
    {
      Shape() && IsTable(table[..], trans[..], lens)
    }
  }

  // ---------- tinf_build_tree ----------

  ghost predicate Counted(table: seq<nat>, lens: Lengths, n: nat) {
    |table| == 16 && n <= |lens| &&
    forall l :: 1 <= l < 16 ==> table[l] == Count(lens, n, l)
  }

  /** Counts the code lengths into t.table. */
  method CountLengths(t: Tree, lengths: array<nat>, off: nat, num: nat, ghost lens: Lengths)
    requires t.Shape() && off + num <= lengths.Length && lengths[off..off + num] == lens
    requires lengths != t.table && lengths != t.trans
    modifies t.table
    ensures forall l :: 0 <= l < 16 ==> t.table[l] == Count(lens, num, l)
  {
    var i := 0;
    while i < 16
      invariant 0 <= i <= 16
      invariant forall l :: 0 <= l < i ==> t.table[l] == 0
    {
      t.table[i] := 0;
      i := i + 1;
    }
    i := 0;
    while i < num
      invariant 0 <= i <= num
      invariant Counted(t.table[..], lens, i)
    {
      assert lengths[off + i] == lens[i];
      t.table[lengths[off + i]] := t.table[lengths[off + i]] + 1;
      i := i + 1;
    }
    t.table[0] := 0;
  }

  /** The symbols below n stand at their places, and offs tells where the next of each length goes. */
  ghost predicate Placed(trans: seq<nat>, offs: seq<nat>, lens: Lengths, n: nat) {
    |offs| == 16 && |lens| <= |trans| && n <= |lens| &&
    (forall l :: 1 <= l < 16 ==> offs[l] == Offset(lens, |lens|, l) + Count(lens, n, l)) &&
    forall s: nat :: Used(lens, s) && s < n ==> Place(lens, s) < |trans| && trans[Place(lens, s)] == s
  }

  lemma PlaceInRange(trans: seq<nat>, offs: seq<nat>, lens: Lengths, n: nat)
    requires Placed(trans, offs, lens, n) && n < |lens| && lens[n] > 0
    ensures offs[lens[n]] < |trans|
  {
    PlaceBound(lens, n);
  }

  lemma PlaceNext(trans: seq<nat>, trans': seq<nat>, offs: seq<nat>, offs': seq<nat>, lens: Lengths, n: nat)
    requires Placed(trans, offs, lens, n) && n < |lens| && lens[n] > 0
    requires offs[lens[n]] < |trans| && trans' == trans[offs[lens[n]] := n]
    requires offs' == offs[lens[n] := offs[lens[n]] + 1]
    ensures Placed(trans', offs', lens, n + 1)
  {
    PlaceBound(lens, n);
    forall s: nat | Used(lens, s) && s < n
      ensures Place(lens, s) != Place(lens, n)
    {
      if lens[s] <= lens[n] {
        PlaceSorts(lens, s, n);
      } else {
        PlaceSorts(lens, n, s);
      }
    }
  }

  /** The offset table for the distribution sort. */
  method Offsets(table: array<nat>, ghost lens: Lengths) returns (offs: array<nat>)
    requires table.Length == 16
    requires forall l :: 0 <= l < 16 ==> table[l] == Count(lens, |lens|, l)
    ensures fresh(offs) && offs.Length == 16
    ensures forall l :: 0 <= l < 16 ==> offs[l] == Offset(lens, |lens|, l)
  {
    offs := new nat[16](_ => 0);
    var sum, i := 0, 0;
    while i < 16
      invariant 0 <= i <= 16 && sum == Offset(lens, |lens|, i)
      invariant forall l :: 0 <= l < i ==> offs[l] == Offset(lens, |lens|, l)
      modifies offs
    {
      offs[i] := sum;
      sum := sum + table[i];
      i := i + 1;
    }
  }

  /** `t->trans[offs[lengths[i]]++] = i`. */
  method PlaceSymbol(trans: array<nat>, offs: array<nat>, len: nat, s: nat, ghost lens: Lengths)
    requires Placed(trans[..], offs[..], lens, s) && s < |lens| && len == lens[s] > 0 && trans != offs
    modifies trans, offs
    ensures Placed(trans[..], offs[..], lens, s + 1)
  {
    ghost var trans0, offs0 := trans[..], offs[..];
    PlaceInRange(trans0, offs0, lens, s);
    trans[offs[len]] := s;
    offs[len] := offs[len] + 1;
    assert trans[..] == trans0[offs0[len] := s] && offs[..] == offs0[len := offs0[len] + 1];
    PlaceNext(trans0, trans[..], offs0, offs[..], lens, s);
  }

  /** tinf_build_tree, for the `num` code lengths from lengths[off] on. */
  method BuildTree(t: Tree, lengths: array<nat>, off: nat, num: nat, ghost lens: Lengths)
    requires t.Shape() && off + num <= lengths.Length && num <= 288 && lengths[off..off + num] == lens
    requires lengths != t.table && lengths != t.trans
    modifies t.table, t.trans
    ensures t.Decodes(lens)
  {
    CountLengths(t, lengths, off, num, lens);
    var offs := Offsets(t.table, lens);
    var i := 0;
    while i < num
      invariant 0 <= i <= num
      invariant Placed(t.trans[..], offs[..], lens, i)
      modifies t.trans, offs
    {
      assert lengths[off + i] == lens[i];
      if lengths[off + i] != 0 {
        PlaceSymbol(t.trans, offs, lengths[off + i], i, lens);
      }
      i := i + 1;
    }
  }

  // ---------- tinf_build_fixed_trees ----------

  /** How many of the first n symbols of the fixed literal code have length l. */
  ghost function FixedCount(n: nat, l: nat): nat {
    if l == 7 then (if n <= 256 then 0 else if n <= 280 then n - 256 else 24)
    else if l == 8 then (if n <= 144 then n else if n <= 280 then 144 else n - 136)
    else if l == 9 then (if n <= 144 then 0 else if n <= 256 then n - 144 else 112)
    else 0
  }

  lemma {:induction false} FixedLitCount(n: nat, l: nat)
    requires n <= 288
    ensures Count(FixedLit(), n, l) == FixedCount(n, l)
  {
    if n > 0 {
      FixedLitCount(n - 1, l);
      assert FixedLit()[n - 1] == FixedLitLength(n - 1);
    }
  }

  lemma {:induction false} FixedDistCount(n: nat, l: nat)
    requires n <= 32
    ensures Count(FixedDist(), n, l) == if l == 5 then n else 0
  {
    if n > 0 {
      FixedDistCount(n - 1, l);
    }
  }

  lemma {:induction false} FixedLitOffset(l: nat)
    requires l <= 16
    ensures Offset(FixedLit(), 288, l) == if l <= 7 then 0 else if l == 8 then 24 else if l == 9 then 176 else 288
  {
    if l > 0 {
      FixedLitOffset(l - 1);
      FixedLitCount(288, l - 1);
    }
  }

  lemma {:induction false} FixedDistOffset(l: nat)
    requires l <= 16
    ensures Offset(FixedDist(), 32, l) == if l <= 5 then 0 else 32
  {
    if l > 0 {
      FixedDistOffset(l - 1);
      FixedDistCount(32, l - 1);
    }
  }

  /** The place of every literal/length symbol in the hand-built table. */
  lemma FixedLitPlace(s: nat)
    requires s < 288
    ensures Used(FixedLit(), s)
    ensures Place(FixedLit(), s) ==
      if s < 144 then 24 + s else if s < 256 then 176 + (s - 144) else if s < 280 then s - 256 else 168 + (s - 280)
  {
    assert FixedLit()[s] == FixedLitLength(s);
    FixedLitCount(s, FixedLitLength(s));
    FixedLitOffset(FixedLitLength(s));
  }

  /** Writes from, from+1, ... to the n table entries that start at `at`. */
  method FillTrans(t: Tree, at: nat, n: nat, from: nat)
    requires t.Shape() && at + n <= 288
    modifies t.trans
    ensures forall k :: at <= k < at + n ==> t.trans[k] == from + (k - at)
    ensures forall k :: 0 <= k < at || at + n <= k < 288 ==> t.trans[k] == old(t.trans[k])
  {
    var i := 0;
    while i < n
      invariant 0 <= i <= n
      invariant forall k :: at <= k < at + i ==> t.trans[k] == from + (k - at)
      invariant forall k :: 0 <= k < at || at + i <= k < 288 ==> t.trans[k] == old(t.trans[k])
    {
      t.trans[at + i] := from + i;
      i := i + 1;
    }
  }

  /** The counts of the fixed literal code. */
  method FillFixedLitTable(lt: Tree)
    requires lt.Shape() && forall l :: 10 <= l < 16 ==> lt.table[l] == 0
    modifies lt.table
    ensures forall l :: 0 <= l < 16 ==> lt.table[l] == Count(FixedLit(), 288, l)
  {
    var i := 0;
    while i < 7
      invariant 0 <= i <= 7
      invariant forall l :: 0 <= l < i || 10 <= l < 16 ==> lt.table[l] == 0
    {
      lt.table[i] := 0;
      i := i + 1;
    }
    lt.table[7], lt.table[8], lt.table[9] := 24, 152, 112;
    forall l | 0 <= l < 16 ensures lt.table[l] == Count(FixedLit(), 288, l) {
      FixedLitCount(288, l);
    }
  }

  lemma FixedLitSorted(trans: seq<nat>)
    requires |trans| == 288
    requires forall k :: 0 <= k < 24 ==> trans[k] == 256 + k
    requires forall k :: 24 <= k < 168 ==> trans[k] == k - 24
    requires forall k :: 168 <= k < 176 ==> trans[k] == 280 + (k - 168)
    requires forall k :: 176 <= k < 288 ==> trans[k] == 144 + (k - 176)
    ensures forall s: nat :: Used(FixedLit(), s) ==> Place(FixedLit(), s) < 288 && trans[Place(FixedLit(), s)] == s
  {
    forall s: nat | Used(FixedLit(), s)
      ensures Place(FixedLit(), s) < 288 && trans[Place(FixedLit(), s)] == s
    {
      FixedLitPlace(s);
    }
  }

  method BuildFixedLit(lt: Tree)
    requires lt.Shape() && forall l :: 10 <= l < 16 ==> lt.table[l] == 0
    modifies lt.table, lt.trans
    ensures lt.Decodes(FixedLit())
  {
    FillTrans(lt, 0, 24, 256);
    FillTrans(lt, 24, 144, 0);
    FillTrans(lt, 24 + 144, 8, 280);
    FillTrans(lt, 24 + 144 + 8, 112, 144);
    FixedLitSorted(lt.trans[..]);
    FillFixedLitTable(lt);
  }

  method BuildFixedDist(dt: Tree)
    requires dt.Shape() && forall l :: 6 <= l < 16 ==> dt.table[l] == 0
    modifies dt.table, dt.trans
    ensures dt.Decodes(FixedDist())
  {
    FillTrans(dt, 0, 32, 0);
    ghost var trans := dt.trans[..];
    var i := 0;
    while i < 5
      invariant 0 <= i <= 5
      invariant forall l :: 0 <= l < i || 6 <= l < 16 ==> dt.table[l] == 0
      modifies dt.table
    {
      dt.table[i] := 0;
      i := i + 1;
    }
    dt.table[5] := 32;
    forall l | 0 <= l < 16 ensures dt.table[l] == Count(FixedDist(), 32, l) {
      FixedDistCount(32, l);
    }
    forall s: nat | Used(FixedDist(), s)
      ensures Place(FixedDist(), s) < 288 && trans[Place(FixedDist(), s)] == s
    {
      FixedDistCount(s, 5);
      FixedDistOffset(5);
    }
  }

  /** tinf_build_fixed_trees: the hand-built trees are those of the fixed codes. The table
      entries it leaves alone are still zero, as in any static object. */
  method BuildFixedTrees(lt: Tree, dt: Tree)
    requires lt.Shape() && dt.Shape()
    requires lt.table != dt.table && lt.table != dt.trans && lt.trans != dt.table && lt.trans != dt.trans
    requires forall l :: 10 <= l < 16 ==> lt.table[l] == 0
    requires forall l :: 6 <= l < 16 ==> dt.table[l] == 0
    modifies lt.table, lt.trans, dt.table, dt.trans
    ensures lt.Decodes(FixedLit()) && dt.Decodes(FixedDist())
  {
    BuildFixedLit(lt);
    BuildFixedDist(dt);
  }

  // ---------- base and extra-bit tables ----------

  /** Writing the base table: sum of the sizes of the codes before. */
  ghost function BaseSum(bits: seq<nat>, first: nat, n: nat): nat
    requires n <= |bits|
  {
    if n == 0 then first else BaseSum(bits, first, n - 1) + Pow2(bits[n - 1])
  }

  method BuildBits(bits: array<nat>, delta: nat)
    requires bits.Length == 30 && 0 < delta <= 30
    modifies bits
    ensures forall i :: 0 <= i < 30 ==> bits[i] == if i < delta then 0 else (i - delta) / delta
  {
    var i := 0;
    while i < delta
      invariant 0 <= i <= delta
      invariant forall k :: 0 <= k < i ==> bits[k] == 0
    {
      bits[i] := 0;
      i := i + 1;
    }
    i := 0;
    while i < 30 - delta
      invariant 0 <= i <= 30 - delta
      invariant forall k :: 0 <= k < delta ==> bits[k] == 0
      invariant forall k :: delta <= k < delta + i ==> bits[k] == (k - delta) / delta
    {
      bits[i + delta] := i / delta;
      i := i + 1;
    }
  }

  /** tinf_build_bits_base. */
  method BuildBitsBase(bits: array<nat>, base: array<nat>, delta: nat, first: nat)
    requires bits != base && bits.Length == 30 && base.Length == 30 && 0 < delta <= 30
    modifies bits, base
    ensures forall i :: 0 <= i < 30 ==> bits[i] == if i < delta then 0 else (i - delta) / delta
    ensures forall i :: 0 <= i < 30 ==> base[i] == BaseSum(bits[..], first, i)
  {
    BuildBits(bits, delta);
    ghost var bs := bits[..];
    var sum, i := first, 0;
    while i < 30
      invariant 0 <= i <= 30 && sum == BaseSum(bs, first, i)
      invariant forall k :: 0 <= k < i ==> base[k] == BaseSum(bs, first, k)
      modifies base
    {
      base[i] := sum;
      sum := sum + Pow2(bits[i]);
      i := i + 1;
    }
    assert bits[..] == bs;
  }

  lemma {:induction false} LengthTables(bits: seq<nat>, n: nat)
    requires |bits| == 30 && n < 28
    requires forall i :: 0 <= i < 28 ==> bits[i] == LengthExtra(i)
    ensures BaseSum(bits, 3, n) == LengthBase(n)
  {
    if n > 0 {
      LengthTables(bits, n - 1);
    }
  }

  lemma {:induction false} DistTables(bits: seq<nat>, n: nat)
    requires |bits| == 30 && n < 30
    requires forall i :: 0 <= i < 30 ==> bits[i] == DistExtra(i)
    ensures BaseSum(bits, 1, n) == DistBase(n)
  {
    if n > 0 {
      DistTables(bits, n - 1);
    }
  }

  /** The table of lengths; the last entry is the special case of tinf_init. */
  method BuildLengthTable(bits: array<nat>, base: array<nat>)
    requires bits != base && bits.Length == 30 && base.Length == 30
    modifies bits, base
    ensures forall i :: 0 <= i < 29 ==> bits[i] == LengthExtra(i) && base[i] == LengthBase(i)
  {
    BuildBitsBase(bits, base, 4, 3);
    forall n: nat | n < 28
      ensures base[n] == LengthBase(n)
    {
      LengthTables(bits[..], n);
    }
    bits[28] := 0;
    base[28] := 258;
  }

  method BuildDistTable(bits: array<nat>, base: array<nat>)
    requires bits != base && bits.Length == 30 && base.Length == 30
    modifies bits, base
    ensures forall i :: 0 <= i < 30 ==> bits[i] == DistExtra(i) && base[i] == DistBase(i)
  {
    BuildBitsBase(bits, base, 2, 1);
    forall n: nat | n < 30
      ensures base[n] == DistBase(n)
    {
      DistTables(bits[..], n);
    }
  }

  /** The static data of the inflater. */
  class Tables {
    const sltree: Tree
    const sdtree: Tree
    const lengthBits: array<nat>
    const lengthBase: array<nat>
    const distBits: array<nat>
    const distBase: array<nat>

    ghost predicate Ready()
      reads sltree.table, sltree.trans, sdtree.table, sdtree.trans
      reads lengthBits, lengthBase, distBits, distBase
    {
      sltree.Decodes(FixedLit()) && sdtree.Decodes(FixedDist()) &&
      lengthBits.Length == lengthBase.Length == distBits.Length == distBase.Length == 30 &&
      (forall i :: 0 <= i < 29 ==> lengthBits[i] == LengthExtra(i) && lengthBase[i] == LengthBase(i)) &&
      (forall i :: 0 <= i < 30 ==> distBits[i] == DistExtra(i) && distBase[i] == DistBase(i))
    }

    /** tinf_init, on freshly zeroed static data. */
    constructor ()
      ensures Ready()
      ensures fresh(sltree.table) && fresh(sltree.trans) && fresh(sdtree.table) && fresh(sdtree.trans)
    {
      sltree := new Tree();
      sdtree := new Tree();
      lengthBits := new nat[30];
      lengthBase := new nat[30];
      distBits := new nat[30];
      distBase := new nat[30];
      new;
      BuildFixedTrees(sltree, sdtree);
      BuildLengthTable(lengthBits, lengthBase);
      BuildDistTable(distBits, distBase);
    }

    ghost function Arrays(): set<array<nat>> {
      {sltree.table, sltree.trans, sdtree.table, sdtree.trans, lengthBits, lengthBase, distBits, distBase}
    }
  }
}
