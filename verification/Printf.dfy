/** The formatter (standalone/printf.c): a state machine over the format, and numbers that are
    built in a buffer and read back from its end. */
module Printf {
  import opened Words
  import opened Bitwise
  import opened Memory
  import QDivRem
  import opened StrToUll

  // ---------- what is printed ----------

  /** The character for a digit. */
  function DigitChar(d: nat): byte
    requires d < 16
  {
    if d < 10 then DIGIT0 + d else 0x61 + (d - 10)
  }

  /** The digits of x, without leading zeros, but at least one. */
  ghost function NumberText(x: nat, base: nat): (w: seq<byte>)
    requires 2 <= base <= 16
    ensures |w| > 0
    decreases x
  {
    if x < base then [DigitChar(x)] else NumberText(x / base, base) + [DigitChar(x % base)]
  }

  ghost function ZerosText(n: nat): (w: seq<byte>)
    ensures |w| == n
  {
    seq(n, i => DIGIT0)
  }

  /** The digits, filled up with zeros from the left. */
  ghost function Filled(x: nat, base: nat, fill: nat): seq<byte>
    requires 2 <= base <= 16
  {
    var w := NumberText(x, base);
    ZerosText(if fill > |w| then fill - |w| else 0) + w
  }

  // ---------- the digit buffer ----------

  ghost function Reverse(w: seq<byte>): (r: seq<byte>)
    ensures |r| == |w|
  {
    if |w| == 0 then [] else Reverse(w[1..]) + [w[0]]
  }

  lemma {:induction false} ReverseSnoc(w: seq<byte>, b: byte)
    ensures Reverse(w + [b]) == [b] + Reverse(w)
  {
    if |w| > 0 {
      ReverseSnoc(w[1..], b);
      assert (w + [b])[1..] == w[1..] + [b];
    }
  }

  lemma {:induction false} ReverseAt(w: seq<byte>, k: nat)
    requires k < |w|
    ensures Reverse(w)[k] == w[|w| - 1 - k]
  {
    if k < |w| - 1 {
      ReverseAt(w[1..], k);
    }
  }

  /** The digits written so far, reversed, follow those that are still to come. */
  ghost predicate Building(x: nat, base: nat, rest: nat, written: seq<byte>)
    requires 2 <= base <= 16
  {
    NumberText(x, base) == (if rest == 0 then Reverse(written) else NumberText(rest, base) + Reverse(written))
  }

  lemma BuildNext(x: nat, base: nat, rest: nat, written: seq<byte>)
    requires 2 <= base <= 16 && (if written == [] then rest == x else rest > 0 && Building(x, base, rest, written))
    ensures 0 <= rest / base && 0 <= rest % base < base
    ensures Building(x, base, rest / base, written + [DigitChar(rest % base)])
  {
    DivisionEquation(rest, base);
    var b := DigitChar(rest % base);
    ReverseSnoc(written, b);
    if rest < base {
      DivModUnique(rest, base, 0, rest);
      assert NumberText(rest, base) == [b];
    } else {
      assert NumberText(rest, base) == NumberText(rest / base, base) + [b];
    }
  }

  /** The buffer has room: s digits have been written, and what is left has at most 64 - s bits. */
  lemma RoomLeft(rest: nat, base: nat, s: nat)
    requires 2 <= base && s < 64 && rest < Pow2(64 - s)
    ensures 0 <= rest / base < Pow2(63 - s) && (rest / base > 0 ==> s + 1 < 64)
  {
    assert Pow2(64 - s) == 2 * Pow2(63 - s);
    MulLe(Pow2(63 - s), 2, base);
    assert base * Pow2(63 - s) == Pow2(63 - s) * base;
    DivBelow(rest, base, Pow2(63 - s));
    if s == 63 {
      assert Pow2(0) == 1;
    }
  }

  /** What the loops that fill the buffer keep. */
  ghost predicate Filling(buf: seq<byte>, x: u64, base: nat, ull: nat, s: nat)
    requires 2 <= base <= 16
  {
    s < 64 == |buf| && ull < Pow2(64 - s) &&
    if s == 0 then ull == x else ull > 0 && Building(x, base, ull, buf[..s])
  }

  /** What they have done at their end. */
  ghost predicate Full(buf: seq<byte>, x: u64, base: nat, s: nat)
    requires 2 <= base <= 16
  {
    0 < s <= 64 == |buf| && Reverse(buf[..s]) == NumberText(x, base)
  }

  lemma FillNext(buf: seq<byte>, buf': seq<byte>, x: u64, base: nat, ull: nat, s: nat)
    requires 2 <= base <= 16 && Filling(buf, x, base, ull, s) && 0 <= ull % base < 16
    requires buf' == buf[s := DigitChar(ull % base)]
    ensures if ull / base == 0 then Full(buf', x, base, s + 1) else ull / base > 0 && Filling(buf', x, base, ull / base, s + 1)
  {
    BuildNext(x, base, ull, buf[..s]);
    RoomLeft(ull, base, s);
    assert buf'[..s + 1] == buf[..s] + [DigitChar(ull % base)];
  }

  /** The loop for decimal numbers. */
  method BuildDecimal(buf: array<byte>, x: u64) returns (s: nat)
    requires buf.Length == 64
    modifies buf
    ensures Full(buf[..], x, 10, s)
  {
    var ull := x;
    s := 0;
    assert Pow2(64) == WORD64 by {
      Pow2Values();
    }
    while true
      invariant Filling(buf[..], x, 10, ull, s)
      decreases ull
    {
      var digit := QDivRem.UModDi3(ull, 10);
      ghost var before, was := buf[..], ull;
      buf[s] := DigitChar(digit);
      s := s + 1;
      ull := QDivRem.UDivDi3(ull, 10);
      FillNext(before, buf[..], x, 10, was, s - 1);
      if ull == 0 {
        break;
      }
    }
  }

  /** The loop for hexadecimal numbers. */
  method BuildHex(buf: array<byte>, x: u64) returns (s: nat)
    requires buf.Length == 64
    modifies buf
    ensures Full(buf[..], x, 16, s)
  {
    var ull := x;
    s := 0;
    assert Pow2(64) == WORD64 by {
      Pow2Values();
    }
    while true
      invariant Filling(buf[..], x, 16, ull, s)
      decreases ull
    {
      ghost var before, was := buf[..], ull;
      buf[s] := DigitChar(ull % 16);
      s := s + 1;
      ull := ull / 16;
      FillNext(before, buf[..], x, 16, was, s - 1);
      if ull == 0 {
        break;
      }
    }
  }

  /** `dumpbuf`: zeros up to the width, then the buffer from its end. */
  method DumpBuffer(out: seq<byte>, buf: array<byte>, length: nat, width: nat) returns (out': seq<byte>)
    requires length <= buf.Length
    ensures out' == out + (ZerosText(if width > length then width - length else 0) + Reverse(buf[..length]))
  {
    out' := out;
    var fill := width;
    while length < fill
      invariant 0 <= fill <= width && out' == out + ZerosText(width - fill)
      invariant fill < width ==> length <= fill
    {
      out', fill := out' + [DIGIT0], fill - 1;
    }
    ghost var zeros := out';
    var s := length;
    while s > 0
      invariant 0 <= s <= length && out' == zeros + Reverse(buf[..length])[..length - s]
    {
      s := s - 1;
      ReverseAt(buf[..length], length - 1 - s);
      out' := out' + [buf[s]];
    }
  }

  // ---------- formats ----------

  const PERCENT: byte := 0x25
  const LETTER_L: byte := 0x6C

  /** What va_arg delivers: a 32-bit or a 64-bit number, a character or a string. */
  datatype Arg = Narrow(n: u32) | Wide(q: u64) | Character(c: byte) | Text(w: seq<byte>)

  /** A piece of a format: a character, or a conversion with what stands between the percent
      sign and its letter. */
  datatype Piece = Plain(c: byte) | Conversion(flags: seq<byte>, letter: byte, arg: Arg)

  predicate IsDecimal(letter: byte) {
    letter == 0x64 || letter == 0x75
  }

  predicate IsHex(letter: byte) {
    letter == 0x70 || letter == 0x78
  }

  /** c, s, d, u, p or x. */
  predicate IsLetter(letter: byte) {
    letter == 0x63 || letter == 0x73 || IsDecimal(letter) || IsHex(letter)
  }

  function NextFill(fill: nat, c: byte): nat {
    if 0x30 <= c <= 0x39 then c - 0x30 else fill
  }

  function NextLong(longness: nat, c: byte): nat {
    if c == LETTER_L then longness + 1 else longness
  }

  /** The width is the last digit among the flags. */
  ghost function FillOf(fill: nat, flags: seq<byte>): nat
    decreases |flags|
  {
    if |flags| == 0 then fill else FillOf(NextFill(fill, flags[0]), flags[1..])
  }

  /** The number of letters l among them. */
  ghost function LongOf(longness: nat, flags: seq<byte>): nat
    decreases |flags|
  {
    if |flags| == 0 then longness else LongOf(NextLong(longness, flags[0]), flags[1..])
  }

  /** The argument has the type that the conversion takes. */
  ghost predicate ArgFits(letter: byte, longness: nat, arg: Arg) {
    if letter == 0x63 then arg.Character?
    else if letter == 0x73 then arg.Text?
    else if longness < 2 then arg.Narrow?
    else arg.Wide?
  }

  ghost predicate PieceOk(p: Piece) {
    match p
    case Plain(c) => c != 0 && c != PERCENT
    case Conversion(flags, letter, arg) =>
      IsLetter(letter) && (forall i :: 0 <= i < |flags| ==> flags[i] != 0 && !IsLetter(flags[i])) &&
      ArgFits(letter, LongOf(0, flags), arg)
  }

  ghost predicate AllOk(ps: seq<Piece>) {
    forall i :: 0 <= i < |ps| ==> PieceOk(ps[i])
  }

  /** Flags, letter and what follows. */
  ghost function Spelled(flags: seq<byte>, letter: byte, more: seq<byte>): (f: seq<byte>)
    ensures |f| > |more|
  {
    if |flags| == 0 then [letter] + more else [flags[0]] + Spelled(flags[1..], letter, more)
  }

  /** The pieces as a format string, with its terminator. */
  ghost function Format(ps: seq<Piece>): (f: seq<byte>)
    ensures |f| > 0
  {
    if |ps| == 0 then [0]
    else
      match ps[0]
      case Plain(c) => [c] + Format(ps[1..])
      case Conversion(flags, letter, _) => [PERCENT] + Spelled(flags, letter, Format(ps[1..]))
  }

  ghost function ArgsOf(ps: seq<Piece>): seq<Arg> {
    if |ps| == 0 then []
    else if ps[0].Plain? then ArgsOf(ps[1..])
    else [ps[0].arg] + ArgsOf(ps[1..])
  }

  function NumberArg(arg: Arg): u64 {
    match arg case Narrow(n) => n case Wide(q) => q case _ => 0
  }

  ghost function Converted(letter: byte, fill: nat, arg: Arg): seq<byte> {
    match arg
    case Character(c) => [c]
    case Text(w) => w
    case _ => Filled(NumberArg(arg), if IsHex(letter) then 16 else 10, fill)
  }

  ghost function Printed(ps: seq<Piece>): seq<byte> {
    if |ps| == 0 then []
    else
      (match ps[0] case Plain(c) => [c] case Conversion(flags, letter, arg) => Converted(letter, FillOf(0, flags), arg)) +
      Printed(ps[1..])
  }

  // ---------- vprintf ----------

  /** A conversion letter. */
  method Convert(out: seq<byte>, letter: byte, fill: nat, longness: nat, arg: Arg) returns (out': seq<byte>)
    requires IsLetter(letter) && ArgFits(letter, longness, arg)
    ensures out' == out + Converted(letter, fill, arg)
  {
    if letter == 0x63 {
      out' := out + [arg.c];
    } else if letter == 0x73 {
      out' := out + arg.w;
    } else {
      var x := if longness < 2 then arg.n else arg.q;
      var buf := new byte[64](_ => 0);
      var s;
      if IsDecimal(letter) {
        s := BuildDecimal(buf, x);
      } else {
        s := BuildHex(buf, x);
      }
      out' := DumpBuffer(out, buf, s, fill);
    }
  }

  /** What is left of a format: pieces, or the rest of a conversion and pieces. */
  datatype Left = Outside(ps: seq<Piece>) | Inside(flags: seq<byte>, letter: byte, arg: Arg, ps: seq<Piece>)

  ghost function LeftFormat(l: Left): seq<byte> {
    match l
    case Outside(ps) => Format(ps)
    case Inside(flags, letter, _, ps) => Spelled(flags, letter, Format(ps))
  }

  ghost function LeftArgs(l: Left): seq<Arg> {
    match l case Outside(ps) => ArgsOf(ps) case Inside(_, _, arg, ps) => [arg] + ArgsOf(ps)
  }

  ghost function LeftPrinted(l: Left, fill: nat): seq<byte> {
    match l
    case Outside(ps) => Printed(ps)
    case Inside(flags, letter, arg, ps) => Converted(letter, FillOf(fill, flags), arg) + Printed(ps)
  }

  ghost predicate PieceLeft(l: Left, longness: nat)
    requires l.Inside?
  {
    IsLetter(l.letter) && (forall i :: 0 <= i < |l.flags| ==> l.flags[i] != 0 && !IsLetter(l.flags[i])) &&
    ArgFits(l.letter, LongOf(longness, l.flags), l.arg)
  }

  /** What the loop of vprintf keeps; `inside` is its state. */
  ghost predicate Formatting(l: Left, inside: bool, longness: nat, fill: nat, fmt: seq<byte>, args: seq<Arg>,
                             out: seq<byte>, total: seq<byte>)
  {
    inside == l.Inside? && AllOk(l.ps) && fmt == LeftFormat(l) && args == LeftArgs(l) && out + LeftPrinted(l, fill) == total &&
    (inside ==> PieceLeft(l, longness))
  }

  ghost function Advance(l: Left): Left
    requires |LeftFormat(l)| > 1
  {
    match l
    case Outside(ps) =>
      (match ps[0]
       case Plain(_) => Outside(ps[1..])
       case Conversion(flags, letter, arg) => Inside(flags, letter, arg, ps[1..]))
    case Inside(flags, letter, arg, ps) => if |flags| == 0 then Outside(ps) else Inside(flags[1..], letter, arg, ps)
  }

  /** One character outside of conversions. */
  lemma OutsideStep(l: Left, longness: nat, fill: nat, fmt: seq<byte>, args: seq<Arg>, out: seq<byte>, total: seq<byte>)
    requires Formatting(l, false, longness, fill, fmt, args, out, total) && fmt[0] != 0
    ensures |fmt| > 1
    ensures fmt[0] == PERCENT ==> Formatting(Advance(l), true, 0, 0, fmt[1..], args, out, total)
    ensures fmt[0] != PERCENT ==> Formatting(Advance(l), false, 0, 0, fmt[1..], args, out + [fmt[0]], total)
  {
    assert PieceOk(l.ps[0]);
    if l.ps[0].Plain? {
      assert out + LeftPrinted(l, fill) == (out + [fmt[0]]) + Printed(l.ps[1..]);
    }
  }

  /** One character inside. */
  lemma InsideStep(l: Left, longness: nat, fill: nat, fmt: seq<byte>, args: seq<Arg>, out: seq<byte>, total: seq<byte>)
    requires Formatting(l, true, longness, fill, fmt, args, out, total)
    ensures |fmt| > 1 && fmt[0] != 0
    ensures !IsLetter(fmt[0]) ==>
      Formatting(Advance(l), true, NextLong(longness, fmt[0]), NextFill(fill, fmt[0]), fmt[1..], args, out, total)
    ensures IsLetter(fmt[0]) ==>
      |args| > 0 && ArgFits(fmt[0], longness, args[0]) &&
      Formatting(Advance(l), false, 0, 0, fmt[1..], args[1..], out + Converted(fmt[0], fill, args[0]), total)
  {
    if |l.flags| == 0 {
      assert out + LeftPrinted(l, fill) == (out + Converted(l.letter, fill, l.arg)) + Printed(l.ps);
    }
  }

  lemma NothingLeft(l: Left, longness: nat, fill: nat, fmt: seq<byte>, args: seq<Arg>, out: seq<byte>, total: seq<byte>)
    requires Formatting(l, false, longness, fill, fmt, args, out, total) && fmt[0] == 0
    ensures out == total
  {
    assert |l.ps| > 0 ==> PieceOk(l.ps[0]);
  }

  /** vprintf, on a format that is made of pieces, with the arguments they take. */
  method VPrintf(fmt: seq<byte>, args: seq<Arg>, ghost ps: seq<Piece>) returns (out: seq<byte>)
    requires AllOk(ps) && fmt == Format(ps) && args == ArgsOf(ps)
    ensures out == Printed(ps)
  {
    var i, a, inside, longness, fill := 0, 0, false, 0, 0;
    out := [];
    ghost var l := Outside(ps);
    while fmt[i] != 0
      invariant 0 <= i < |fmt| && 0 <= a <= |args| && 0 <= longness && 0 <= fill
      invariant Formatting(l, inside, longness, fill, fmt[i..], args[a..], out, Printed(ps))
      decreases |fmt| - i
    {
      var c := fmt[i];
      if !inside {
        OutsideStep(l, longness, fill, fmt[i..], args[a..], out, Printed(ps));
        longness, fill := 0, 0;
        if c == PERCENT {
          inside := true;
        } else {
          out := out + [c];
        }
      } else {
        InsideStep(l, longness, fill, fmt[i..], args[a..], out, Printed(ps));
        if IsLetter(c) {
          out := Convert(out, c, fill, longness, args[a]);
          a, inside, longness, fill := a + 1, false, 0, 0;
        } else {
          longness, fill := NextLong(longness, c), NextFill(fill, c);
        }
      }
      l := Advance(l);
      i := i + 1;
    }
    if inside {
      InsideStep(l, longness, fill, fmt[i..], args[a..], out, Printed(ps));
    }
    NothingLeft(l, longness, fill, fmt[i..], args[a..], out, Printed(ps));
  }

  // ---------- parsing what was printed ----------

  lemma {:induction false} TextIsDigits(x: nat, base: nat)
    requires 2 <= base <= 16
    ensures forall i :: 0 <= i < |NumberText(x, base)| ==> DigitOf(NumberText(x, base)[i]) < base
    decreases x
  {
    if x >= base {
      TextIsDigits(x / base, base);
    }
  }

  /** All digits but the last, and the last. */
  lemma TextStep(x: nat, base: nat) returns (q: nat, r: nat)
    requires 2 <= base <= 16 && x >= base
    ensures r < base && x == q * base + r && q < x
    ensures NumberText(x, base) == NumberText(q, base) + [DigitChar(r)]
  {
    DivisionEquation(x, base);
    q, r := x / base, x % base;
  }

  lemma {:induction false} ValueOfText(s: seq<byte>, i: nat, x: nat, base: nat)
    requires 2 <= base <= 16 && At(s, i, NumberText(x, base))
    ensures Value(s, i, i + |NumberText(x, base)|, base) == x
    decreases x
  {
    if x >= base {
      var q, r := TextStep(x, base);
      var v, k := NumberText(q, base), i + |NumberText(q, base)|;
      AtSplit(s, i, v, i + |v|, [DigitChar(r)]);
      assert s[k] == [DigitChar(r)][0];
      ValueOfText(s, i, q, base);
      assert Value(s, i, k + 1, base) == q * base + r;
    } else {
      assert s[i] == NumberText(x, base)[0];
      assert Value(s, i, i, base) == 0;
    }
  }

  /** Leading zeros do not count. */
  lemma {:induction false} ValueAfterZeros(s: seq<byte>, i: nat, j: nat, k: nat, base: nat)
    requires i <= j <= k <= |s| && forall n :: i <= n < j ==> s[n] == DIGIT0
    ensures Value(s, i, k, base) == Value(s, j, k, base)
    decreases k - i
  {
    if k > j {
      ValueAfterZeros(s, i, j, k - 1, base);
    } else if j > i {
      ValueAfterZeros(s, i, j - 1, j - 1, base);
    }
  }

  lemma {:induction false} RunEndAt(s: seq<byte>, i: nat, k: nat, base: nat)
    requires i <= k < |s| && DigitOf(s[k]) >= base && forall j :: i <= j < k ==> DigitOf(s[j]) < base
    ensures RunEnd(s, i, base) == k
    decreases k - i
  {
    if i < k {
      RunEndAt(s, i + 1, k, base);
    }
  }

  /** A string that begins with digits is a number without sign or prefix. */
  lemma NumberOfDigits(s: seq<byte>, base: nat, k: nat, x: u64)
    requires base == 10 || base == 16
    requires 0 < k < |s| && RunEnd(s, 0, base) == k && Value(s, 0, k, base) == x && !HexPrefix(s, 0)
    ensures NumberOf(s, base) == Number(x, k)
  {
    assert DigitOf(s[0]) < base;
    assert AfterSpaces(s, 0) == 0;
    assert HeadOf(s, base) == Head(false, 0, base);
  }

  /** All characters of a filled number are digits. */
  lemma FilledDigits(x: nat, base: nat, fill: nat) returns (z: nat)
    requires 2 <= base <= 16
    ensures var w, t := NumberText(x, base), Filled(x, base, fill);
      |t| == z + |w| && t[z..] == w && (forall i :: 0 <= i < z ==> t[i] == DIGIT0) &&
      forall i :: 0 <= i < |t| ==> DigitOf(t[i]) < base
  {
    var w := NumberText(x, base);
    z := if fill > |w| then fill - |w| else 0;
    TextIsDigits(x, base);
    var t := ZerosText(z) + w;
    forall i | 0 <= i < |t| ensures DigitOf(t[i]) < base {
      assert t[i] == if i < z then DIGIT0 else w[i - z];
    }
  }

  lemma NoPrefix(s: seq<byte>, k: nat, base: nat)
    requires 0 < k < |s| && base <= 16 && forall i :: 0 <= i < k ==> DigitOf(s[i]) < base
    requires s[k] != 0x78 && s[k] != 0x58
    ensures !HexPrefix(s, 0)
  {
    if |s| > 2 && k > 1 {
      assert DigitOf(s[1]) < base;
    }
  }

  lemma TextAt(t: seq<byte>, rest: seq<byte>, z: nat, w: seq<byte>)
    requires z <= |t| && t[z..] == w && |rest| > 0
    ensures At(t + rest, z, w) && (t + rest)[|t|] == rest[0] && forall i :: 0 <= i < |t| ==> (t + rest)[i] == t[i]
  {
    assert forall i :: z <= i < |t| ==> t[i] == t[z..][i - z];
  }

  /** What a number is printed as, with any width, is parsed as that number, by the base it was
      printed in; whatever ends the digits. */
  lemma ParsePrinted(x: u64, base: nat, fill: nat, rest: seq<byte>)
    requires base == 10 || base == 16
    requires |rest| > 0 && DigitOf(rest[0]) >= base && rest[0] != 0x78 && rest[0] != 0x58
    ensures NumberOf(Filled(x, base, fill) + rest, base) == Number(x, |Filled(x, base, fill)|)
  {
    var t := Filled(x, base, fill);
    var z := FilledDigits(x, base, fill);
    var s := t + rest;
    TextAt(t, rest, z, NumberText(x, base));
    NoPrefix(s, |t|, base);
    RunEndAt(s, 0, |t|, base);
    ValueAfterZeros(s, 0, z, |t|, base);
    ValueOfText(s, z, x, base);
    NumberOfDigits(s, base, |t|, x);
  }

  // ---------- the conversions ----------

  /** Digits are printed 0 to 9 and a to f, and no number starts with a needless 0. */
  lemma {:induction false} TextIsPlain(x: nat, base: nat)
    requires 2 <= base <= 16
    ensures forall k :: 0 <= k < |NumberText(x, base)| ==>
      var c := NumberText(x, base)[k]; 0x30 <= c <= 0x39 || 0x61 <= c <= 0x66
    ensures |NumberText(x, base)| > 1 ==> NumberText(x, base)[0] != 0x30
    ensures NumberText(x, base)[0] == 0x30 ==> x == 0
    decreases x
  {
    if x >= base {
      var q, r := TextStep(x, base);
      TextIsPlain(q, base);
    }
  }

  /** A digit among the flags is the width, unless another one follows; each l counts. */
  lemma {:induction false} FlagsMean(fill: nat, longness: nat, flags: seq<byte>, c: byte)
    ensures FillOf(fill, flags + [c]) == if 0x30 <= c <= 0x39 then c - 0x30 else FillOf(fill, flags)
    ensures LongOf(longness, flags + [c]) == LongOf(longness, flags) + (if c == 0x6C then 1 else 0)
    decreases |flags|
  {
    if |flags| == 0 {
      assert [c][1..] == [];
    } else {
      assert (flags + [c])[1..] == flags[1..] + [c];
      FlagsMean(NextFill(fill, flags[0]), NextLong(longness, flags[0]), flags[1..], c);
    }
  }

  /** What each letter prints: c a character, s a string, d and u a decimal and p and x a hexadecimal
      number, of 64 bits behind two l. */
  lemma ConversionMeans(flags: seq<byte>, letter: byte, arg: Arg)
    requires PieceOk(Conversion(flags, letter, arg))
    ensures letter == 0x63 || letter == 0x73 || letter == 0x64 || letter == 0x75 || letter == 0x70 || letter == 0x78
    ensures var w := Printed([Conversion(flags, letter, arg)]);
      if letter == 0x63 then arg.Character? && w == [arg.c]
      else if letter == 0x73 then arg.Text? && w == arg.w
      else
        (if LongOf(0, flags) < 2 then arg.Narrow? else arg.Wide?) &&
        w == Filled(if arg.Narrow? then arg.n else arg.q, if letter == 0x64 || letter == 0x75 then 10 else 16, FillOf(0, flags))
  {
    var p := Conversion(flags, letter, arg);
    assert [p][1..] == [];
    assert Printed([p]) == Converted(letter, FillOf(0, flags), arg) + Printed([]);
  }

  /** `%Nllu` and `%Nllx`. */
  lemma WideFormat(width: nat, letter: byte, x: u64)
    requires width < 10 && (letter == 0x75 || letter == 0x78)
    ensures var p := Conversion([0x30 + width, LETTER_L, LETTER_L], letter, Wide(x));
      AllOk([p]) && ArgsOf([p]) == [Wide(x)] && Format([p]) == [PERCENT, 0x30 + width, LETTER_L, LETTER_L, letter, 0] &&
      Printed([p]) == Filled(x, if letter == 0x78 then 16 else 10, width)
  {
    var c: byte := 0x30 + width;
    var flags := [c, LETTER_L, LETTER_L];
    assert flags[1..] == [LETTER_L, LETTER_L] && flags[1..][1..] == [LETTER_L] && flags[1..][1..][1..] == [];
    assert LongOf(0, flags) == 2 by {
      assert LongOf(0, flags) == LongOf(0, [LETTER_L, LETTER_L]) == LongOf(1, [LETTER_L]) == LongOf(2, []);
    }
    assert FillOf(0, flags) == width by {
      assert FillOf(0, flags) == FillOf(width, [LETTER_L, LETTER_L]) == FillOf(width, [LETTER_L]) == FillOf(width, []);
    }
    var more := Format([]);
    assert Spelled([LETTER_L], letter, more) == [LETTER_L] + Spelled([], letter, more);
    assert Spelled([LETTER_L, LETTER_L], letter, more) == [LETTER_L] + Spelled([LETTER_L], letter, more);
    assert Spelled(flags, letter, more) == [c] + Spelled([LETTER_L, LETTER_L], letter, more);
    var p := Conversion(flags, letter, Wide(x));
    assert [p][1..] == [];
    assert Printed([p]) == Converted(letter, width, Wide(x)) + [];
  }

  /** The round trip through both programs. */
  method PrintAndParse(x: u64, hex: bool, width: nat) returns (y: u64, end: nat, ghost out: seq<byte>)
    requires width < 10
    ensures y == x && out == Filled(x, if hex then 16 else 10, width) && end == |out|
  {
    var digit: byte := 0x30 + width;
    var letter: byte := if hex then 0x78 else 0x75;
    ghost var flags := [digit, LETTER_L, LETTER_L];
    ghost var p := Conversion(flags, letter, Wide(x));
    WideFormat(width, letter, x);
    var text := VPrintf([PERCENT, digit, LETTER_L, LETTER_L, letter, 0], [Wide(x)], [p]);
    ParsePrinted(x, if hex then 16 else 10, width, [0]);
    out := text;
    var s := text + [0];
    assert s[|text|] == 0;
    y, end := StrToUll.StrToUll(s, if hex then 16 else 10);
  }
}
