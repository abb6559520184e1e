/** The number parser (standalone/strtoull.c), with its 64-bit division by the routines of
    QDivRem. */
module StrToUll {
  import opened Words
  import opened Memory
  import QDivRem

  const ULLONG_MAX: u64 := WORD64 - 1

  const SPACE: byte := 0x20
  const PLUS: byte := 0x2B
  const MINUS: byte := 0x2D
  const DIGIT0: byte := 0x30

  // ---------- what a number is ----------

  /** The value of a digit or letter, and 36 for any other character. */
  function DigitOf(c: byte): (d: nat)
    ensures d <= 36
  {
    if 0x30 <= c <= 0x39 then c - 0x30
    else if 0x41 <= c <= 0x5A then c - 0x41 + 10
    else if 0x61 <= c <= 0x7A then c - 0x61 + 10
    else 36
  }

  /** The end of the longest run of digits from index i on. */
  ghost function RunEnd(s: seq<byte>, i: nat, base: nat): (k: nat)
    requires i <= |s|
    ensures i <= k <= |s| && (k < |s| ==> DigitOf(s[k]) >= base)
    ensures forall j :: i <= j < k ==> DigitOf(s[j]) < base
    decreases |s| - i
  {
    if i == |s| || DigitOf(s[i]) >= base then i else RunEnd(s, i + 1, base)
  }

  /** The value of the digits from index i to k. */
  ghost function Value(s: seq<byte>, i: nat, k: nat, base: nat): nat
    requires i <= k <= |s|
    decreases k - i
  {
    if k == i then 0 else Value(s, i, k - 1, base) * base + DigitOf(s[k - 1])
  }

  /** The first index from i on without a space. */
  ghost function AfterSpaces(s: seq<byte>, i: nat): (k: nat)
    requires i <= |s|
    ensures i <= k <= |s| && (k < |s| ==> s[k] != SPACE)
    ensures forall j :: i <= j < k ==> s[j] == SPACE
    decreases |s| - i
  {
    if i == |s| || s[i] != SPACE then i else AfterSpaces(s, i + 1)
  }

  /** `0x` or `0X` and a hexadecimal digit stand at index i. */
  predicate HexPrefix(s: seq<byte>, i: nat) {
    i + 2 < |s| && s[i] == DIGIT0 && (s[i + 1] == 0x78 || s[i + 1] == 0x58) && DigitOf(s[i + 2]) < 16
  }

  /** A string with its terminator. */
  ghost predicate Terminated(s: seq<byte>) {
    exists i :: 0 <= i < |s| && s[i] == 0
  }

  /** How a number begins: whether it is negative, where its digits start, and their base. */
  datatype Head = Head(neg: bool, start: nat, base: int)

  ghost function HeadOf(s: seq<byte>, base: int): (h: Head)
    ensures h.start <= |s|
  {
    var i := AfterSpaces(s, 0);
    var neg := i < |s| && s[i] == MINUS;
    var j := if i < |s| && (s[i] == MINUS || s[i] == PLUS) then i + 1 else i;
    if (base == 0 || base == 16) && HexPrefix(s, j) then Head(neg, j + 2, 16)
    else if base == 0 then Head(neg, j, if j < |s| && s[j] == DIGIT0 then 8 else 10)
    else Head(neg, j, base)
  }

  /** The value and the end of the number; no digits, or no such base, is value 0 and end 0. */
  datatype Number = Number(value: u64, end: nat)

  ghost function NumberOf(s: seq<byte>, base: int): Number {
    var h := HeadOf(s, base);
    if h.base < 2 || h.base > 36 then Number(0, 0)
    else
      var k := RunEnd(s, h.start, h.base);
      var v: int := Value(s, h.start, k, h.base);
      if k == h.start then Number(0, 0)
      else if v > ULLONG_MAX then Number(ULLONG_MAX, k)
      else Number(if h.neg then Wrap64(-v) else v, k)
  }

  // ---------- the scanning loop ----------

  /** The cutoff test is the test whether one more digit leaves 64 bits. */
  lemma CutoffTest(acc: nat, d: nat, base: nat)
    requires d < base
    ensures acc * base + d > ULLONG_MAX <==>
      acc > ULLONG_MAX / base || (acc == ULLONG_MAX / base && d > ULLONG_MAX % base)
  {
    var m: int := ULLONG_MAX;
    DivisionEquation(m, base);
    var q, r := m / base, m % base;
    if acc > q {
      MulLe(base, q + 1, acc);
      assert base * (q + 1) == q * base + base && base * acc == acc * base;
    } else if acc < q {
      MulLe(base, acc + 1, q);
      assert base * (acc + 1) == acc * base + base && base * q == q * base;
    }
  }

  lemma Grows(v: nat, d: nat, base: nat)
    requires v > ULLONG_MAX && base >= 1
    ensures v * base + d > ULLONG_MAX
  {
    MulLe(v, 1, base);
  }

  /** `any` and `acc` after the digits from i to k: none yet, too large, or their value. */
  ghost predicate Scanned(s: seq<byte>, i: nat, k: nat, base: nat, acc: nat, any: int) {
    i <= k <= |s| && (any == 0 <==> k == i) && -1 <= any <= 1 &&
    (any < 0 <==> Value(s, i, k, base) > ULLONG_MAX) && (any >= 0 ==> acc == Value(s, i, k, base))
  }

  /** One digit. */
  method TakeDigit(s: seq<byte>, ghost i: nat, ghost k: nat, base: nat, d: nat, cutoff: u64, cutlim: nat, acc: u64, any: int)
    returns (acc': u64, any': int)
    requires 2 <= base && k < |s| && d == DigitOf(s[k]) < base && Scanned(s, i, k, base, acc, any)
    requires cutoff == ULLONG_MAX / base && cutlim == ULLONG_MAX % base
    ensures Scanned(s, i, k + 1, base, acc', any')
  {
    if any < 0 {
      Grows(Value(s, i, k, base), d, base);
    } else {
      CutoffTest(acc, d, base);
    }
    if any < 0 || acc > cutoff || (acc == cutoff && d > cutlim) {
      acc', any' := acc, -1;
    } else {
      acc', any' := acc * base + d, 1;
    }
  }

  lemma StopsAtZero(s: seq<byte>, i: nat, base: nat, t: nat)
    requires i <= t < |s| && s[t] == 0 && base <= 36
    ensures RunEnd(s, i, base) <= t
  {
  }

  /** The loop over the digits, from index i on. */
  method ScanDigits(s: seq<byte>, i: nat, base: nat) returns (acc: u64, any: int, k: nat)
    requires 2 <= base <= 36 && i <= |s| && exists t :: i <= t < |s| && s[t] == 0
    ensures k == RunEnd(s, i, base) < |s| && Scanned(s, i, k, base, acc, any)
  {
    var cutoff := QDivRem.UDivDi3(ULLONG_MAX, base);
    var cutlim := QDivRem.UModDi3(ULLONG_MAX, base);
    ghost var t :| i <= t < |s| && s[t] == 0;
    StopsAtZero(s, i, base, t);
    acc, any, k := 0, 0, i;
    while DigitOf(s[k]) < base
      invariant i <= k <= t && RunEnd(s, k, base) == RunEnd(s, i, base)
      invariant Scanned(s, i, k, base, acc, any)
      decreases t - k
    {
      acc, any := TakeDigit(s, i, k, base, DigitOf(s[k]), cutoff, cutlim, acc, any);
      k := k + 1;
    }
  }

  // ---------- the parser ----------

  /** The `do` loop over spaces. */
  method SkipSpaces(s: seq<byte>) returns (i: nat)
    requires Terminated(s)
    ensures i == AfterSpaces(s, 0) < |s| && exists t :: i <= t < |s| && s[t] == 0
  {
    ghost var t :| 0 <= t < |s| && s[t] == 0;
    i := 0;
    while s[i] == SPACE
      invariant 0 <= i <= t && AfterSpaces(s, i) == AfterSpaces(s, 0)
      decreases t - i
    {
      i := i + 1;
    }
  }

  /** Everything before the digits. */
  method ParseHead(s: seq<byte>, base: int) returns (h: Head)
    requires Terminated(s)
    ensures h == HeadOf(s, base) && exists t :: h.start <= t < |s| && s[t] == 0
  {
    var i := SkipSpaces(s);
    ghost var t :| i <= t < |s| && s[t] == 0;
    var neg := s[i] == MINUS;
    if s[i] == MINUS || s[i] == PLUS {
      i := i + 1;
    }
    if (base == 0 || base == 16) && HexPrefix(s, i) {
      assert i + 2 <= t;
      return Head(neg, i + 2, 16);
    }
    if base == 0 {
      return Head(neg, i, if s[i] == DIGIT0 then 8 else 10);
    }
    return Head(neg, i, base);
  }

  /** strtoull; `end` is what is stored through endptr. */
  method StrToUll(s: seq<byte>, base: int) returns (value: u64, end: nat)
    requires Terminated(s)
    ensures Number(value, end) == NumberOf(s, base)
  {
    var h := ParseHead(s, base);
    if h.base < 2 || h.base > 36 {
      return 0, 0;
    }
    var acc, any, k := ScanDigits(s, h.start, h.base);
    if any < 0 {
      acc := ULLONG_MAX;
    } else if any != 0 && h.neg {
      var v: int := acc;
      acc := Wrap64(-v);
    }
    return acc, if any != 0 then k else 0;
  }

  // ---------- numbers as they are written ----------

  /** The characters for a digit: 0 to 9, then a to z or A to Z. */
  function Small(d: nat): byte
    requires d < 36
  {
    if d < 10 then 0x30 + d else 0x61 + (d - 10)
  }

  function Capital(d: nat): byte
    requires d < 36
  {
    if d < 10 then 0x30 + d else 0x41 + (d - 10)
  }

  /** The characters `cs` are the digits `ds` of base b, in either case. */
  ghost predicate Spells(cs: seq<byte>, ds: seq<nat>, b: nat) {
    |cs| == |ds| && b <= 36 && forall i :: 0 <= i < |ds| ==> ds[i] < b && (cs[i] == Small(ds[i]) || cs[i] == Capital(ds[i]))
  }

  ghost predicate NoDigit(c: byte, b: nat)
    requires b <= 36
  {
    forall d: nat :: d < b ==> c != Small(d) && c != Capital(d)
  }

  /** The number with the digits `ds`, most significant first. */
  ghost function Worth(ds: seq<nat>, b: nat): nat {
    if |ds| == 0 then 0 else Worth(ds[..|ds| - 1], b) * b + ds[|ds| - 1]
  }

  datatype Sign = NoSign | Plus | Minus

  function SignBytes(g: Sign): (w: seq<byte>)
    ensures |w| <= 1
  {
    match g case NoSign => [] case Plus => [0x2B] case Minus => [0x2D]
  }

  /** `n` spaces, the sign, the prefix, the digits, and what ends them. */
  function Text(n: nat, g: Sign, pre: seq<byte>, cs: seq<byte>, tail: seq<byte>): seq<byte> {
    (seq(n, _ => 0x20) + SignBytes(g)) + (pre + (cs + tail))
  }

  /** An x and a hexadecimal digit follow. */
  ghost predicate HexFollows(tail: seq<byte>) {
    |tail| >= 2 && (tail[0] == 0x78 || tail[0] == 0x58) && !NoDigit(tail[1], 16)
  }

  /** When a text is a number of base b for the parser: digits behind 0x or 0X for base 0 or 16;
      with base 0 octal digits where the first is a 0, and decimal digits otherwise; digits of the
      base that was asked for. A 0 in front of an x and a hexadecimal digit is no number of its own. */
  ghost predicate IsNumeral(base: int, pre: seq<byte>, cs: seq<byte>, ds: seq<nat>, tail: seq<byte>, b: nat) {
    Spells(cs, ds, b) && |ds| > 0 && |tail| > 0 && NoDigit(tail[0], b) &&
    if pre == [0x30, 0x78] || pre == [0x30, 0x58] then (base == 0 || base == 16) && b == 16
    else
      pre == [] &&
      ((base == 0 || base == 16) && ds == [0] ==> !HexFollows(tail)) &&
      if base == 0 then b == (if ds[0] == 0 then 8 else 10) else 2 <= b == base
  }

  lemma DigitMeans(c: byte, d: nat)
    requires d < 36
    ensures DigitOf(c) == d <==> c == Small(d) || c == Capital(d)
  {
  }

  lemma NoDigitMeans(c: byte, b: nat)
    requires b <= 36
    ensures NoDigit(c, b) <==> DigitOf(c) >= b
  {
    forall d: nat | d < b ensures DigitOf(c) == d <==> c == Small(d) || c == Capital(d) {
      DigitMeans(c, d);
    }
    if DigitOf(c) < b {
      assert c == Small(DigitOf(c)) || c == Capital(DigitOf(c));
    }
  }

  lemma {:induction false} AfterBlanks(s: seq<byte>, i: nat, n: nat)
    requires i <= n < |s| && s[n] != 0x20 && forall k :: i <= k < n ==> s[k] == 0x20
    ensures AfterSpaces(s, i) == n
    decreases n - i
  {
    if i < n {
      AfterBlanks(s, i + 1, n);
    }
  }

  /** The digits of a numeral as the loop finds them. */
  lemma {:induction false} RunOfDigits(s: seq<byte>, i: nat, cs: seq<byte>, ds: seq<nat>, b: nat)
    requires At(s, i, cs) && Spells(cs, ds, b) && i + |cs| < |s| && DigitOf(s[i + |cs|]) >= b
    ensures RunEnd(s, i, b) == i + |cs|
    decreases |cs|
  {
    if |cs| > 0 {
      DigitMeans(cs[0], ds[0]);
      assert forall k :: 0 <= k < |cs[1..]| ==> s[i + 1 + k] == cs[1..][k];
      RunOfDigits(s, i + 1, cs[1..], ds[1..], b);
    }
  }

  lemma {:induction false} ValueIsWorth(s: seq<byte>, i: nat, k: nat, ds: seq<nat>, b: nat)
    requires k == i + |ds| && k <= |s| && forall x :: 0 <= x < |ds| ==> DigitOf(s[i + x]) == ds[x]
    ensures Value(s, i, k, b) == Worth(ds, b)
    decreases k
  {
    if |ds| > 0 {
      ValueIsWorth(s, i, k - 1, ds[..|ds| - 1], b);
      assert DigitOf(s[i + (|ds| - 1)]) == ds[|ds| - 1];
    }
  }

  /** Where the parts of a text stand. */
  lemma TextParts(n: nat, g: Sign, pre: seq<byte>, cs: seq<byte>, tail: seq<byte>, j: nat)
    requires j == n + |SignBytes(g)|
    ensures var s := Text(n, g, pre, cs, tail);
      (forall k :: 0 <= k < n ==> s[k] == 0x20) && (g != NoSign ==> s[n] == SignBytes(g)[0]) &&
      At(s, j, pre) && At(s, j + |pre|, cs) && At(s, j + |pre| + |cs|, tail) && |s| == j + |pre| + |cs| + |tail|
  {
    var s := Text(n, g, pre, cs, tail);
    assert At(s, 0, s);
    AtSplit(s, 0, seq(n, _ => 0x20) + SignBytes(g), j, pre + (cs + tail));
    AtSplit(s, 0, seq(n, _ => 0x20), n, SignBytes(g));
    AtSplit(s, j, pre, j + |pre|, cs + tail);
    AtSplit(s, j + |pre|, cs, j + |pre| + |cs|, tail);
    assert forall k :: 0 <= k < n ==> s[k] == seq(n, _ => 0x20)[k];
  }

  /** Whether a hexadecimal prefix stands in front of a numeral. */
  lemma PrefixOf(s: seq<byte>, j: nat, base: int, pre: seq<byte>, cs: seq<byte>, ds: seq<nat>, tail: seq<byte>, b: nat)
    requires IsNumeral(base, pre, cs, ds, tail, b) && (base == 0 || base == 16)
    requires At(s, j, pre) && At(s, j + |pre|, cs) && At(s, j + |pre| + |cs|, tail) && |s| == j + |pre| + |cs| + |tail|
    ensures HexPrefix(s, j) <==> pre != []
  {
    DigitMeans(cs[0], ds[0]);
    if pre != [] {
      assert s[j] == pre[0] && s[j + 1] == pre[1] && s[j + 2] == cs[0];
    } else if |ds| > 1 {
      DigitMeans(cs[1], ds[1]);
      assert s[j + 1] == cs[1];
    } else {
      assert s[j] == cs[0] && s[j + 1] == tail[0] && ds == [ds[0]];
      if |tail| > 1 {
        assert s[j + 2] == tail[1];
        NoDigitMeans(tail[1], 16);
      }
    }
  }

  /** The start of a numeral is neither space nor sign. */
  lemma HeadOfText(n: nat, g: Sign, base: int, pre: seq<byte>, cs: seq<byte>, ds: seq<nat>, tail: seq<byte>, b: nat, j: nat)
    requires IsNumeral(base, pre, cs, ds, tail, b) && j == n + |SignBytes(g)|
    ensures HeadOf(Text(n, g, pre, cs, tail), base) == Head(g == Minus, j + |pre|, b)
  {
    var s := Text(n, g, pre, cs, tail);
    TextParts(n, g, pre, cs, tail, j);
    DigitMeans(cs[0], ds[0]);
    assert s[j] == (if pre == [] then cs[0] else pre[0]);
    AfterBlanks(s, 0, n);
    if base == 0 || base == 16 {
      PrefixOf(s, j, base, pre, cs, ds, tail, b);
    }
  }

  lemma DigitsOfText(s: seq<byte>, i: nat, cs: seq<byte>, ds: seq<nat>, tail: seq<byte>, b: nat)
    requires Spells(cs, ds, b) && |tail| > 0 && NoDigit(tail[0], b)
    requires At(s, i, cs) && At(s, i + |cs|, tail)
    ensures RunEnd(s, i, b) == i + |cs| && Value(s, i, i + |cs|, b) == Worth(ds, b)
  {
    NoDigitMeans(tail[0], b);
    assert s[i + |cs|] == tail[0];
    RunOfDigits(s, i, cs, ds, b);
    forall x | 0 <= x < |ds| ensures DigitOf(s[i + x]) == ds[x] {
      DigitMeans(cs[x], ds[x]);
      assert s[i + x] == cs[x];
    }
    ValueIsWorth(s, i, i + |cs|, ds, b);
  }

  lemma NumberIs(s: seq<byte>, base: int, neg: bool, i: nat, b: nat, k: nat, v: nat)
    requires HeadOf(s, base) == Head(neg, i, b) && 2 <= b <= 36 && i < k <= |s| && RunEnd(s, i, b) == k
    requires Value(s, i, k, b) == v
    ensures NumberOf(s, base) ==
      Number(if v >= WORD64 then WORD64 - 1 else if neg && v != 0 then WORD64 - v else v, k)
  {
  }

  lemma TextDigits(n: nat, g: Sign, base: int, pre: seq<byte>, cs: seq<byte>, ds: seq<nat>, tail: seq<byte>, b: nat, i: nat, k: nat)
    requires IsNumeral(base, pre, cs, ds, tail, b) && i == n + |SignBytes(g)| + |pre| && k == i + |cs|
    ensures var s := Text(n, g, pre, cs, tail);
      2 <= b <= 36 && i < k <= |s| && RunEnd(s, i, b) == k && Value(s, i, k, b) == Worth(ds, b)
  {
    TextParts(n, g, pre, cs, tail, n + |SignBytes(g)|);
    DigitsOfText(Text(n, g, pre, cs, tail), i, cs, ds, tail, b);
  }

  lemma NumberOfText(n: nat, g: Sign, base: int, pre: seq<byte>, cs: seq<byte>, ds: seq<nat>, tail: seq<byte>, b: nat, v: nat, k: nat)
    requires IsNumeral(base, pre, cs, ds, tail, b) && v == Worth(ds, b) && k == n + |SignBytes(g)| + |pre| + |cs|
    ensures NumberOf(Text(n, g, pre, cs, tail), base) ==
      Number(if v >= WORD64 then WORD64 - 1 else if g == Minus && v != 0 then WORD64 - v else v, k)
  {
    var i := n + |SignBytes(g)| + |pre|;
    HeadOfText(n, g, base, pre, cs, ds, tail, b, n + |SignBytes(g)|);
    TextDigits(n, g, base, pre, cs, ds, tail, b, i, k);
    NumberIs(Text(n, g, pre, cs, tail), base, g == Minus, i, b, k, v);
  }

  lemma TextEnds(n: nat, g: Sign, pre: seq<byte>, cs: seq<byte>, tail: seq<byte>)
    requires exists i :: 0 <= i < |tail| && tail[i] == 0
    ensures Terminated(Text(n, g, pre, cs, tail))
  {
    var j := n + |SignBytes(g)|;
    TextParts(n, g, pre, cs, tail, j);
    var t :| 0 <= t < |tail| && tail[t] == 0;
    assert Text(n, g, pre, cs, tail)[j + |pre| + |cs| + t] == 0;
  }

  /** What every numeral is worth: the number of its digits, negated modulo 2^64 behind a minus
      sign, and 2^64 - 1 where it is larger than that; the end is the end of the digits. */
  method ParsesNumeral(n: nat, g: Sign, base: int, pre: seq<byte>, cs: seq<byte>, ghost ds: seq<nat>, tail: seq<byte>, ghost b: nat)
    returns (value: u64, end: nat)
    requires IsNumeral(base, pre, cs, ds, tail, b) && exists i :: 0 <= i < |tail| && tail[i] == 0
    ensures end == n + |SignBytes(g)| + |pre| + |cs|
    ensures Worth(ds, b) >= 0x1_0000_0000_0000_0000 ==> value == 0xFFFF_FFFF_FFFF_FFFF
    ensures Worth(ds, b) < 0x1_0000_0000_0000_0000 ==>
      value == if g == Minus && Worth(ds, b) != 0 then 0x1_0000_0000_0000_0000 - Worth(ds, b) else Worth(ds, b)
  {
    NumberOfText(n, g, base, pre, cs, ds, tail, b, Worth(ds, b), n + |SignBytes(g)| + |pre| + |cs|);
    TextEnds(n, g, pre, cs, tail);
    value, end := StrToUll(Text(n, g, pre, cs, tail), base);
  }

  lemma NumberOfNothing(s: seq<byte>, base: int, g: Sign, n: nat, j: nat)
    requires n <= j < |s| && j == n + |SignBytes(g)| && (forall k :: 0 <= k < n ==> s[k] == 0x20)
    requires g != NoSign ==> s[n] == SignBytes(g)[0]
    requires g == NoSign ==> s[j] != 0x20 && s[j] != 0x2B && s[j] != 0x2D
    requires base < 0 || base == 1 || base > 36 || NoDigit(s[j], if base == 0 then 10 else base)
    ensures NumberOf(s, base) == Number(0, 0)
  {
    AfterBlanks(s, 0, n);
    if base == 0 {
      NoDigitMeans(s[j], 10);
    } else if 2 <= base <= 36 {
      NoDigitMeans(s[j], base);
    }
  }

  /** No numeral: nothing but spaces, at most one sign, and no digit behind. */
  method ParsesNothing(n: nat, g: Sign, base: int, tail: seq<byte>) returns (value: u64, end: nat)
    requires |tail| > 0 && exists i :: 0 <= i < |tail| && tail[i] == 0
    requires g == NoSign ==> tail[0] != 0x20 && tail[0] != 0x2B && tail[0] != 0x2D
    requires base < 0 || base == 1 || base > 36 || NoDigit(tail[0], if base == 0 then 10 else base)
    ensures value == 0 && end == 0
  {
    var s, j := Text(n, g, [], [], tail), n + |SignBytes(g)|;
    TextParts(n, g, [], [], tail, j);
    assert s[j] == tail[0];
    NumberOfNothing(s, base, g, n, j);
    TextEnds(n, g, [], [], tail);
    value, end := StrToUll(s, base);
  }
}
