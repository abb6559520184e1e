/** Numbers held as base-2^16 digits, most significant first, in a stretch of an array:
    the way qdivrem.c splits its operands. */
module Digits {
  import opened Words

  /** The digit base, half a machine word. */
  const B := 0x1_0000

  /** The stretch [i, j) of `s` holds digits. */
  ghost predicate AllDigits(s: seq<u32>, i: nat, j: nat) {
    i <= j <= |s| && forall x :: i <= x < j ==> s[x] < B
  }

  /** The stretch [i, j) is the same in both arrays. */
  ghost predicate Same(s: seq<u32>, s': seq<u32>, i: nat, j: nat) {
    |s| == |s'| && i <= j <= |s| && forall x :: i <= x < j ==> s[x] == s'[x]
  }

  /** The number written by the digits in the stretch [i, j). */
  ghost function Num(s: seq<u32>, i: nat, j: nat): nat
    requires i <= j <= |s|
    decreases j
  {
    if i == j then 0 else Num(s, i, j - 1) * B + s[j - 1]
  }

  /** B to the power `k`. */
  ghost function BPow(k: nat): (p: nat)
    ensures p > 0
  {
    if k == 0 then 1 else B * BPow(k - 1)
  }

  lemma {:induction false} BPowAdd(a: nat, b: nat)
    ensures BPow(a + b) == BPow(a) * BPow(b)
  {
    if a > 0 {
      BPowAdd(a - 1, b);
      assert B * (BPow(a - 1) * BPow(b)) == (B * BPow(a - 1)) * BPow(b);
    }
  }

  lemma {:induction false} BPowLe(a: nat, b: nat)
    requires a <= b
    ensures BPow(a) <= BPow(b)
    decreases b - a
  {
    if a < b {
      BPowLe(a, b - 1);
    }
  }

  lemma {:induction false} NumBound(s: seq<u32>, i: nat, j: nat)
    requires AllDigits(s, i, j)
    ensures Num(s, i, j) < BPow(j - i)
    decreases j
  {
    if i < j {
      NumBound(s, i, j - 1);
    }
  }

  lemma {:induction false} NumSame(s: seq<u32>, s': seq<u32>, i: nat, j: nat)
    requires Same(s, s', i, j)
    ensures Num(s, i, j) == Num(s', i, j)
    decreases j
  {
    if i < j {
      NumSame(s, s', i, j - 1);
    }
  }

  /** Cutting a number in two. */
  lemma SplitShift(a: nat, p: nat, r: nat, d: nat, q: nat)
    requires q == B * p
    ensures (a * p + r) * B + d == a * q + (r * B + d)
  {
    assert (a * p) * B == a * (B * p);
  }

  lemma {:induction false} NumSplit(s: seq<u32>, i: nat, x: nat, j: nat)
    requires i <= x <= j <= |s|
    ensures Num(s, i, j) == Num(s, i, x) * BPow(j - x) + Num(s, x, j)
    decreases j
  {
    if x < j {
      NumSplit(s, i, x, j - 1);
      SplitShift(Num(s, i, x), BPow(j - 1 - x), Num(s, x, j - 1), s[j - 1], BPow(j - x));
    }
  }

  /** Cutting off the leading digit. */
  lemma NumLead(s: seq<u32>, i: nat, j: nat)
    requires i < j <= |s|
    ensures Num(s, i, j) == s[i] * BPow(j - i - 1) + Num(s, i + 1, j)
  {
    NumSplit(s, i, i + 1, j);
    assert Num(s, i, i + 1) == s[i];
  }

  lemma {:induction false} NumZeros(s: seq<u32>, i: nat, x: nat, j: nat)
    requires i <= x <= j <= |s|
    requires forall y :: i <= y < x ==> s[y] == 0
    ensures Num(s, i, j) == Num(s, x, j)
    decreases x - i
  {
    if i < x {
      NumLead(s, i, j);
      NumZeros(s, i + 1, x, j);
    }
  }

  lemma LeadZero(d: nat, p: nat, low: nat)
    requires d * p + low < p
    ensures d == 0
  {
    if d > 0 {
      MulLe(p, 1, d);
    }
  }

  /** A number below B^k has zeros above its last k digits. */
  lemma {:induction false} NumSmall(s: seq<u32>, i: nat, j: nat, k: nat)
    requires i <= j <= |s| && k <= j - i && Num(s, i, j) < BPow(k)
    ensures forall x :: i <= x < j - k ==> s[x] == 0
    ensures Num(s, i, j) == Num(s, j - k, j)
    decreases j - i
  {
    if k < j - i {
      NumLead(s, i, j);
      BPowLe(k, j - i - 1);
      LeadZero(s[i], BPow(j - i - 1), Num(s, i + 1, j));
      NumSmall(s, i + 1, j, k);
    }
  }

  /** The leading digit, the two leading digits and the three leading digits of a number,
      and what lies below them. */
  lemma NumTop1(s: seq<u32>, i: nat, j: nat) returns (low: nat)
    requires AllDigits(s, i, j) && i < j
    ensures low < BPow(j - i - 1) && Num(s, i, j) == s[i] * BPow(j - i - 1) + low
  {
    NumLead(s, i, j);
    NumBound(s, i + 1, j);
    low := Num(s, i + 1, j);
  }

  lemma NumTop2(s: seq<u32>, i: nat, j: nat) returns (top: nat, low: nat)
    requires AllDigits(s, i, j) && i + 2 <= j
    ensures top == s[i] * B + s[i + 1] && low < BPow(j - i - 2)
    ensures Num(s, i, j) == top * BPow(j - i - 2) + low
  {
    NumSplit(s, i, i + 2, j);
    NumBound(s, i + 2, j);
    assert Num(s, i, i + 1) == s[i];
    top, low := Num(s, i, i + 2), Num(s, i + 2, j);
  }

  lemma NumTop3(s: seq<u32>, i: nat, j: nat) returns (top: nat, low: nat)
    requires AllDigits(s, i, j) && i + 3 <= j
    ensures top == (s[i] * B + s[i + 1]) * B + s[i + 2] && low < BPow(j - i - 3)
    ensures Num(s, i, j) == top * BPow(j - i - 3) + low
  {
    NumSplit(s, i, i + 3, j);
    NumBound(s, i + 3, j);
    assert Num(s, i, i + 1) == s[i];
    assert Num(s, i, i + 2) == s[i] * B + s[i + 1];
    top, low := Num(s, i, i + 3), Num(s, i + 3, j);
  }
}
