/** 64-bit division on a 32-bit machine (standalone/qdivrem.c): Knuth's Program D
    (The Art of Computer Programming, volume 2, section 4.3.1) on digit arrays
    updated in place. */
module QDivRem {
  import opened Words
  import opened Digits

  /** `x >> HALF_BITS`. */
  function HHalf(x: u32): (d: u32)
    ensures d < B
  {
    x / B
  }

  /** `x & ((1 << HALF_BITS) - 1)`. */
  function LHalf(x: u32): (d: u32)
    ensures d < B
  {
    x % B
  }

  /** The macro COMBINE: two digits side by side in one word. */
  function Combine(a: u32, b: u32): u32
    requires b < B
  {
    Wrap32(a * B) + b
  }

  lemma ProductBound(a: int, b: int)
    requires 0 <= a < B && 0 <= b < B
    ensures 0 <= a * b <= 0xFFFE_0001
  {
    MulLe(a, 0, b);
    MulLe(a, b, 0xFFFF);
  }

  // ---------- D4: multiply and subtract ----------

  /** One step of the multiply-and-subtract loop: the wrapped word yields the digit
      and the borrow of the exact, possibly negative, difference. */
  lemma WrappedBorrow(x: int, w: u32)
    requires -0xFFFF_0000 <= x < B && w == Wrap32(x)
    ensures LHalf(w) - ((B - HHalf(w)) % B) * B == x
  {
  }

  lemma SubtractArith(u: int, vd: int, qhat: int, t: int, d: int, t': int, p: int, vLo: int)
    requires d - t' * B == u - vd * qhat - t
    ensures d * p - t' * (B * p) == u * p - qhat * (vd * p + vLo) - t * p + qhat * vLo
  {
    assert (d - t' * B) * p == (u - vd * qhat - t) * p;
    assert (t' * B) * p == t' * (B * p);
    assert (vd * qhat) * p == qhat * (vd * p);
    assert (u - vd * qhat - t) * p == u * p - (vd * qhat) * p - t * p;
  }

  /** One digit of the difference u - vd * qhat - t in wrapped words, and the borrow. */
  method SubWord(u: u32, vd: u32, qhat: u32, t: u32) returns (d: u32, t': u32)
    requires u < B && vd < B && qhat < B && t < B
    ensures d < B && t' < B && d - t' * B == u - vd * qhat - t
  {
    ProductBound(vd, qhat);
    var product := Wrap32(vd * qhat);
    assert product == vd * qhat;
    var w := Wrap32(u - product - t);
    WrappedBorrow(u - product - t, w);
    d, t' := LHalf(w), (B - HHalf(w)) % B;
  }

  /** The top digit of the window: the high half of the word tells the sign. */
  method SubTopWord(u: u32, t: u32) returns (d: u32, borrow: bool)
    requires u < B && t < B
    ensures d < B && d - (if borrow then B else 0) == u - t
  {
    var w := Wrap32(u - t);
    d, borrow := LHalf(w), HHalf(w) != 0;
  }

  lemma SignArith(u: int, t: int, d: int, c: int, p: int)
    requires d - c * B == u - t
    ensures d * p - (B * p) * c == u * p - t * p
  {
    assert (d - c * B) * p == (u - t) * p;
    assert (c * B) * p == (B * p) * c;
  }

  /** D4 after the digits of the window [k, k+n] below index k+i have been treated: the low
      part of `s`, less the borrow `t`, is the low part of the old window less qhat * v. */
  ghost predicate Subtracted(s: seq<u32>, s0: seq<u32>, k: nat, v: seq<u32>, l: nat, n: nat, qhat: u32, i: nat, t: u32) {
    |s| == |s0| && k + n < |s| && l + n <= |v| && i <= n && t < B &&
    AllDigits(s, k, k + n + 1) && AllDigits(v, l, l + n) &&
    Same(s, s0, 0, k + i + 1) && Same(s, s0, k + n + 1, |s|) &&
    Num(s, k + i + 1, k + n + 1) - t * BPow(n - i)
    == Num(s0, k + i + 1, k + n + 1) - qhat * Num(v, l + i, l + n)
  }

  lemma SubtractSum(u: int, vd: int, qhat: int, t: int, d: int, t': int, p: int, vLo: int, low: int, low0: int)
    requires d - t' * B == u - vd * qhat - t && low - t * p == low0 - qhat * vLo
    ensures (d * p + low) - t' * (B * p) == (u * p + low0) - qhat * (vd * p + vLo)
  {
    SubtractArith(u, vd, qhat, t, d, t', p, vLo);
  }

  lemma SubtractStep(s: seq<u32>, s': seq<u32>, s0: seq<u32>, k: nat, v: seq<u32>, l: nat, n: nat, qhat: u32,
                     i: nat, t: u32, t': u32)
    requires Subtracted(s, s0, k, v, l, n, qhat, i, t) && i > 0
    requires |s'| == |s| && s' == s[k + i := s'[k + i]] && s'[k + i] < B && t' < B
    requires s'[k + i] - t' * B == s[k + i] - v[l + i - 1] * qhat - t
    ensures Subtracted(s', s0, k, v, l, n, qhat, i - 1, t')
  {
    var e, p, vLo := k + n + 1, BPow(n - i), Num(v, l + i, l + n);
    var low, low0 := Num(s', k + i + 1, e), Num(s0, k + i + 1, e);
    NumLead(s', k + i, e);
    NumLead(s0, k + i, e);
    NumLead(v, l + i - 1, l + n);
    NumSame(s, s', k + i + 1, e);
    assert Num(s', k + i, e) == s'[k + i] * p + low && Num(s0, k + i, e) == s0[k + i] * p + low0;
    assert Num(v, l + i - 1, l + n) == v[l + i - 1] * p + vLo && BPow(n - i + 1) == B * p;
    SubtractSum(s0[k + i], v[l + i - 1], qhat, t, s'[k + i], t', p, vLo, low, low0);
  }

  lemma SubtractTop(s: seq<u32>, s': seq<u32>, s0: seq<u32>, k: nat, v: seq<u32>, l: nat, n: nat, qhat: u32,
                    t: u32, borrow: bool)
    requires Subtracted(s, s0, k, v, l, n, qhat, 0, t)
    requires |s'| == |s| && s' == s[k := s'[k]] && s'[k] < B
    requires s'[k] - (if borrow then B else 0) == s[k] - t
    ensures Num(s', k, k + n + 1)
         == Num(s0, k, k + n + 1) - qhat * Num(v, l, l + n) + (if borrow then BPow(n + 1) else 0)
    ensures Same(s', s0, 0, k) && Same(s', s0, k + n + 1, |s|)
  {
    NumLead(s', k, k + n + 1);
    NumLead(s0, k, k + n + 1);
    NumSame(s, s', k + 1, k + n + 1);
    SignArith(s0[k], t, s'[k], if borrow then 1 else 0, BPow(n));
  }

  /** D4: subtracts qhat * v[l..l+n) from the window u[k..k+n] and reports the final borrow. */
  method MulSub(u: array<u32>, k: nat, v: array<u32>, l: nat, n: nat, qhat: u32) returns (borrow: bool)
    requires u != v && k + n < u.Length && l + n <= v.Length
    requires AllDigits(u[..], k, k + n + 1) && AllDigits(v[..], l, l + n) && qhat < B
    modifies u
    ensures AllDigits(u[..], k, k + n + 1)
    ensures Same(u[..], old(u[..]), 0, k) && Same(u[..], old(u[..]), k + n + 1, u.Length)
    ensures Num(u[..], k, k + n + 1)
         == Num(old(u[..]), k, k + n + 1) - qhat * Num(v[..], l, l + n) + (if borrow then BPow(n + 1) else 0)
  {
    var t: u32, i := 0, n;
    ghost var s0, vs := u[..], v[..];
    while i > 0
      invariant 0 <= i <= n
      invariant Subtracted(u[..], s0, k, vs, l, n, qhat, i, t)
    {
      ghost var s, t0 := u[..], t;
      u[k + i], t := SubWord(u[k + i], v[l + i - 1], qhat, t);
      SubtractStep(s, u[..], s0, k, vs, l, n, qhat, i, t0, t);
      i := i - 1;
    }
    ghost var s := u[..];
    u[k], borrow := SubTopWord(u[k], t);
    SubtractTop(s, u[..], s0, k, vs, l, n, qhat, t, borrow);
  }

  // ---------- D6: add back ----------

  /** As `Subtracted`, for adding v with carry `t`. */
  ghost predicate Added(s: seq<u32>, s0: seq<u32>, k: nat, v: seq<u32>, l: nat, n: nat, i: nat, t: u32) {
    |s| == |s0| && k + n < |s| && l + n <= |v| && i <= n && t <= 1 &&
    AllDigits(s, k, k + n + 1) && AllDigits(v, l, l + n) &&
    Same(s, s0, 0, k + i + 1) && Same(s, s0, k + n + 1, |s|) &&
    Num(s, k + i + 1, k + n + 1) + t * BPow(n - i)
    == Num(s0, k + i + 1, k + n + 1) + Num(v, l + i, l + n)
  }

  lemma AddArith(u: int, vd: int, t: int, d: int, t': int, p: int)
    requires d + t' * B == u + vd + t
    ensures d * p + t' * (B * p) == u * p + vd * p + t * p
  {
    assert (d + t' * B) * p == (u + vd + t) * p;
    assert (t' * B) * p == t' * (B * p);
  }

  lemma AddStep(s: seq<u32>, s': seq<u32>, s0: seq<u32>, k: nat, v: seq<u32>, l: nat, n: nat, i: nat, t: u32, t': u32)
    requires Added(s, s0, k, v, l, n, i, t) && i > 0
    requires |s'| == |s| && s' == s[k + i := s'[k + i]] && s'[k + i] < B && t' <= 1
    requires s'[k + i] + t' * B == s[k + i] + v[l + i - 1] + t
    ensures Added(s', s0, k, v, l, n, i - 1, t')
  {
    NumLead(s', k + i, k + n + 1);
    NumLead(s0, k + i, k + n + 1);
    NumLead(v, l + i - 1, l + n);
    NumSame(s, s', k + i + 1, k + n + 1);
    AddArith(s0[k + i], v[l + i - 1], t, s'[k + i], t', BPow(n - i));
  }

  lemma AddTop(s: seq<u32>, s': seq<u32>, s0: seq<u32>, k: nat, v: seq<u32>, l: nat, n: nat, t: u32, carry: bool)
    requires Added(s, s0, k, v, l, n, 0, t)
    requires |s'| == |s| && s' == s[k := s'[k]] && s'[k] < B
    requires s'[k] + (if carry then B else 0) == s[k] + t
    ensures Num(s', k, k + n + 1)
         == Num(s0, k, k + n + 1) + Num(v, l, l + n) - (if carry then BPow(n + 1) else 0)
    ensures Same(s', s0, 0, k) && Same(s', s0, k + n + 1, |s|)
  {
    NumLead(s', k, k + n + 1);
    NumLead(s0, k, k + n + 1);
    NumSame(s, s', k + 1, k + n + 1);
    AddArith(s0[k], 0, t, s'[k], if carry then 1 else 0, BPow(n));
  }

  /** One digit of the sum u + v + t in wrapped words, and the carry. */
  method AddWord(u: u32, vd: u32, t: u32) returns (d: u32, t': u32)
    requires u < B && vd < B && t <= 1
    ensures d < B && t' <= 1 && d + t' * B == u + vd + t
  {
    var w := Wrap32(t + Wrap32(u + vd));
    d, t' := LHalf(w), HHalf(w);
  }

  /** D6: adds v[l..l+n) back to the window u[k..k+n]; the carry out of the window is dropped. */
  method AddBack(u: array<u32>, k: nat, v: array<u32>, l: nat, n: nat) returns (ghost carry: bool)
    requires u != v && k + n < u.Length && l + n <= v.Length
    requires AllDigits(u[..], k, k + n + 1) && AllDigits(v[..], l, l + n)
    modifies u
    ensures AllDigits(u[..], k, k + n + 1)
    ensures Same(u[..], old(u[..]), 0, k) && Same(u[..], old(u[..]), k + n + 1, u.Length)
    ensures Num(u[..], k, k + n + 1)
         == Num(old(u[..]), k, k + n + 1) + Num(v[..], l, l + n) - (if carry then BPow(n + 1) else 0)
  {
    var t: u32, i := 0, n;
    ghost var s0, vs := u[..], v[..];
    while i > 0
      invariant 0 <= i <= n
      invariant Added(u[..], s0, k, vs, l, n, i, t)
    {
      ghost var s, t0 := u[..], t;
      u[k + i], t := AddWord(u[k + i], v[l + i - 1], t);
      AddStep(s, u[..], s0, k, vs, l, n, i, t0, t);
      i := i - 1;
    }
    ghost var s := u[..];
    var c;
    u[k], c := AddWord(u[k], 0, t);
    carry := c == 1;
    AddTop(s, u[..], s0, k, vs, l, n, t, carry);
  }

  // ---------- D3: the trial digit ----------

  lemma TestArith(qhat: int, v1: int, v2: int)
    ensures qhat * (v1 * B + v2) == (qhat * v1) * B + v2 * qhat
  {
  }

  lemma TestWords(product: int, rhat: u32, u2: u32)
    requires 0 <= product <= 0xFFFF * B && rhat < B && u2 < B
    ensures Wrap32(product) == product && Combine(rhat, u2) == rhat * B + u2
  {
  }

  /** The test of D3, on words: v2 * qhat > rhat * B + u2 says that qhat is too large
      for the three leading digits of the window. */
  lemma TrialTest(u0: u32, u1: u32, u2: u32, v1: u32, v2: u32, qhat: u32, rhat: u32)
    requires u2 < B && v2 < B && qhat <= B && rhat < B
    requires qhat * v1 + rhat == u0 * B + u1
    ensures Wrap32(v2 * qhat) > Combine(rhat, u2) <==> qhat * (v1 * B + v2) > (u0 * B + u1) * B + u2
  {
    MulLe(v2, qhat, B);
    MulLe(v2, 0, qhat);
    TestArith(qhat, v1, v2);
    TestWords(v2 * qhat, rhat, u2);
  }

  lemma TrialLarge(u0: u32, u1: u32, u2: u32, v1: u32, v2: u32, qhat: u32)
    requires u2 < B && u0 * B + u1 < (qhat + 1) * v1
    ensures (u0 * B + u1) * B + u2 < (qhat + 1) * (v1 * B + v2)
  {
    assert (qhat + 1) * (v1 * B + v2) == ((qhat + 1) * v1) * B + (qhat + 1) * v2;
    MulLe(qhat + 1, 0, v2);
  }

  lemma TrialWide(u0: u32, u1: u32, u2: u32, v1: u32, v2: u32, qhat: u32, rhat: u32)
    requires v2 < B && qhat <= B && rhat >= B
    requires qhat * v1 + rhat == u0 * B + u1
    ensures qhat * (v1 * B + v2) <= (u0 * B + u1) * B + u2
  {
    MulLe(qhat, v2, B);
    MulLe(B, qhat, B);
    assert qhat * (v1 * B + v2) == (qhat * v1) * B + qhat * v2;
  }

  lemma QuotientDigit(u0: u32, u1: u32, v1: u32, nn: nat, q: u32, r: u32)
    requires u0 < v1 < B && u1 < B && nn == u0 * B + u1 && q == nn / v1 && r == nn % v1
    ensures q < B && r < v1
    ensures q * v1 + r == nn < (q + 1) * v1
  {
    MulLe(B, u0 + 1, v1);
    DivBelow(nn, v1, B);
    assert q * v1 + r == nn;
    assert (q + 1) * v1 == q * v1 + v1;
  }

  method DivideLeading(u0: u32, u1: u32, v1: u32) returns (qhat: u32, rhat: u32)
    requires u0 < v1 < B && u1 < B
    ensures qhat < B && rhat < B && qhat * v1 + rhat == u0 * B + u1 < (qhat + 1) * v1
  {
    var nn := Combine(u0, u1);
    qhat, rhat := nn / v1, nn % v1;
    QuotientDigit(u0, u1, v1, nn, qhat, rhat);
  }

  /** The first estimate of D3, u0u1 / v1 and its remainder, or B when the quotient would
      not fit a digit. */
  method FirstEstimate(u0: u32, u1: u32, v1: u32) returns (qhat: u32, rhat: u32)
    requires u0 <= v1 < B && u1 < B && v1 > 0
    ensures qhat <= B && rhat < B && (qhat == B <==> u0 == v1)
    ensures qhat * v1 + rhat == u0 * B + u1
    ensures u0 < v1 ==> u0 * B + u1 < (qhat + 1) * v1
  {
    if u0 == v1 {
      qhat, rhat := B, u1;
    } else {
      qhat, rhat := DivideLeading(u0, u1, v1);
    }
  }

  lemma PositiveFactor(a: nat, b: nat)
    ensures a * b > 0 ==> a > 0
  {
  }

  /** D3: the largest digit whose product with the two leading digits of v stays within
      the three leading digits of the window. Normalisation (v1 >= B/2) bounds the number
      of corrections by two. */
  method TrialDigit(u0: u32, u1: u32, u2: u32, v1: u32, v2: u32) returns (qhat: u32, ghost corrections: nat)
    requires u0 <= v1 && u1 < B && u2 < B && B / 2 <= v1 < B && v2 < B
    ensures qhat < B && corrections <= 2
    ensures qhat * (v1 * B + v2) <= (u0 * B + u1) * B + u2
    ensures qhat == B - 1 || (u0 * B + u1) * B + u2 < (qhat + 1) * (v1 * B + v2)
  {
    var rhat: u32;
    var tooBig := u0 == v1;
    qhat, rhat := FirstEstimate(u0, u1, v1);
    if !tooBig {
      TrialLarge(u0, u1, u2, v1, v2, qhat);
    }
    corrections := 0;
    while tooBig || Wrap32(v2 * qhat) > Combine(rhat, u2)
      invariant qhat <= B && rhat < B && corrections <= 1 && (corrections == 1 ==> rhat >= v1)
      invariant qhat * v1 + rhat == u0 * B + u1
      invariant tooBig <==> qhat == B
      invariant qhat >= B - 1 || (u0 * B + u1) * B + u2 < (qhat + 1) * (v1 * B + v2)
      decreases qhat
    {
      TrialTest(u0, u1, u2, v1, v2, qhat, rhat);
      tooBig := false;
      assert (qhat - 1) * v1 + v1 == qhat * v1;
      PositiveFactor(qhat, v1 * B + v2);
      qhat := qhat - 1;
      rhat := rhat + v1;
      corrections := corrections + 1;
      if rhat >= B {
        break;
      }
    }
    if rhat >= B {
      TrialWide(u0, u1, u2, v1, v2, qhat, rhat);
    } else {
      TrialTest(u0, u1, u2, v1, v2, qhat, rhat);
    }
  }

  /** Theorem A of section 4.3.1: D3's digit is not below the true quotient digit q. */
  lemma TrialDigitNotBelow(w: nat, V: nat, w3: nat, wLow: nat, vv: nat, vLow: nat, p: nat, qhat: nat, q: nat)
    requires w == w3 * p + wLow && wLow < p && V == vv * p + vLow
    requires q * V <= w < V * B && (qhat == B - 1 || w3 < (qhat + 1) * vv)
    ensures q <= qhat
  {
    assert V * B == B * V;
    MulCancel(q, B, V);
    assert q * V == (q * vv) * p + q * vLow;
    MulLe(q, 0, vLow);
    assert (w3 + 1) * p == w3 * p + p;
    MulCancel(q * vv, w3 + 1, p);
    if qhat < B - 1 {
      MulCancel(q, qhat + 1, vv);
    }
  }

  /** Theorem B: and it is at most one above. */
  lemma TrialDigitNotAbove(w: nat, V: nat, w3: nat, wLow: nat, vv: nat, vLow: nat, p: nat, qhat: nat, q: nat)
    requires p > 0 && w == w3 * p + wLow && V == vv * p + vLow && vLow < p && V > 0
    requires w < (q + 1) * V && 1 <= qhat < B <= vv && qhat * vv <= w3
    ensures qhat - 1 <= q
  {
    var k := qhat - 1;
    assert k * V == (k * vv) * p + k * vLow;
    MulLe(k, vLow, p);
    MulLe(p, k, vv);
    assert (k * vv) * p + vv * p == (qhat * vv) * p;
    MulLe(p, qhat * vv, w3);
    assert p * (qhat * vv) == (qhat * vv) * p && p * w3 == w3 * p && p * k == k * p && p * vv == vv * p;
    MulCancel(k, q + 1, V);
  }

  /** D3's digit is the true quotient digit or one more. */
  lemma TrialDigitIsClose(w: nat, V: nat, w3: nat, wLow: nat, vv: nat, vLow: nat, p: nat, qhat: nat)
    requires p > 0 && w == w3 * p + wLow && wLow < p && V == vv * p + vLow && vLow < p
    requires vv >= B && V > 0 && w < V * B
    requires qhat < B && qhat * vv <= w3 && (qhat == B - 1 || w3 < (qhat + 1) * vv)
    ensures qhat - 1 <= w / V <= qhat
  {
    DivisionEquation(w, V);
    var q := w / V;
    assert (q + 1) * V == q * V + V;
    TrialDigitNotBelow(w, V, w3, wLow, vv, vLow, p, qhat, q);
    if qhat > 0 {
      TrialDigitNotAbove(w, V, w3, wLow, vv, vLow, p, qhat, q);
    }
  }

  // ---------- Program D ----------

  /** D3 applied to a window and a divisor of n digits gives the quotient digit or one more. */
  lemma TrialDigitOfWindow(u: seq<u32>, k: nat, v: seq<u32>, l: nat, n: nat, qhat: nat)
    requires AllDigits(u, k, k + n + 1) && AllDigits(v, l, l + n) && n >= 2 && v[l] > 0
    requires Num(u, k, k + n + 1) < Num(v, l, l + n) * B && qhat < B
    requires qhat * (v[l] * B + v[l + 1]) <= (u[k] * B + u[k + 1]) * B + u[k + 2]
    requires qhat == B - 1 || (u[k] * B + u[k + 1]) * B + u[k + 2] < (qhat + 1) * (v[l] * B + v[l + 1])
    ensures Num(v, l, l + n) > 0 && qhat - 1 <= Num(u, k, k + n + 1) / Num(v, l, l + n) <= qhat
  {
    var w3, wLow := NumTop3(u, k, k + n + 1);
    var vv, vLow := NumTop2(v, l, l + n);
    var p := BPow(n - 2);
    MulLe(p, 1, vv);
    assert p * vv == vv * p;
    TrialDigitIsClose(Num(u, k, k + n + 1), Num(v, l, l + n), w3, wLow, vv, vLow, p, qhat);
  }

  lemma LeadingDigitArith(a: nat, aLow: nat, b: nat, bLow: nat, p: nat)
    requires bLow < p && a * p + aLow < b * p + bLow
    ensures a <= b
  {
    if a > b {
      MulLe(p, b + 1, a);
    }
  }

  /** A window whose leading n digits are below v has a leading digit of at most v's. */
  lemma LeadingDigit(u: seq<u32>, k: nat, v: seq<u32>, l: nat, n: nat)
    requires AllDigits(u, k, k + n + 1) && AllDigits(v, l, l + n) && n >= 1
    requires Num(u, k, k + n) < Num(v, l, l + n)
    ensures u[k] <= v[l] && Num(u, k, k + n + 1) < Num(v, l, l + n) * B
  {
    var vLow := NumTop1(v, l, l + n);
    var uLow := NumTop1(u, k, k + n);
    LeadingDigitArith(u[k], uLow, v[l], vLow, BPow(n - 1));
  }

  /** `q` and `r` are the quotient and the remainder of x by d. */
  ghost predicate IsDivMod(x: nat, d: nat, q: nat, r: nat) {
    x == q * d + r && r < d
  }

  lemma DivModOf(x: nat, d: nat)
    requires d > 0
    ensures IsDivMod(x, d, x / d, x % d)
  {
  }

  lemma DivModIs(x: nat, d: nat, q: nat, r: nat)
    requires IsDivMod(x, d, q, r)
    ensures x / d == q && x % d == r
  {
    assert q * d == d * q;
    DivModUnique(x, d, q, r);
  }

  /** D5: the multiply-and-subtract ends with a borrow exactly when the trial digit was
      one too large, and then adding v back leaves the true remainder. */
  lemma BorrowMeansTooLarge(w: nat, V: nat, p: nat, qhat: nat, borrow: bool, rest: nat)
    requires 0 < V < p && rest < p && qhat - 1 <= w / V <= qhat
    requires rest == w - qhat * V + (if borrow then p else 0)
    ensures borrow <==> qhat == w / V + 1
    ensures !borrow ==> rest == w % V
    ensures borrow ==> rest + V - p == w % V
  {
    var q := w / V;
    assert w == q * V + w % V;
    if qhat == q {
    } else {
      assert qhat == q + 1;
      assert qhat * V == q * V + V;
    }
  }

  /** What steps D5 and D6 leave. */
  lemma WindowDivided(w: nat, V: nat, p: nat, qhat: nat, borrow: bool, rest: nat)
    requires 0 < V < p && rest < p && qhat - 1 <= w / V <= qhat
    requires rest == w - qhat * V + (if borrow then p else 0)
    ensures !borrow ==> IsDivMod(w, V, qhat, rest)
    ensures borrow ==> qhat > 0 && 0 <= rest + V - p && IsDivMod(w, V, qhat - 1, rest + V - p)
  {
    BorrowMeansTooLarge(w, V, p, qhat, borrow, rest);
    DivModOf(w, V);
  }

  /** Step D6, which brings the window to the remainder r. */
  method Repair(u: array<u32>, k: nat, v: array<u32>, l: nat, n: nat, ghost r: nat)
    requires u != v && n >= 2 && k + n < u.Length && l + n <= v.Length
    requires AllDigits(u[..], k, k + n + 1) && AllDigits(v[..], l, l + n)
    requires r == Num(u[..], k, k + n + 1) + Num(v[..], l, l + n) - BPow(n + 1)
    modifies u
    ensures AllDigits(u[..], k, k + n + 1) && Num(u[..], k, k + n + 1) == r
    ensures Same(u[..], old(u[..]), 0, k) && Same(u[..], old(u[..]), k + n + 1, u.Length)
  {
    ghost var carry := AddBack(u, k, v, l, n);
    NumBound(u[..], k, k + n + 1);
  }

  /** Step D3 for a window of u: the quotient digit, or one more. */
  method Estimate(u: array<u32>, k: nat, v: array<u32>, l: nat, n: nat) returns (qhat: u32)
    requires n >= 2 && k + n < u.Length && l + n <= v.Length
    requires AllDigits(u[..], k, k + n + 1) && AllDigits(v[..], l, l + n) && v[l] >= B / 2
    requires Num(u[..], k, k + n) < Num(v[..], l, l + n)
    ensures qhat < B && Num(v[..], l, l + n) > 0
    ensures qhat - 1 <= Num(u[..], k, k + n + 1) / Num(v[..], l, l + n) <= qhat
  {
    LeadingDigit(u[..], k, v[..], l, n);
    ghost var corrections;
    qhat, corrections := TrialDigit(u[k], u[k + 1], u[k + 2], v[l], v[l + 1]);
    TrialDigitOfWindow(u[..], k, v[..], l, n, qhat);
  }

  /** Steps D3 to D6 for one window of n + 1 digits: the quotient digit is returned, the
      remainder replaces the window. */
  method DivideWindow(u: array<u32>, k: nat, v: array<u32>, l: nat, n: nat) returns (qhat: u32)
    requires u != v && n >= 2 && k + n < u.Length && l + n <= v.Length
    requires AllDigits(u[..], k, k + n + 1) && AllDigits(v[..], l, l + n) && v[l] >= B / 2
    requires Num(u[..], k, k + n) < Num(v[..], l, l + n)
    modifies u
    ensures AllDigits(u[..], k, k + n + 1)
    ensures Same(u[..], old(u[..]), 0, k) && Same(u[..], old(u[..]), k + n + 1, u.Length)
    ensures qhat < B
    ensures IsDivMod(Num(old(u[..]), k, k + n + 1), Num(v[..], l, l + n), qhat, Num(u[..], k, k + n + 1))
  {
    ghost var s, vs := u[..], v[..];
    qhat := Estimate(u, k, v, l, n);
    NumBound(vs, l, l + n);
    BPowLe(n, n + 1);
    var borrow := MulSub(u, k, v, l, n, qhat);
    NumBound(u[..], k, k + n + 1);
    WindowDivided(Num(s, k, k + n + 1), Num(vs, l, l + n), BPow(n + 1), qhat, borrow, Num(u[..], k, k + n + 1));
    if borrow {
      qhat := qhat - 1;
      Repair(u, k, v, l, n, Num(u[..], k, k + n + 1) + Num(vs, l, l + n) - BPow(n + 1));
    }
  }

  /** V * Q shifted left by k digits. */
  ghost function Scaled(V: nat, Q: nat, k: nat): nat {
    if k == 0 then V * Q else B * Scaled(V, Q, k - 1)
  }

  /** Appending the digit `qd` to the quotient Q. */
  lemma {:induction false} ScaledDigit(V: nat, Q: nat, qd: nat, k: nat)
    ensures Scaled(V, Q * B + qd, k) == Scaled(V, Q, k + 1) + (qd * V) * BPow(k)
  {
    if k == 0 {
      assert V * (Q * B + qd) == B * (V * Q) + qd * V;
      assert Scaled(V, Q, 1) == B * Scaled(V, Q, 0);
    } else {
      ScaledDigit(V, Q, qd, k - 1);
      assert B * ((qd * V) * BPow(k - 1)) == (qd * V) * (B * BPow(k - 1));
    }
  }

  lemma {:induction false} ScaledZero(V: nat, k: nat)
    ensures Scaled(V, 0, k) == 0
  {
    if k > 0 {
      ScaledZero(V, k - 1);
    }
  }

  /** The state of Program D before step j, u starting at k and ending at e = k + m + n + 1: the
      digits found so far, `Q`, have been accounted for, and the window at k + j is below v. */
  ghost predicate Partial(s: seq<u32>, k: nat, e: nat, j: nat, V: nat, n: nat, Q: nat, total: nat) {
    AllDigits(s, k, e) && j + n < e - k + 1 &&
    (forall x :: k <= x < k + j ==> s[x] == 0) &&
    Num(s, k + j, k + j + n) < V &&
    Num(s, k, e) + Scaled(V, Q, e - k - n - j) == total
  }

  lemma MulPlus(a: int, b: int, p: int)
    ensures (a + b) * p == a * p + b * p
  {
  }

  /** What one window contributes to the whole dividend: digit j of the quotient. */
  lemma {:induction false} WindowStep(s: seq<u32>, s': seq<u32>, k: nat, x: nat, y: nat, e: nat, w: nat, prod: nat)
    requires k <= x <= y <= e <= |s| == |s'| && w == e - y
    requires Same(s, s', k, x) && Same(s, s', y, e)
    requires Num(s, x, y) == prod + Num(s', x, y)
    ensures Num(s, k, e) == Num(s', k, e) + prod * BPow(w)
  {
    assert e - y == w;
    NumSplit(s, k, y, e);
    NumSplit(s', k, y, e);
    NumSplit(s, k, x, y);
    NumSplit(s', k, x, y);
    NumSame(s, s', k, x);
    NumSame(s, s', y, e);
    assert Num(s, k, y) == Num(s', k, y) + prod;
    MulPlus(Num(s', k, y), prod, BPow(w));
  }

  /** The sum in Partial stays the same. */
  lemma PartialSum(s: seq<u32>, s': seq<u32>, k: nat, e: nat, x: nat, y: nat, w: nat, V: nat, Q: nat, total: nat, qd: u32,
                   Q': nat)
    requires k <= x <= y <= e <= |s| == |s'| && w == e - y && Q' == Q * B + qd
    requires Same(s, s', k, x) && Same(s, s', y, e)
    requires Num(s, x, y) == qd * V + Num(s', x, y)
    requires Num(s, k, e) + Scaled(V, Q, w + 1) == total
    ensures Num(s', k, e) + Scaled(V, Q', w) == total
  {
    var prod: nat := qd * V;
    WindowStep(s, s', k, x, y, e, w, prod);
    ScaledDigit(V, Q, qd, w);
  }

  lemma PartialStep(s: seq<u32>, s': seq<u32>, k: nat, e: nat, j: nat, V: nat, n: nat, Q: nat, total: nat, qd: u32, Q': nat)
    requires Partial(s, k, e, j, V, n, Q, total) && k + j + n < e && V < BPow(n) && Q' == Q * B + qd
    requires Same(s, s', 0, k + j) && Same(s, s', k + j + n + 1, |s|)
    requires AllDigits(s', k + j, k + j + n + 1)
    requires IsDivMod(Num(s, k + j, k + j + n + 1), V, qd, Num(s', k + j, k + j + n + 1))
    ensures Partial(s', k, e, j + 1, V, n, Q', total)
  {
    NumSmall(s', k + j, k + j + n + 1, n);
    var w := e - k - j - n - 1;
    assert e - k - n - j == w + 1 && e - k - n - (j + 1) == w;
    PartialSum(s, s', k, e, k + j, k + j + n + 1, w, V, Q, total, qd, Q');
  }

  lemma PartialDone(s: seq<u32>, k: nat, e: nat, j: nat, V: nat, n: nat, Q: nat, total: nat)
    requires Partial(s, k, e, j, V, n, Q, total) && k + j + n == e
    ensures IsDivMod(total, V, Q, Num(s, k, e))
  {
    NumZeros(s, k, k + j, e);
    assert V * Q == Q * V;
  }

  /** The first j quotient digits are stored in q from o; the rest of q is untouched. */
  ghost predicate Stored(q: seq<u32>, q0: seq<u32>, o: nat, j: nat, Q: nat) {
    |q| == |q0| && o + j <= |q| && AllDigits(q, o, o + j) && Num(q, o, o + j) == Q &&
    Same(q, q0, 0, o) && Same(q, q0, o + j, |q|)
  }

  lemma StoreDigit(q: seq<u32>, q': seq<u32>, q0: seq<u32>, o: nat, j: nat, Q: nat, qd: u32)
    requires Stored(q, q0, o, j, Q) && o + j < |q| && qd < B && q' == q[o + j := qd]
    ensures Stored(q', q0, o, j + 1, Q * B + qd)
  {
    NumSame(q, q', o, o + j);
  }

  /** Steps D3 to D7: one digit of the quotient. */
  method DivideDigit(u: array<u32>, k: nat, v: array<u32>, l: nat, q: array<u32>, o: nat, j: nat, n: nat, ghost e: nat,
                     ghost V: nat, ghost Q: nat, ghost total: nat, ghost q0: seq<u32>) returns (ghost Q': nat)
    requires u != v && u != q && v != q
    requires n >= 2 && k + j + n < e <= u.Length && l + n <= v.Length && o + j < q.Length
    requires AllDigits(v[..], l, l + n) && v[l] >= B / 2 && V == Num(v[..], l, l + n)
    requires Partial(u[..], k, e, j, V, n, Q, total) && Stored(q[..], q0, o, j, Q)
    modifies u, q
    ensures Partial(u[..], k, e, j + 1, V, n, Q', total) && Stored(q[..], q0, o, j + 1, Q')
    ensures Same(u[..], old(u[..]), 0, k) && Same(u[..], old(u[..]), e, u.Length)
  {
    ghost var s, qs := u[..], q[..];
    var qd := DivideWindow(u, k + j, v, l, n);
    Q' := Q * B + qd;
    NumBound(v[..], l, l + n);
    PartialStep(s, u[..], k, e, j, V, n, Q, total, qd, Q');
    q[o + j] := qd;
    StoreDigit(qs, q[..], q0, o, j, Q, qd);
  }

  /** Program D: divides the m+n+1 digits of u from k by the n digits of v from l, in place.
      The leading n digits of u are below v, and v is normalised. */
  method ProgramD(u: array<u32>, k: nat, v: array<u32>, l: nat, q: array<u32>, o: nat, m: nat, n: nat,
                  ghost total: nat)
    requires u != v && u != q && v != q
    requires n >= 2 && k + m + n < u.Length && l + n <= v.Length && o + m < q.Length
    requires AllDigits(u[..], k, k + m + n + 1) && AllDigits(v[..], l, l + n) && v[l] >= B / 2
    requires Num(u[..], k, k + n) < Num(v[..], l, l + n) && Num(u[..], k, k + m + n + 1) == total
    modifies u, q
    ensures AllDigits(u[..], k, k + m + n + 1) && AllDigits(q[..], o, o + m + 1)
    ensures Same(u[..], old(u[..]), 0, k) && Same(u[..], old(u[..]), k + m + n + 1, u.Length)
    ensures Same(q[..], old(q[..]), 0, o) && Same(q[..], old(q[..]), o + m + 1, q.Length)
    ensures IsDivMod(total, Num(v[..], l, l + n), Num(q[..], o, o + m + 1), Num(u[..], k, k + m + n + 1))
  {
    ghost var e, V, s0 := k + m + n + 1, Num(v[..], l, l + n), u[..];
    var j := 0;
    ghost var Q: nat := 0;
    ScaledZero(V, m + 1);
    while j <= m
      invariant 0 <= j <= m + 1
      invariant Partial(u[..], k, e, j, V, n, Q, total)
      invariant Stored(q[..], old(q[..]), o, j, Q)
      invariant Same(u[..], s0, 0, k) && Same(u[..], s0, e, u.Length)
    {
      Q := DivideDigit(u, k, v, l, q, o, j, n, e, V, Q, total, old(q[..]));
      j := j + 1;
    }
    assert j == m + 1;
    PartialDone(u[..], k, e, j, V, n, Q, total);
  }

  // ---------- D1 and D8: normalising and denormalising ----------

  /** Shifting a digit left by multiplying with p, where p * r == B: the part `low` that stays
      in the digit and the part `high` that moves up into the next one. */
  lemma ShiftDigit(d: u32, p: nat, r: nat) returns (high: nat, low: nat)
    requires d < B && p > 0 && p * r == B
    ensures high == d / r && low == (d * p) % B && low == (d % r) * p
    ensures d * p == high * B + low && high < p && low + p <= B
  {
    var l := d % r;
    high, low := d / r, l * p;
    assert d == r * high + l;
    assert (r * high + l) * p == (p * r) * high + l * p;
    MulLe(p, l + 1, r);
    assert p * (l + 1) == l * p + p;
    DivModUnique(d * p, B, high, low);
    DivBelow(d, r, p);
  }

  lemma HalfSplit(sh: nat)
    requires 0 < sh < 16
    ensures Pow2(sh) * Pow2(16 - sh) == B && Pow2(sh) <= 0x8000 && Pow2(16 - sh) <= 0x8000
  {
    Pow2Add(sh, 16 - sh);
    Pow2Monotone(sh, 15);
    Pow2Monotone(16 - sh, 15);
    Pow2Values();
  }

  lemma ShiftFits(d: u32, p: nat)
    requires d < B && p <= 0x8000
    ensures 0 <= d * p < WORD32
  {
    MulLe(d, p, 0x8000);
    MulLe(d, 0, p);
  }

  /** `LHALF(d << sh)`. */
  method KeptBits(d: u32, sh: nat) returns (x: u32)
    requires d < B && 0 < sh < 16
    ensures x == (d * Pow2(sh)) % B
  {
    HalfSplit(sh);
    ShiftFits(d, Pow2(sh));
    var w := Wrap32(d * Pow2(sh));
    x := LHalf(w);
  }

  lemma LowMultiple(low: nat, l: nat, p: nat)
    requires p > 0 && low == l * p
    ensures low % p == 0
  {
    assert low == p * l;
    MulModZero(p, l);
  }

  /** The digit that __shl stores for digit `d`: d shifted left, completed by the bits that
      come up from the digit `e` to its right. */
  method ShiftedDigit(d: u32, e: u32, sh: nat) returns (x: u32, ghost low: nat, ghost up: nat, ghost lowE: nat)
    requires d < B && e < B && 0 < sh < 16
    ensures x == low + up < B && low == (d * Pow2(sh)) % B
    ensures e * Pow2(sh) == up * B + lowE && lowE == (e * Pow2(sh)) % B
  {
    HalfSplit(sh);
    ghost var p, r := Pow2(sh), Pow2(16 - sh);
    ghost var high;
    high, low := ShiftDigit(d, p, r);
    up, lowE := ShiftDigit(e, p, r);
    LowMultiple(low, d % r, p);
    OrDisjoint(low, up, sh);
    var kept := KeptBits(d, sh);
    x := Or(kept, e / Pow2(16 - sh));
  }

  /** __shl after the digits from k up to k+i have been stored: they hold the shifted
      number, short of the bits that digit k+i still has to give. */
  ghost predicate ShiftedTo(s: seq<u32>, s0: seq<u32>, k: nat, i: nat, len: nat, sh: nat) {
    |s| == |s0| && i <= len && k + len < |s| &&
    AllDigits(s, k, k + len + 1) && Same(s, s0, 0, k) && Same(s, s0, k + i, |s|) &&
    Num(s, k, k + i) * B + (s0[k + i] * Pow2(sh)) % B == Num(s0, k, k + i + 1) * Pow2(sh)
  }

  lemma ShiftArith(a: nat, d: nat, p: nat)
    ensures (a * B + d) * p == (a * p) * B + d * p
  {
  }

  lemma ShiftStep(s: seq<u32>, s': seq<u32>, s0: seq<u32>, k: nat, i: nat, len: nat, sh: nat,
                  low: nat, up: nat, lowE: nat)
    requires ShiftedTo(s, s0, k, i, len, sh) && i < len
    requires |s'| == |s| && s' == s[k + i := s'[k + i]] && s'[k + i] == low + up < B
    requires low == (s0[k + i] * Pow2(sh)) % B && lowE == (s0[k + i + 1] * Pow2(sh)) % B
    requires s0[k + i + 1] * Pow2(sh) == up * B + lowE
    ensures ShiftedTo(s', s0, k, i + 1, len, sh)
  {
    NumSame(s, s', k, k + i);
    ShiftArith(Num(s0, k, k + i + 1), s0[k + i + 1], Pow2(sh));
  }

  /** __shl: shifts the digits k to k+len left by `sh` bits, in place. */
  method Shl(a: array<u32>, k: nat, len: nat, sh: nat)
    requires k + len < a.Length && AllDigits(a[..], k, k + len + 1) && 0 < sh < 16
    requires a[k] * Pow2(sh) < B  // nothing falls out at the left
    modifies a
    ensures AllDigits(a[..], k, k + len + 1) && a[k] >= old(a[k]) * Pow2(sh)
    ensures Same(a[..], old(a[..]), 0, k) && Same(a[..], old(a[..]), k + len + 1, a.Length)
    ensures Num(a[..], k, k + len + 1) == Num(old(a[..]), k, k + len + 1) * Pow2(sh)
  {
    ghost var s0 := a[..];
    var i := 0;
    assert Num(s0, k, k + 1) == s0[k];
    while i < len
      invariant 0 <= i <= len
      invariant ShiftedTo(a[..], s0, k, i, len, sh)
      invariant i > 0 ==> a[k] >= s0[k] * Pow2(sh)
    {
      ghost var s := a[..];
      ghost var low, up, lowE;
      a[k + i], low, up, lowE := ShiftedDigit(a[k + i], a[k + i + 1], sh);
      ShiftStep(s, a[..], s0, k, i, len, sh, low, up, lowE);
      i := i + 1;
    }
    ghost var s := a[..];
    a[k + i] := KeptBits(a[k + i], sh);
    NumSame(s, a[..], k, k + len);
  }

  /** The denormalising loop after it has stored the digits from x on: they are the old
      digits divided by p = 2^d, with the low bits of their left neighbours put on top;
      p * r == B. */
  ghost predicate Unshifted(s: seq<u32>, s0: seq<u32>, x: nat, e: nat, p: nat, r: nat) {
    |s| == |s0| && 0 < x <= e <= |s| && p > 0 &&
    Same(s, s0, 0, x) && Same(s, s0, e, |s|) &&
    forall y :: x <= y < e ==> s[y] == s0[y] / p + (s0[y - 1] % p) * r
  }

  lemma {:induction false} OrSymmetric(a: nat, b: nat)
    ensures Or(a, b) == Or(b, a)
    decreases a + b
  {
    if a != 0 || b != 0 {
      OrSymmetric(a / 2, b / 2);
    }
  }

  /** One digit of the denormalising loop. */
  method UnshiftedDigit(u: u32, left: u32, d: nat) returns (x: u32)
    requires u < B && left < B && 0 < d < 16
    ensures x == u / Pow2(d) + (left % Pow2(d)) * Pow2(16 - d) < B
  {
    HalfSplit(d);
    ghost var p, r := Pow2(16 - d), Pow2(d);
    assert p * r == r * p;
    ghost var high, low := ShiftDigit(left, p, r);
    LowMultiple(low, left % r, p);
    DivBelow(u, r, p);
    OrDisjoint(low, u / r, 16 - d);
    OrSymmetric(low, u / r);
    var kept := KeptBits(left, 16 - d);
    x := Or(u / Pow2(d), kept);
  }

  lemma UnshiftArith(n: nat, n0: nat, d: nat, left: nat, p: nat, r: nat)
    requires p > 0 && p * r == B && n * p + left == n0
    ensures (n * B + (d / p + left * r)) * p + d % p == n0 * B + d
  {
    assert d == p * (d / p) + d % p;
    assert (left * r) * p == left * (p * r);
    assert (n * B + (d / p + left * r)) * p == (n * p) * B + (d / p) * p + (left * r) * p;
  }

  /** The number left by the denormalising loop is the old one divided by 2^d. */
  lemma {:induction false} UnshiftedNum(s: seq<u32>, s0: seq<u32>, x: nat, y: nat, e: nat, p: nat, r: nat)
    requires Unshifted(s, s0, x, e, p, r) && x <= y <= e && s0[x - 1] == 0 && p * r == B
    ensures Num(s, x, y) * p + s0[y - 1] % p == Num(s0, x, y)
    decreases y
  {
    if x < y {
      UnshiftedNum(s, s0, x, y - 1, e, p, r);
      UnshiftArith(Num(s, x, y - 1), Num(s0, x, y - 1), s0[y - 1], s0[y - 2] % p, p, r);
    }
  }

  lemma UnshiftedStep(s: seq<u32>, s': seq<u32>, s0: seq<u32>, x: nat, e: nat, p: nat, r: nat)
    requires Unshifted(s, s0, x, e, p, r) && x > 1 && |s'| == |s| && s' == s[x - 1 := s'[x - 1]]
    requires s'[x - 1] == s[x - 1] / p + (s[x - 2] % p) * r
    ensures Unshifted(s', s0, x - 1, e, p, r)
  {
  }

  lemma QuotientOf(x: nat, p: nat, n: nat, r: nat)
    requires x == n * p + r && r < p
    ensures x / p == n
  {
    assert n * p == p * n;
    DivModUnique(x, p, n, r);
  }

  lemma UnshiftedDone(s: seq<u32>, s0: seq<u32>, k: nat, e: nat, p: nat, r: nat)
    requires Unshifted(s, s0, k, e, p, r) && s0[k - 1] == 0 && p * r == B
    ensures Num(s, k, e) == Num(s0, k, e) / p
  {
    UnshiftedNum(s, s0, k, e, e, p, r);
    QuotientOf(Num(s0, k, e), p, Num(s, k, e), s0[e - 1] % p);
  }

  /** The denormalising loop: shifts the digits [k, e) right by d, in place. The digit before
      them is zero. */
  method ShiftRight(u: array<u32>, k: nat, e: nat, d: nat)
    requires 0 < k <= e <= u.Length && AllDigits(u[..], k - 1, e) && 0 < d < 16
    requires u[k - 1] == 0
    modifies u
    ensures AllDigits(u[..], k - 1, e) && Same(u[..], old(u[..]), 0, k) && Same(u[..], old(u[..]), e, u.Length)
    ensures Num(u[..], k, e) == Num(old(u[..]), k, e) / Pow2(d)
  {
    HalfSplit(d);
    ghost var s0, p, r := u[..], Pow2(d), Pow2(16 - d);
    var i := e;
    while i > k
      invariant k <= i <= e
      invariant Unshifted(u[..], s0, i, e, p, r) && AllDigits(u[..], k - 1, e)
    {
      ghost var s := u[..];
      u[i - 1] := UnshiftedDigit(u[i - 1], u[i - 2], d);
      UnshiftedStep(s, u[..], s0, i, e, p, r);
      i := i - 1;
    }
    UnshiftedDone(u[..], s0, k, e, p, r);
  }

  // ---------- __qdivrem ----------

  lemma NumFour(s: seq<u32>, k: nat)
    requires k + 4 <= |s|
    ensures Num(s, k, k + 4) == (s[k] * B + s[k + 1]) * WORD32 + (s[k + 2] * B + s[k + 3])
  {
    assert Num(s, k, k + 1) == s[k];
    assert Num(s, k, k + 2) == s[k] * B + s[k + 1];
    assert Num(s, k, k + 3) == Num(s, k, k + 2) * B + s[k + 2];
  }

  /** Breaks a quad into its four digits. */
  method SplitQuad(x: u64, a: array<u32>)
    requires a.Length == 5
    modifies a
    ensures AllDigits(a[..], 1, 5) && Num(a[..], 1, 5) == x && a[0] == old(a[0])
  {
    var high: u32, low: u32 := x / WORD32, x % WORD32;
    a[1] := HHalf(high);
    a[2] := LHalf(high);
    a[3] := HHalf(low);
    a[4] := LHalf(low);
    NumFour(a[..], 1);
  }

  /** Puts four digits together to a quad. */
  method JoinQuad(a: array<u32>) returns (x: u64)
    requires a.Length == 5 && AllDigits(a[..], 1, 5)
    ensures x == Num(a[..], 1, 5)
  {
    var high, low := Combine(a[1], a[2]), Combine(a[3], a[4]);
    NumFour(a[..], 1);
    x := high * WORD32 + low;
  }

  /** Bringing down the next digit in the schoolbook division by one digit. */
  lemma BringDown(x: nat, t: nat, q: nat, r: nat, d: nat, q': nat, r': nat)
    requires IsDivMod(x, t, q, r) && IsDivMod(r * B + d, t, q', r') && d < B
    ensures IsDivMod(x * B + d, t, q * B + q', r') && q' < B
  {
    assert (q * t + r) * B + d == (q * B) * t + q' * t + r';
    assert (q * B + q') * t == (q * B) * t + q' * t;
    MulLe(B, r + 1, t);
    assert B * t == t * B;
    MulCancel(q', B, t);
  }

  /** A quotient reaches the dividend only for the divisor 1. */
  lemma QuotientSize(a: nat, b: nat)
    requires b > 0
    ensures 0 <= a / b <= a && (a / b == a ==> a == 0 || b == 1)
  {
    var q := a / b;
    assert a == b * q + a % b;
    if b > 1 && q > 0 {
      MulLe(q, 2, b);
      assert q * b == b * q;
    }
  }

  /** The machine's 32-bit division. */
  method DivWord(x: u32, t: u32) returns (q: u32, r: u32)
    requires t > 0
    ensures IsDivMod(x, t, q, r)
  {
    DivModOf(x, t);
    QuotientSize(x, t);
    q, r := x / t, x % t;
  }

  /** `rbj = COMBINE(r, d)`, its quotient and its remainder: the next digit of the quotient
      of x, the number read so far. */
  method NextShortDigit(r: u32, d: u32, t: u32, ghost x: nat, ghost q: nat) returns (q': u32, r': u32)
    requires r < t < B && d < B && IsDivMod(x, t, q, r)
    ensures q' < B && r' < t && IsDivMod(x * B + d, t, q * B + q', r')
  {
    q', r' := DivWord(Combine(r, d), t);
    BringDown(x, t, q, r, d, q', r');
  }

  method FirstShortDigit(u1: u32, t: u32) returns (q1: u32, r1: u32)
    requires u1 < B && 0 < t < B
    ensures q1 < B && r1 < t && IsDivMod(u1, t, q1, r1)
  {
    q1, r1 := DivWord(u1, t);
    DivModIs(u1, t, q1, r1);
    QuotientSize(u1, t);
  }

  /** Division by a single digit (exercise 16 of section 4.3.1), unrolled. */
  method ShortDivision(u: array<u32>, t: u32) returns (quot: u64, rem: u64)
    requires u.Length == 5 && AllDigits(u[..], 1, 5) && 0 < t < B
    ensures IsDivMod(Num(u[..], 1, 5), t, quot, rem)
  {
    var q1, r1 := FirstShortDigit(u[1], t);
    var q2, r2 := NextShortDigit(r1, u[2], t, u[1], q1);
    var q3, r3 := NextShortDigit(r2, u[3], t, u[1] * B + u[2], q1 * B + q2);
    var q4, r4 := NextShortDigit(r3, u[4], t, (u[1] * B + u[2]) * B + u[3], (q1 * B + q2) * B + q3);
    NumFour(u[..], 1);
    var high, low := Combine(q1, q2), Combine(q3, q4);
    assert high == q1 * B + q2 && low == q3 * B + q4;
    quot := high * WORD32 + low;
    rem := r4;
  }

  lemma ScaledBelow(a: nat, b: nat, p: nat)
    requires a < b && p > 0
    ensures a * p < b * p
  {
    MulLe(p, a + 1, b);
  }

  lemma WindowArith(w: nat, low: nat, U: nat, V: nat, p: nat, P: nat, N: nat)
    requires w * P + low == U * p && P > 0 && p > 0 && U < N * P && V >= N
    ensures w < V * p
  {
    MulLe(P, N, V);
    assert P * V == V * P && P * N == N * P;
    ScaledBelow(U, V * P, p);
    assert (V * P) * p == (V * p) * P;
    MulCancel(w, V * p, P);
  }

  /** The window condition of Program D: a number below B^n, with a leading zero, is below v
      also after both have been multiplied by the normalising factor p. */
  lemma WindowCondition(s: seq<u32>, k: nat, m: nat, n: nat, U: nat, V: nat, p: nat)
    requires AllDigits(s, k, k + m + n + 1) && Num(s, k, k + m + n + 1) == U * p
    requires n >= 1 && p > 0 && U < BPow(m + n) && V >= BPow(n - 1)
    ensures Num(s, k, k + n) < V * p
  {
    NumSplit(s, k, k + n, k + m + n + 1);
    BPowAdd(n - 1, m + 1);
    WindowArith(Num(s, k, k + n), Num(s, k + n, k + m + n + 1), U, V, p, BPow(m + 1), BPow(n - 1));
  }

  /** The quotient and remainder of scaled numbers. */
  lemma Unscale(U: nat, V: nat, p: nat)
    requires V > 0 && p > 0
    ensures V * p > 0 && (U * p) / (V * p) == U / V && (U * p) % (V * p) == (U % V) * p
  {
    var q, r := U / V, U % V;
    assert U == V * q + r;
    assert U * p == (V * p) * q + r * p;
    ScaledBelow(r, V, p);
    ScaledBelow(0, V, p);
    DivModUnique(U * p, V * p, q, r * p);
  }

  /** A number with a nonzero leading digit has at least that digit's weight. */
  lemma LeadingPower(s: seq<u32>, i: nat, j: nat)
    requires i < j <= |s| && s[i] > 0
    ensures Num(s, i, j) >= BPow(j - i - 1)
  {
    NumLead(s, i, j);
    MulLe(BPow(j - i - 1), 1, s[i]);
  }

  /** As long as u has a leading zero in front, it still has digits beyond n. */
  lemma NotAllZero(u: seq<u32>, uo: nat, m: nat, n: nat, v: seq<u32>)
    requires |u| == |v| == 5 && uo + m + n == 4 && n >= 2 && v[5 - n] > 0
    requires AllDigits(u, 1, 5) && Num(u, 1, 5) >= Num(v, 5 - n, 5)
    requires forall x :: 1 <= x <= uo + 1 ==> u[x] == 0
    ensures m > 0
  {
    NumZeros(u, 1, uo + 2, 5);
    NumBound(u, uo + 2, 5);
    LeadingPower(v, 5 - n, 5);
  }

  /** Moves the pointer u past leading zeros; m counts the digits of u beyond n. It never
      becomes negative because u is at least v. */
  method SkipLeadingZeros(u: array<u32>, n: nat, ghost v: seq<u32>) returns (m: nat, uo: nat)
    requires u.Length == 5 && |v| == 5 && 2 <= n <= 4 && v[5 - n] > 0
    requires AllDigits(u[..], 1, 5) && Num(u[..], 1, 5) >= Num(v, 5 - n, 5)
    ensures uo + m + n == 4 && u[uo + 1] != 0
    ensures forall x :: 1 <= x <= uo ==> u[x] == 0
  {
    m, uo := 4 - n, 0;
    while u[uo + 1] == 0
      invariant uo + m + n == 4
      invariant forall x :: 1 <= x <= uo ==> u[x] == 0
      decreases m
    {
      NotAllZero(u[..], uo, m, n, v);
      m := m - 1;
      uo := uo + 1;
    }
  }

  lemma SmallShift(d: nat, t: nat)
    requires Pow2(d) <= t < B
    ensures d < 16
  {
    if d >= 16 {
      Pow2Monotone(16, d);
      Pow2Values();
    }
  }

  /** How far v's leading digit has to be shifted. */
  method NormalisingShift(v1: u32) returns (d: nat)
    requires 0 < v1 < B
    ensures d < 16 && B / 2 <= v1 * Pow2(d) < B
  {
    d := 0;
    var t := v1;
    while t < B / 2
      invariant t == v1 * Pow2(d) < B && Pow2(d) <= t
      decreases B - t
    {
      ghost var p := Pow2(d);
      assert v1 * (2 * p) == 2 * (v1 * p);
      t := Wrap32(t * 2);
      d := d + 1;
    }
    SmallShift(d, t);
  }

  /** D1: shifts u and v left until v's leading digit is at least B/2. */
  method Normalise(u: array<u32>, uo: nat, m: nat, v: array<u32>, n: nat) returns (d: nat)
    requires u != v && u.Length == v.Length == 5 && 2 <= n && uo + m + n == 4
    requires AllDigits(u[..], uo, 5) && AllDigits(v[..], 5 - n, 5) && u[uo] == 0 && v[5 - n] > 0
    modifies u, v
    ensures d < 16 && Same(u[..], old(u[..]), 0, uo)
    ensures AllDigits(u[..], uo, 5) && AllDigits(v[..], 5 - n, 5) && v[5 - n] >= B / 2
    ensures Num(u[..], uo, 5) == Num(old(u[..]), uo, 5) * Pow2(d)
    ensures Num(v[..], 5 - n, 5) == Num(old(v[..]), 5 - n, 5) * Pow2(d)
  {
    d := NormalisingShift(v[5 - n]);
    if d > 0 {
      Shl(u, uo, m + n, d);
      Shl(v, 5 - n, n - 1, d);
    }
  }

  /** The shift, and the digit that it may leave behind. */
  method ShiftBack(u: array<u32>, k: nat, d: nat)
    requires u.Length == 5 && 0 <= k < 4 && 0 < d < 16 && AllDigits(u[..], 0, 5)
    requires forall x :: 0 <= x <= k ==> u[x] == 0
    modifies u
    ensures AllDigits(u[..], 0, 5) && Num(u[..], k + 1, 5) == old(Num(u[..], k + 1, 5)) / Pow2(d)
    ensures forall x :: 0 <= x <= k ==> u[x] == 0
  {
    ShiftRight(u, k + 1, 5, d);
    ghost var u1 := u[..];
    u[k] := 0;
    NumSame(u1, u[..], k + 1, 5);
  }

  /** The remainder: u shifted back, when it had been normalised. */
  method Denormalise(u: array<u32>, k: nat, d: nat) returns (rem: u64)
    requires u.Length == 5 && 0 <= k < 4 && d < 16 && AllDigits(u[..], 0, 5)
    requires forall x :: 0 <= x <= k ==> u[x] == 0
    modifies u
    ensures rem == old(Num(u[..], 0, 5)) / Pow2(d)
  {
    NumZeros(u[..], 0, k + 1, 5);
    if d > 0 {
      ShiftBack(u, k, d);
    }
    NumZeros(u[..], 1, k + 1, 5);
    rem := JoinQuad(u);
  }

  /** Clears the leading digits of the quotient. */
  method ClearQuotient(q: array<u32>, k: nat)
    requires k <= q.Length
    modifies q
    ensures forall x :: 0 <= x < k ==> q[x] == 0
  {
    var i := k;
    while i > 0
      invariant 0 <= i <= k
      invariant forall x :: i <= x < k ==> q[x] == 0
    {
      i := i - 1;
      q[i] := 0;
    }
  }

  /** Scaling dividend and divisor by p scales the remainder and keeps the quotient. */
  lemma Unscaled(U: nat, V: nat, p: nat, Up: nat, Vp: nat, q: nat, rp: nat) returns (r: nat)
    requires p > 0 && V > 0 && Up == U * p && Vp == V * p && IsDivMod(Up, Vp, q, rp)
    ensures IsDivMod(U, V, q, r) && r == rp / p
  {
    DivModIs(Up, Vp, q, rp);
    Unscale(U, V, p);
    r := U % V;
    QuotientOf(rp, p, r, 0);
    DivModOf(U, V);
  }

  /** The digits Program D leaves, read as quotient and scaled remainder. */
  lemma Results(u1: seq<u32>, u2: seq<u32>, q1: seq<u32>, q2: seq<u32>, v: seq<u32>, uo: nat, m: nat, n: nat)
    requires |u1| == |u2| == |q1| == |q2| == |v| == 5 && uo + m + n == 4 && n >= 2
    requires AllDigits(u2, uo, 5) && AllDigits(v, 5 - n, 5) && AllDigits(q2, 4 - m, 5)
    requires Same(u2, u1, 0, uo) && (forall x :: 0 <= x < uo ==> u1[x] == 0)
    requires Same(q2, q1, 0, 4 - m) && (forall x :: 0 <= x < 4 - m ==> q1[x] == 0)
    requires Num(u2, uo, 5) < Num(v, 5 - n, 5)
    ensures AllDigits(u2, 0, 5) && AllDigits(q2, 1, 5)
    ensures Num(q2, 1, 5) == Num(q2, 4 - m, 5) && Num(u2, 0, 5) == Num(u2, uo, 5)
    ensures forall x :: 0 <= x <= uo + m ==> u2[x] == 0
  {
    NumZeros(q2, 1, 4 - m, 5);
    NumBound(v, 5 - n, 5);
    NumSmall(u2, uo, 5, n);
    NumZeros(u2, 0, uo, 5);
  }

  /** Program D on operands scaled by 2^d, and the remainder scaled back. */
  method ScaledDivision(u: array<u32>, uo: nat, v: array<u32>, q: array<u32>, m: nat, n: nat, d: nat,
                        wantRem: bool, ghost U: nat, ghost V: nat)
    returns (quot: u64, rem: u64, ghost r: nat)
    requires u != v && u != q && v != q && u.Length == v.Length == q.Length == 5
    requires n >= 2 && uo + m + n == 4 && d < 16 && V > 0
    requires AllDigits(u[..], uo, 5) && AllDigits(v[..], 5 - n, 5) && v[5 - n] >= B / 2
    requires Num(u[..], uo, uo + n) < Num(v[..], 5 - n, 5)
    requires Num(u[..], uo, 5) == U * Pow2(d) && Num(v[..], 5 - n, 5) == V * Pow2(d)
    requires forall x :: 0 <= x < uo ==> u[x] == 0
    requires forall x :: 0 <= x < 4 - m ==> q[x] == 0
    modifies u, q
    ensures IsDivMod(U, V, quot, r) && (wantRem ==> rem == r)
  {
    ghost var u1, q1 := u[..], q[..];
    ProgramD(u, uo, v, 5 - n, q, 4 - m, m, n, U * Pow2(d));
    Results(u1, u[..], q1, q[..], v[..], uo, m, n);
    r := Unscaled(U, V, Pow2(d), Num(u1, uo, 5), Num(v[..], 5 - n, 5), Num(q[..], 1, 5), Num(u[..], 0, 5));
    rem := 0;
    if wantRem {
      rem := Denormalise(u, uo + m, d);
    }
    quot := JoinQuad(q);
  }

  lemma Conditions(u0: seq<u32>, u1: seq<u32>, v0: seq<u32>, uo: nat, m: nat, n: nat, d: nat)
    requires |u0| == |u1| == |v0| == 5 && uo + m + n == 4 && n >= 2
    requires AllDigits(u0, 0, 5) && AllDigits(u1, uo, 5) && v0[5 - n] > 0
    requires Num(u0, uo, 5) == Num(u0, uo + 1, 5) == Num(u0, 1, 5)
    requires Num(u1, uo, 5) == Num(u0, 1, 5) * Pow2(d)
    ensures Num(u1, uo, uo + n) < Num(v0, 5 - n, 5) * Pow2(d)
  {
    NumBound(u0, uo + 1, 5);
    LeadingPower(v0, 5 - n, 5);
    WindowCondition(u1, uo, m, n, Num(u0, 1, 5), Num(v0, 5 - n, 5), Pow2(d));
  }

  /** What __qdivrem does once v is known to have n >= 2 digits, v[5-n..5). */
  method LongDivision(u: array<u32>, v: array<u32>, q: array<u32>, n: nat, wantRem: bool)
    returns (quot: u64, rem: u64, ghost r: nat)
    requires u != v && u != q && v != q && u.Length == v.Length == q.Length == 5
    requires 2 <= n <= 4 && AllDigits(u[..], 1, 5) && AllDigits(v[..], 5 - n, 5) && u[0] == 0
    requires v[5 - n] > 0 && Num(u[..], 1, 5) >= Num(v[..], 5 - n, 5)
    modifies u, v, q
    ensures IsDivMod(old(Num(u[..], 1, 5)), old(Num(v[..], 5 - n, 5)), quot, r)
    ensures wantRem ==> rem == r
  {
    ghost var u0, v0 := u[..], v[..];
    ghost var U, V := Num(u0, 1, 5), Num(v0, 5 - n, 5);
    var m, uo := SkipLeadingZeros(u, n, v0);
    ClearQuotient(q, 4 - m);
    NumZeros(u0, 0, uo + 1, 5);
    NumZeros(u0, 0, 1, 5);
    NumZeros(u0, 0, uo, 5);
    LeadingPower(v0, 5 - n, 5);
    var d := Normalise(u, uo, m, v, n);
    Conditions(u0, u[..], v0, uo, m, n, d);
    quot, rem, r := ScaledDivision(u, uo, v, q, m, n, d, wantRem, U, V);
  }

  /** Counts the digits of v: v[1..5-n) are leading zeros. */
  method DivisorDigits(v: array<u32>) returns (n: nat)
    requires v.Length == 5 && AllDigits(v[..], 1, 5)
    ensures 1 <= n <= 4 && (n > 1 ==> v[5 - n] > 0)
    ensures Num(v[..], 1, 5) == Num(v[..], 5 - n, 5)
  {
    var vo := 0;
    n := 4;
    while v[vo + 1] == 0
      invariant vo + n == 4 && n >= 2
      invariant Num(v[..], 1, 5) == Num(v[..], vo + 1, 5)
      decreases n
    {
      NumLead(v[..], vo + 1, 5);
      n := n - 1;
      if n == 1 {
        return;
      }
      vo := vo + 1;
    }
  }

  /** __qdivrem for u >= v: splits both numbers into digits and divides. */
  method DivideQuads(uq: u64, vq: u64, wantRem: bool) returns (quot: u64, rem: u64)
    requires 0 < vq <= uq
    ensures quot == uq / vq && (wantRem ==> rem == uq % vq)
  {
    ghost var r: nat;
    var u, v, q := new u32[5], new u32[5], new u32[5];
    u[0] := 0;
    SplitQuad(uq, u);
    SplitQuad(vq, v);
    var n := DivisorDigits(v);
    if n == 1 {
      assert Num(v[..], 4, 5) == v[4];
      quot, rem := ShortDivision(u, v[4]);
      r := rem;
    } else {
      quot, rem, r := LongDivision(u, v, q, n, wantRem);
    }
    DivModIs(uq, vq, quot, r);
  }

  /** __qdivrem, for a nonzero divisor: quotient and, when wanted, remainder. */
  method QDivRem(uq: u64, vq: u64, wantRem: bool) returns (quot: u64, rem: u64)
    requires vq != 0
    ensures quot == uq / vq
    ensures wantRem ==> rem == uq % vq
  {
    if uq < vq {
      DivModUnique(uq, vq, 0, uq);
      quot, rem := 0, uq;
    } else {
      quot, rem := DivideQuads(uq, vq, wantRem);
    }
  }

  // ---------- the library entry points ----------

  /** __udivdi3. */
  method UDivDi3(a: u64, b: u64) returns (q: u64)
    requires b != 0
    ensures q == a / b
  {
    var r;
    q, r := QDivRem(a, b, false);
  }

  /** __umoddi3. */
  method UModDi3(a: u64, b: u64) returns (r: u64)
    requires b != 0
    ensures r == a % b
  {
    var q;
    q, r := QDivRem(a, b, true);
  }

  type i64 = x: int | -0x8000_0000_0000_0000 <= x < 0x8000_0000_0000_0000

  /** The signed reading of a 64-bit word. */
  function Signed(x: u64): i64 {
    if x < 0x8000_0000_0000_0000 then x else x - WORD64
  }

  /** Division rounded toward zero. */
  function TruncDiv(a: int, b: int): (q: int)
    requires b != 0
  {
    var ua, ub := if a < 0 then -a else a, if b < 0 then -b else b;
    if (a < 0) != (b < 0) then -(ua / ub) else ua / ub
  }

  lemma SignedProduct(a: int, b: int, ub: int, q: int, t: int)
    requires ub == (if b < 0 then -b else b)
    requires t == (if (a < 0) != (b < 0) then -q else q)
    ensures t * b == (if a < 0 then -(q * ub) else q * ub)
  {
    assert (-q) * b == -(q * b) && q * (-b) == -(q * b);
  }

  lemma SignedRemainder(a: int, ua: int, ub: int, product: int, r: int, truncated: int)
    requires ua == (if a < 0 then -a else a) == product + r && 0 <= r < ub
    requires product >= 0 && truncated == (if a < 0 then -product else product)
    ensures var d := a - truncated; -ub < d < ub && (d > 0 ==> a > 0) && (d < 0 ==> a < 0)
  {
  }

  /** What truncation means: the remainder is smaller than the divisor and has the sign
      of the dividend. */
  lemma TruncDivRounds(a: int, b: int)
    requires b != 0
    ensures var r := a - TruncDiv(a, b) * b;
      (if b < 0 then b else -b) < r < (if b < 0 then -b else b) && (r > 0 ==> a > 0) && (r < 0 ==> a < 0)
  {
    var ua, ub := if a < 0 then -a else a, if b < 0 then -b else b;
    var q, r, t := ua / ub, ua % ub, TruncDiv(a, b);
    DivisionEquation(ua, ub);
    SignedProduct(a, b, ub, q, t);
    MulLe(ub, 0, q);
    assert ub * q == q * ub;
    SignedRemainder(a, ua, ub, q * ub, r, t * b);
  }

  /** Negating a word twice, and reading it as signed, for the sizes a quotient has. */
  lemma SignedNegation(x: u64)
    requires x <= 0x8000_0000_0000_0000
    ensures var y: int := x; Signed(Wrap64(-y)) == -y
    ensures x < 0x8000_0000_0000_0000 ==> Signed(x) == x
  {
    if x > 0 {
      var y: int := x;
      DivModUnique(-y, WORD64, -1, WORD64 - y);
    }
  }

  /** The magnitude that __divdi3 takes of a signed operand. */
  method Magnitude(a: i64) returns (ua: u64, neg: bool)
    ensures neg == (a < 0) && ua == (if a < 0 then 0 - a else a) <= 0x8000_0000_0000_0000
  {
    if a < 0 {
      var w: int := Wrap64(a);
      ua, neg := Wrap64(-w), true;
    } else {
      ua, neg := a, false;
    }
  }

  /** __divdi3: exact unless the quotient is 2^63, which wraps to -2^63. */
  method DivDi3(a: i64, b: i64) returns (q: i64)
    requires b != 0
    ensures q == TruncDiv(a, b) <==> !(a == -0x8000_0000_0000_0000 && b == -1)
    ensures a == -0x8000_0000_0000_0000 && b == -1 ==> q == a
  {
    var ua, neg := Magnitude(a);
    var ub, negB := Magnitude(b);
    neg := neg != negB;
    var uq: int := UDivDi3(ua, ub);
    QuotientSize(ua, ub);
    SignedNegation(uq);
    q := Signed(if neg then Wrap64(-uq) else uq);
  }
}
