/** Positional numerals: little-endian digit sequences, their value and their bits. */
module Numeral {
  import opened Products

  function Pow(b: int, e: nat): int {
    if e == 0 then 1 else b * Pow(b, e - 1)
  }

  /** The value of a little-endian digit sequence in base `b`. */
  function Val(s: seq<int>, b: int): int {
    if s == [] then 0 else Val(s[..|s| - 1], b) + s[|s| - 1] * Pow(b, |s| - 1)
  }

  ghost predicate Digits(s: seq<int>, b: int) {
    forall i :: 0 <= i < |s| ==> 0 <= s[i] < b
  }

  lemma {:induction false} PowPositive(b: int, e: nat)
    requires b > 0
    ensures Pow(b, e) > 0
  {
    if e > 0 {
      PowPositive(b, e - 1);
    }
  }

  lemma {:induction false} PowAdd(b: int, d: nat, e: nat)
    ensures Pow(b, d + e) == Pow(b, d) * Pow(b, e)
  {
    if d > 0 {
      PowAdd(b, d - 1, e);
      assert b * (Pow(b, d - 1) * Pow(b, e)) == (b * Pow(b, d - 1)) * Pow(b, e);
    }
  }

  lemma {:induction false} PowMul(b: int, d: nat, e: nat)
    ensures Pow(Pow(b, d), e) == Pow(b, d * e)
  {
    if e > 0 {
      PowMul(b, d, e - 1);
      assert d * (e - 1) == d * e - d;
      PowAdd(b, d, d * e - d);
    } else {
      assert d * e == 0;
    }
  }

  lemma ValSnoc(s: seq<int>, i: nat, b: int)
    requires i < |s|
    ensures Val(s[..i + 1], b) == Val(s[..i], b) + s[i] * Pow(b, i)
  {
    assert s[..i + 1][..i] == s[..i];
  }

  lemma {:induction false} ValBound(s: seq<int>, b: int)
    requires b > 0 && Digits(s, b)
    ensures 0 <= Val(s, b) < Pow(b, |s|)
  {
    if s != [] {
      var n := |s| - 1;
      ValBound(s[..n], b);
      PowPositive(b, n);
      MulBound(s[n], Pow(b, n), b);
    }
  }

  lemma MulBound(d: int, p: int, b: int)
    requires 0 <= d < b && p > 0
    ensures 0 <= d * p <= b * p - p
  {
    assert d * p <= (b - 1) * p;
  }

  lemma {:induction false} ValUpdate(s: seq<int>, k: nat, v: int, b: int)
    requires k < |s|
    ensures Val(s[k := v], b) == Val(s, b) + (v - s[k]) * Pow(b, k)
  {
    var n := |s| - 1;
    var t := s[k := v];
    if k == n {
      assert t[..n] == s[..n];
    } else {
      assert t[..n] == s[..n][k := v];
      ValUpdate(s[..n], k, v, b);
    }
  }

  lemma {:induction false} ValZero(s: seq<int>, b: int)
    requires forall i :: 0 <= i < |s| ==> s[i] == 0
    ensures Val(s, b) == 0
  {
    if s != [] {
      ValZero(s[..|s| - 1], b);
    }
  }

  lemma ValCons(s: seq<int>, b: int)
    requires s != []
    ensures Val(s, b) == s[0] + b * Val(s[1..], b)
  {
    ValSplit(s, 1, b);
    ValSnoc(s, 0, b);
    assert Pow(b, 0) == 1 && Pow(b, 1) == b * Pow(b, 0);
  }

  lemma Distribute(p: int, h: int, d: int, q: int)
    ensures p * (h + d * q) == p * h + d * (p * q)
  {
    assert p * (d * q) == d * (p * q);
  }

  lemma {:induction false} ValSplit(s: seq<int>, k: nat, b: int)
    requires k <= |s|
    ensures Val(s, b) == Val(s[..k], b) + Pow(b, k) * Val(s[k..], b)
  {
    if k == |s| {
      assert s[..k] == s && s[k..] == [];
    } else {
      var n := |s| - 1;
      var lo, hi := s[..n], s[k..];
      ValSplit(lo, k, b);
      assert lo[..k] == s[..k] && lo[k..] == hi[..|hi| - 1];
      PowAdd(b, k, n - k);
      Distribute(Pow(b, k), Val(lo[k..], b), s[n], Pow(b, n - k));
    }
  }

  /** A numeral whose digits agree above position k compares as digit k does. */
  lemma ValCompare(s: seq<int>, t: seq<int>, k: nat, b: int)
    requires |s| == |t| && k < |s| && b > 0 && Digits(s, b) && Digits(t, b)
    requires s[k + 1..] == t[k + 1..] && s[k] > t[k]
    ensures Val(s, b) > Val(t, b)
  {
    ValSplit(s, k + 1, b);
    ValSplit(t, k + 1, b);
    ValSnoc(s, k, b);
    ValSnoc(t, k, b);
    ValBound(s[..k], b);
    ValBound(t[..k], b);
    DigitStep(t[k], s[k], Pow(b, k));
  }

  lemma DigitStep(c: int, d: int, p: int)
    requires c < d && p > 0
    ensures d * p >= c * p + p
  {
    StepFits(c, d, p);
  }

  /** Bit k of a numeral whose digits are w bits wide. */
  function Bit(s: seq<int>, w: nat, k: nat): (b: int)
    requires w > 0
    ensures b == 0 || b == 1
  {
    if k / w < |s| then s[k / w] / Pow2(k % w) % 2 else 0
  }

  function Pow2(e: nat): (p: int)
    ensures p > 0
  {
    if e == 0 then 1 else 2 * Pow2(e - 1)
  }

  lemma {:induction false} Pow2IsPow(e: nat)
    ensures Pow2(e) == Pow(2, e)
  {
    if e > 0 {
      Pow2IsPow(e - 1);
    }
  }

  /** The number formed by bits k, k+1, ..., n-1 of a numeral of w-bit digits. */
  function Top(s: seq<int>, w: nat, n: nat, k: nat): (t: int)
    requires w > 0
    ensures t >= 0
    decreases n - k
  {
    if k >= n then 0 else 2 * Top(s, w, n, k + 1) + Bit(s, w, k)
  }

  lemma DivModOf(w: nat, q: nat, r: nat)
    requires r < w
    ensures (w * q + r) / w == q && (w * q + r) % w == r
  {
    QuotientIs(w * q + r, w, q, r);
  }

  lemma Regroup(p: int, c: int, e: int, r: int)
    ensures p * (2 * c + e) + r == 2 * p * c + (p * e + r)
  {
    Distribute(p, p * e, 2, c);
  }

  lemma HalfStep(d: nat, r: nat)
    ensures d / Pow2(r) == 2 * (d / Pow2(r + 1)) + d / Pow2(r) % 2
  {
    HalfOf(d, Pow2(r));
  }

  lemma HalfOf(d: nat, p: int)
    requires p > 0
    ensures d / p == 2 * (d / (2 * p)) + d / p % 2
  {
    var a, m := d / p, d % p;
    HalfParts(d, p, a, m, a / 2, a % 2);
  }

  lemma HalfParts(d: int, p: int, a: int, m: int, c: int, e: int)
    requires d == p * a + m && 0 <= m < p && a == 2 * c + e && 0 <= e <= 1
    ensures d / (2 * p) == c
  {
    var w := 2 * p;
    Regroup(p, c, e, m);
    assert e == 0 ==> p * e == 0;
    assert e == 1 ==> p * e == p;
    QuotientIs(d, w, c, p * e + m);
  }

  lemma LowEnd(d: int)
    ensures d / Pow2(0) == d
  {
    assert Pow2(0) == 1;
  }

  lemma Commute(x: int, y: int)
    ensures x * y == y * x
  {
  }

  lemma BitAt(s: seq<int>, w: nat, q: nat, r: nat)
    requires q < |s| && r < w
    ensures Bit(s, w, w * q + r) == s[q] / Pow2(r) % 2
  {
    DivModOf(w, q, r);
  }

  lemma {:induction false} TopAt(s: seq<int>, w: nat, n: nat, q: nat, r: nat, k: nat)
    requires w > 0 && q < |s| && r <= w && Digits(s, Pow2(w))
    requires n == w * |s| && k == w * q + r
    ensures Top(s, w, n, k) == Val(s[q + 1..], Pow2(w)) * Pow2(w - r) + s[q] / Pow2(r)
    decreases |s| - q, w - r
  {
    var b := Pow2(w);
    InRange(w, q, |s|);
    if r < w {
      BitAt(s, w, q, r);
      HalfStep(s[q], r);
      var v := Val(s[q + 1..], b);
      assert Pow2(w - r) == 2 * Pow2(w - (r + 1));
      Distribute(v, 0, 2, Pow2(w - (r + 1)));
      assert Top(s, w, n, k) == 2 * Top(s, w, n, k + 1) + Bit(s, w, k);
      hide *;
      TopAt(s, w, n, q, r + 1, k + 1);
    } else {
      DivModOf(b, 0, s[q]);
      assert s[q] / b == 0;
      assert Pow2(0) == 1;
      if q + 1 < |s| {
        LowEnd(s[q + 1]);
        ValCons(s[q + 1..], b);
        assert s[q + 1..][1..] == s[q + 2..];
        hide *;
        TopAt(s, w, n, q + 1, 0, k);
        Commute(Val(s[q + 2..], b), b);
      } else {
        assert s[q + 1..] == [];
      }
    }
  }

  lemma InRange(w: nat, q: nat, m: nat)
    requires q < m
    ensures w * q + w <= w * m
    ensures w * q + w == w * (q + 1)
  {
    StepFits(q, m, w);
    Split(q, 1, w);
  }

  /** Reading all the bits of a numeral gives its value. */
  lemma TopIsVal(s: seq<int>, w: nat, n: nat)
    requires w > 0 && Digits(s, Pow2(w)) && n == w * |s|
    ensures Top(s, w, n, 0) == Val(s, Pow2(w))
  {
    if s != [] {
      TopAt(s, w, n, 0, 0, 0);
      hide *;
      LowEnd(s[0]);
      ValCons(s, Pow2(w));
      Commute(Val(s[1..], Pow2(w)), Pow2(w));
    }
  }

  lemma TopUnfold(s: seq<int>, w: nat, n: nat, k: nat)
    requires w > 0 && k < n
    ensures Top(s, w, n, k) == 2 * Top(s, w, n, k + 1) + Bit(s, w, k)
  {
  }

  // ----- big-endian byte strings ----------------------------------------------

  type byte = x: int | 0 <= x < 256

  ghost function Reverse(s: seq<int>): (r: seq<int>)
    ensures |r| == |s|
    ensures forall i :: 0 <= i < |s| ==> r[i] == s[|s| - 1 - i]
  {
    seq(|s|, i requires 0 <= i < |s| => s[|s| - 1 - i])
  }

  /** The natural number a big-endian byte string stands for. */
  ghost function BeVal(s: seq<byte>): (n: int)
    ensures n >= 0
  {
    ValBound(Reverse(s), 256);
    Val(Reverse(s), 256)
  }
}
