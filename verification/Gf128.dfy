/** Polynomials over GF(2) as sets of exponents, and the field of 2^128 elements that
    GHASH works in: remainders modulo x^128 + x^7 + x^2 + x + 1. */
module Gf128 {

  type Poly = set<nat>

  /** Coefficients add modulo 2. */
  function Add(a: Poly, b: Poly): (r: Poly)
    ensures forall e :: e in r <==> (e in a) != (e in b)
  {
    (a - b) + (b - a)
  }

  /** x^k times a. */
  function Shift(a: Poly, k: nat): (r: Poly)
    ensures forall e :: e in r <==> e >= k && e - k in a
  {
    set e | e in a :: e + k
  }

  /** The sum of x^e b over the exponents e of a below n. */
  function MulBelow(a: Poly, b: Poly, n: nat): Poly {
    if n == 0 then {}
    else if n - 1 in a then Add(MulBelow(a, b, n - 1), Shift(b, n - 1))
    else MulBelow(a, b, n - 1)
  }

  predicate Below(a: Poly, n: nat) {
    forall e :: e in a ==> e < n
  }

  // ----- ring laws ---------------------------------------------------------------------

  lemma AddAssoc(a: Poly, b: Poly, c: Poly)
    ensures Add(Add(a, b), c) == Add(a, Add(b, c))
  {
  }

  lemma AddSelf(a: Poly)
    ensures Add(a, a) == {} && Add(a, {}) == a && Add({}, a) == a
  {
  }

  /** (a + b) + (c + d) = (a + c) + (b + d) */
  lemma AddSwap(a: Poly, b: Poly, c: Poly, d: Poly)
    ensures Add(Add(a, b), Add(c, d)) == Add(Add(a, c), Add(b, d))
  {
  }

  lemma ShiftAdd(a: Poly, b: Poly, k: nat)
    ensures Shift(Add(a, b), k) == Add(Shift(a, k), Shift(b, k))
  {
  }

  lemma ShiftShift(a: Poly, j: nat, k: nat)
    ensures Shift(Shift(a, j), k) == Shift(a, j + k) && Shift(a, 0) == a
  {
  }

  lemma {:induction false} MulAddLeft(a: Poly, a': Poly, b: Poly, n: nat)
    ensures MulBelow(Add(a, a'), b, n) == Add(MulBelow(a, b, n), MulBelow(a', b, n))
  {
    if n > 0 {
      MulAddLeft(a, a', b, n - 1);
      var x, y, s := MulBelow(a, b, n - 1), MulBelow(a', b, n - 1), Shift(b, n - 1);
      assert Add(Add(x, y), s) == Add(Add(x, s), y) == Add(x, Add(y, s));
      assert Add(Add(x, s), Add(y, s)) == Add(x, y);
    }
  }

  lemma {:induction false} MulAddRight(a: Poly, b: Poly, b': Poly, n: nat)
    ensures MulBelow(a, Add(b, b'), n) == Add(MulBelow(a, b, n), MulBelow(a, b', n))
  {
    if n > 0 {
      MulAddRight(a, b, b', n - 1);
      ShiftAdd(b, b', n - 1);
      AddSwap(MulBelow(a, b, n - 1), MulBelow(a, b', n - 1), Shift(b, n - 1), Shift(b', n - 1));
    }
  }

  lemma {:induction false} MulShiftRight(a: Poly, b: Poly, k: nat, n: nat)
    ensures MulBelow(a, Shift(b, k), n) == Shift(MulBelow(a, b, n), k)
  {
    hide Shift, Add;
    if n > 0 {
      MulShiftRight(a, b, k, n - 1);
      ShiftShift(b, k, n - 1);
      ShiftShift(b, n - 1, k);
      ShiftAdd(MulBelow(a, b, n - 1), Shift(b, n - 1), k);
    }
  }

  lemma {:induction false} MulShiftLeft(a: Poly, b: Poly, k: nat, n: nat)
    ensures MulBelow(Shift(a, k), b, n + k) == Shift(MulBelow(a, b, n), k)
  {
    hide Shift, Add;
    if n == 0 {
      MulNone(Shift(a, k), b, k);
    } else {
      MulShiftLeft(a, b, k, n - 1);
      var m, i := MulBelow(a, b, n - 1), n - 1 + k;
      ShiftedIn(a, k, n - 1);
      MulStep(Shift(a, k), b, i);
      MulStep(a, b, n - 1);
      ShiftShift(b, n - 1, k);
      ShiftAdd(m, Shift(b, n - 1), k);
    }
  }

  lemma ShiftedIn(a: Poly, k: nat, i: nat)
    ensures i + k in Shift(a, k) <==> i in a
  {
  }

  lemma MulStep(a: Poly, b: Poly, n: nat)
    ensures MulBelow(a, b, n + 1) == if n in a then Add(MulBelow(a, b, n), Shift(b, n)) else MulBelow(a, b, n)
  {
  }

  /** Only the exponents below n matter. */
  lemma {:induction false} MulSame(a: Poly, a': Poly, b: Poly, n: nat)
    requires forall e :: 0 <= e < n ==> (e in a <==> e in a')
    ensures MulBelow(a, b, n) == MulBelow(a', b, n)
  {
    if n > 0 {
      MulSame(a, a', b, n - 1);
    }
  }

  lemma {:induction false} MulNone(a: Poly, b: Poly, n: nat)
    requires forall e :: 0 <= e < n ==> e !in a
    ensures MulBelow(a, b, n) == {}
  {
    if n > 0 {
      MulNone(a, b, n - 1);
    }
  }

  lemma {:induction false} MulBound(a: Poly, b: Poly, n: nat, m: nat)
    requires Below(a, n) && n <= m
    ensures MulBelow(a, b, m) == MulBelow(a, b, n)
  {
    if n < m {
      MulBound(a, b, n, m - 1);
    }
  }

  lemma {:induction false} MulZero(a: Poly, n: nat)
    ensures MulBelow(a, {}, n) == {}
  {
    if n > 0 {
      MulZero(a, n - 1);
      assert Shift({}, n - 1) == {};
    }
  }

  /** x^m times a, with x^m on either side. */
  lemma {:induction false} MulMonomial(a: Poly, m: nat, n: nat)
    requires Below(a, n)
    ensures MulBelow(a, {m}, n) == Shift(a, m)
  {
    if n == 0 {
      assert Shift(a, m) == {};
    } else {
      var a' := a - {n - 1};
      MulMonomial(a', m, n - 1);
      MulSame(a, a', {m}, n - 1);
      if n - 1 in a {
        assert Shift({m}, n - 1) == {m + n - 1};
        assert Add(Shift(a', m), {m + n - 1}) == Shift(a, m);
      } else {
        assert a' == a;
      }
    }
  }

  lemma {:induction false} MulComm(a: Poly, b: Poly, n: nat, m: nat)
    requires Below(a, n) && Below(b, m)
    ensures MulBelow(a, b, n) == MulBelow(b, a, m)
  {
    if m == 0 {
      assert b == {};
      MulZero(a, n);
    } else {
      var b' := b - {m - 1};
      MulComm(a, b', n, m - 1);
      MulSame(b, b', a, m - 1);
      if m - 1 in b {
        assert b == Add(b', {m - 1});
        MulAddRight(a, b', {m - 1}, n);
        MulMonomial(a, m - 1, n);
      } else {
        assert b' == b;
      }
    }
  }

  lemma {:induction false} MulBelowSum(a: Poly, b: Poly, n: nat, m: nat)
    requires Below(b, m) && m > 0
    ensures n == 0 ==> MulBelow(a, b, n) == {}
    ensures n > 0 ==> Below(MulBelow(a, b, n), n + m - 1)
  {
    if n > 0 {
      MulBelowSum(a, b, n - 1, m);
    }
  }

  // ----- the field -------------------------------------------------------------------------

  const P: Poly := {0, 1, 2, 7, 128}

  /** a and b differ by a multiple of P. */
  ghost predicate Cong(a: Poly, b: Poly) {
    exists q: Poly, n: nat :: CongBy(a, b, q, n)
  }

  ghost predicate CongBy(a: Poly, b: Poly, q: Poly, n: nat) {
    Below(q, n) && a == Add(b, MulBelow(q, P, n))
  }

  lemma CongSelf(a: Poly)
    ensures Cong(a, a)
  {
    assert CongBy(a, a, {}, 0);
  }

  lemma CongAdd(a: Poly, a': Poly, b: Poly, b': Poly)
    requires Cong(a, a') && Cong(b, b')
    ensures Cong(Add(a, b), Add(a', b'))
  {
    var q, n :| CongBy(a, a', q, n);
    var r, m :| CongBy(b, b', r, m);
    var k := if n > m then n else m;
    MulBound(q, P, n, k);
    MulBound(r, P, m, k);
    MulAddLeft(q, r, P, k);
    AddSwap(a', MulBelow(q, P, k), b', MulBelow(r, P, k));
    assert CongBy(Add(a, b), Add(a', b'), Add(q, r), k);
  }

  lemma CongSym(a: Poly, b: Poly)
    requires Cong(a, b)
    ensures Cong(b, a)
  {
    var q, n :| CongBy(a, b, q, n);
    AddAssoc(b, MulBelow(q, P, n), MulBelow(q, P, n));
    AddSelf(MulBelow(q, P, n));
    AddSelf(b);
    assert CongBy(b, a, q, n);
  }

  lemma CongTrans(a: Poly, b: Poly, c: Poly)
    requires Cong(a, b) && Cong(b, c)
    ensures Cong(a, c)
  {
    CongAdd(a, b, b, c);
    CongSelf(b);
    CongAdd(Add(a, b), Add(b, c), b, b);
    AddAssoc(a, b, b);
    AddSelf(b);
    AddSelf(a);
    assert Add(Add(b, c), b) == c;
  }

  lemma CongShift(a: Poly, b: Poly, k: nat)
    requires Cong(a, b)
    ensures Cong(Shift(a, k), Shift(b, k))
  {
    var q, n: nat :| CongBy(a, b, q, n);
    MulShiftLeft(q, P, k, n);
    ShiftAdd(b, MulBelow(q, P, n), k);
    assert CongBy(Shift(a, k), Shift(b, k), Shift(q, k), n + k);
  }

  /** A shifted P can be added at will. */
  lemma CongAddP(a: Poly, k: nat)
    ensures Cong(Add(a, Shift(P, k)), a)
  {
    var q: Poly := {k};
    MulNone(q, P, k);
    AddSelf(Shift(P, k));
    assert CongBy(Add(a, Shift(P, k)), a, q, k + 1);
  }

  /** Long division by P: exponents from n - 1 down to 128 are cancelled. */
  function Reduce(a: Poly, n: nat): Poly
    decreases n
  {
    if n <= 128 then a
    else if n - 1 in a then Reduce(Add(a, Shift(P, n - 129)), n - 1)
    else Reduce(a, n - 1)
  }

  lemma {:induction false} ReduceIs(a: Poly, n: nat)
    requires Below(a, n)
    ensures Cong(Reduce(a, n), a) && Below(Reduce(a, n), 128)
    decreases n
  {
    if n <= 128 {
      CongSelf(a);
    } else if n - 1 in a {
      var a' := Add(a, Shift(P, n - 129));
      assert 128 in P && 128 + (n - 129) in Shift(P, n - 129);
      assert Below(a', n - 1);
      ReduceIs(a', n - 1);
      CongAddP(a, n - 129);
      CongTrans(Reduce(a', n - 1), a', a);
    } else {
      ReduceIs(a, n - 1);
    }
  }

  /** The largest exponent of a nonzero polynomial. */
  lemma {:induction false} Top(a: Poly, n: nat) returns (m: nat)
    requires a != {} && Below(a, n)
    ensures m in a && Below(a, m + 1)
  {
    var e :| e in a;
    if n - 1 in a {
      m := n - 1;
    } else {
      m := Top(a, n - 1);
    }
  }

  /** A nonzero multiple of P has an exponent of 128 or more. */
  lemma MultipleIsLong(q: Poly, n: nat)
    requires Below(q, n) && q != {}
    ensures !Below(MulBelow(q, P, n), 128)
  {
    var m := Top(q, n);
    MulBound(q, P, m + 1, n);
    assert Below(P, 129);
    MulBelowSum(q, P, m, 129);
    assert 128 in P && m + 128 in Shift(P, m);
    assert m + 128 !in MulBelow(q, P, m);
    assert m + 128 in MulBelow(q, P, m + 1);
  }

  /** Remainders are unique. */
  lemma RemainderUnique(a: Poly, b: Poly)
    requires Cong(a, b) && Below(a, 128) && Below(b, 128)
    ensures a == b
  {
    var q, n :| CongBy(a, b, q, n);
    if q == {} {
      MulNone(q, P, n);
    } else {
      assert MulBelow(q, P, n) == Add(a, b);
      MultipleIsLong(q, n);
    }
  }

  /** The product of two field elements. */
  function Times(a: Poly, b: Poly): Poly {
    Reduce(MulBelow(a, b, 128), 255)
  }

  /** What the product is: the remainder that the full product is congruent to. */
  lemma TimesIs(a: Poly, b: Poly, c: Poly)
    requires Below(a, 128) && Below(b, 128) && Below(c, 128)
    ensures Below(Times(a, b), 128)
    ensures c == Times(a, b) <==> Cong(c, MulBelow(a, b, 128))
  {
    MulBelowSum(a, b, 128, 128);
    var p := MulBelow(a, b, 128);
    ReduceIs(p, 255);
    if Cong(c, p) {
      CongSym(Reduce(p, 255), p);
      CongTrans(c, p, Reduce(p, 255));
      RemainderUnique(c, Reduce(p, 255));
    }
  }

  lemma TimesComm(a: Poly, b: Poly)
    requires Below(a, 128) && Below(b, 128)
    ensures Times(a, b) == Times(b, a)
  {
    MulComm(a, b, 128, 128);
  }

  lemma TimesAddLeft(a: Poly, a': Poly, b: Poly)
    requires Below(a, 128) && Below(a', 128) && Below(b, 128)
    ensures Times(Add(a, a'), b) == Add(Times(a, b), Times(a', b))
  {
    var x, y := Times(a, b), Times(a', b);
    TimesIs(a, b, {});
    TimesIs(a', b, {});
    TimesIs(a, b, x);
    TimesIs(a', b, y);
    CongAdd(x, MulBelow(a, b, 128), y, MulBelow(a', b, 128));
    MulAddLeft(a, a', b, 128);
    TimesIs(Add(a, a'), b, Add(x, y));
  }

  lemma TimesAddRight(a: Poly, b: Poly, b': Poly)
    requires Below(a, 128) && Below(b, 128) && Below(b', 128)
    ensures Times(a, Add(b, b')) == Add(Times(a, b), Times(a, b'))
  {
    TimesComm(a, Add(b, b'));
    TimesAddLeft(b, b', a);
    TimesComm(a, b);
    TimesComm(a, b');
  }

  /** 1 is the unit and 0 annihilates. */
  lemma TimesUnit(a: Poly)
    requires Below(a, 128)
    ensures Times(a, {0}) == a && Times(a, {}) == {}
  {
    MulMonomial(a, 0, 128);
    ShiftShift(a, 0, 0);
    CongSelf(a);
    TimesIs(a, {0}, a);
    MulZero(a, 128);
    CongSelf({});
    TimesIs(a, {}, {});
  }
}
