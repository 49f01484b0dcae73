/** The two theorems about the point code: the Jacobian ladder computes what the
    affine ladder computes, and the affine formulas stay on the curve. */
module Ladder {
  import opened Numeral
  import opened ModArith
  import opened Field
  import opened Curve
  import opened CurveAlgebra

  // ----- field operations as congruences ---------------------------------------

  lemma MulC(a: int, a': int, b: int, b': int)
    requires Cong(Q, a, a') && Cong(Q, b, b')
    ensures Cong(Q, FMul(a, b), a' * b')
  {
    CongMul(Q, a, a', b, b');
    CongMod(Q, a * b);
    CongTrans(Q, FMul(a, b), a * b, a' * b');
  }

  lemma AddC(a: int, a': int, b: int, b': int)
    requires Cong(Q, a, a') && Cong(Q, b, b')
    ensures Cong(Q, FAdd(a, b), a' + b') && Cong(Q, FSub(a, b), a' - b')
  {
    CongAdd(Q, a, a', b, b');
    CongMod(Q, a + b);
    CongMod(Q, a - b);
    CongTrans(Q, FAdd(a, b), a + b, a' + b');
    CongTrans(Q, FSub(a, b), a - b, a' - b');
  }

  lemma SmallC(a: int, a': int)
    requires Cong(Q, a, a')
    ensures Cong(Q, FAdd(a, a), 2 * a') && Cong(Q, Thrice(a), 3 * a')
    ensures Cong(Q, Four(a), 4 * a') && Cong(Q, Eight(a), 8 * a')
  {
    AddC(a, a', a, a');
    AddC(FAdd(a, a), a' + a', a, a');
    AddC(FAdd(a, a), a' + a', FAdd(a, a), a' + a');
    AddC(Four(a), 4 * a', Four(a), 4 * a');
  }

  lemma Same(a: int)
    ensures Cong(Q, a, a)
  {
    CongRefl(Q, a);
  }

  lemma ZeroIff(a: int)
    requires 0 <= a < Q
    ensures Cong(Q, a, 0) <==> a == 0
  {
  }

  /** n / d, as n times Fermat's inverse of d, solves l d = n. */
  lemma Quotient(n: int, n': int, d: int, d': int)
    requires IsPrime(Q) && Cong(Q, n, n') && Cong(Q, d, d') && !Cong(Q, d', 0)
    ensures Cong(Q, FMul(n, FInv(d)) * d', n')
  {
    var i := FInv(d);
    if d % Q == 0 {
      CongSym(Q, d, d');
      CongTrans(Q, d', d, 0);
      assert false;
    }
    InverseIsInverse(Q, d);
    CongMod(Q, d * i);
    CongSym(Q, FMul(d, i), d * i);
    assert Cong(Q, d * i, 1);
    hide *;
    Same(i);
    MulC(n, n', i, i);
    CongSym(Q, d, d');
    CongMul(Q, FMul(n, i), n' * i, d', d);
    Same(n');
    CongMul(Q, n', n', d * i, 1);
    Reassociate(n', i, d);
    CongTrans(Q, FMul(n, i) * d', (n' * i) * d, n');
  }

  lemma Reassociate(n: int, i: int, d: int)
    ensures (n * i) * d == n * (d * i) && n * 1 == n
  {
  }

  // ----- what the affine formulas satisfy ---------------------------------------

  lemma NonZeroSum(y: int)
    requires IsPrime(Q) && 0 < y < Q
    ensures !Cong(Q, 2 * y, 0)
  {
    if Cong(Q, 2 * y, 0) {
      EuclidLemma(Q, 2, y);
      CongUnique(Q, y, 0);
    }
  }

  lemma NonZeroDifference(a: int, b: int)
    requires 0 <= a < Q && 0 <= b < Q && a != b
    ensures !Cong(Q, a - b, 0)
  {
    if Cong(Q, a - b, 0) {
      CongUnique(Q, a, b);
    }
  }

  lemma TangentFacts(p: Affine)
    requires IsPrime(Q) && p.Reduced() && p.Pt? && p.y != 0
    ensures Cong(Q, Tangent(p) * (2 * p.y), 3 * (p.x * p.x) - 3)
  {
    var xx := FMul(p.x, p.x);
    NonZeroSum(p.y);
    assert Tangent(p) == FMul(FSub(Thrice(xx), 3), FInv(FAdd(p.y, p.y)));
    hide *;
    Same(p.x);
    Same(p.y);
    MulC(p.x, p.x, p.x, p.x);
    SmallC(xx, p.x * p.x);
    Same(3);
    AddC(Thrice(xx), 3 * (p.x * p.x), 3, 3);
    SmallC(p.y, p.y);
    Quotient(FSub(Thrice(xx), 3), 3 * (p.x * p.x) - 3, FAdd(p.y, p.y), 2 * p.y);
  }

  lemma TwiceXFacts(x: int, l: int)
    ensures Cong(Q, FSub(FMul(l, l), FAdd(x, x)), l * l - x - x)
  {
    hide *;
    Same(x);
    Same(l);
    MulC(l, l, l, l);
    SmallC(x, x);
    AddC(FMul(l, l), l * l, FAdd(x, x), 2 * x);
    assert l * l - 2 * x == l * l - x - x;
  }

  lemma DoubleFacts(p: Affine)
    requires IsPrime(Q) && p.Reduced() && p.Pt? && p.y != 0
    ensures var l := Tangent(p); var d := Double(p);
            && d.Pt? && d.Reduced()
            && Cong(Q, l * (2 * p.y), 3 * (p.x * p.x) - 3)
            && Cong(Q, d.x, l * l - p.x - p.x)
            && Cong(Q, d.y, l * (p.x - d.x) - p.y)
  {
    TangentFacts(p);
    hide IsPrime, Cong, Tangent;
    TwiceXFacts(p.x, Tangent(p));
    LineYFacts(p, Tangent(p), Double(p).x);
  }

  lemma LineYFacts(p: Affine, l: int, x3: int)
    requires p.Pt?
    ensures Cong(Q, FSub(FMul(l, FSub(p.x, x3)), p.y), l * (p.x - x3) - p.y)
  {
    hide *;
    Same(p.x);
    Same(p.y);
    Same(l);
    Same(x3);
    AddC(p.x, p.x, x3, x3);
    MulC(l, l, FSub(p.x, x3), p.x - x3);
    AddC(FMul(l, FSub(p.x, x3)), l * (p.x - x3), p.y, p.y);
  }

  lemma ChordFacts(p: Affine, q: Affine)
    requires IsPrime(Q) && p.Reduced() && q.Reduced() && p.Pt? && q.Pt? && p.x != q.x
    ensures Cong(Q, Chord(p, q) * (q.x - p.x), q.y - p.y)
  {
    NonZeroDifference(q.x, p.x);
    assert Chord(p, q) == FMul(FSub(q.y, p.y), FInv(FSub(q.x, p.x)));
    hide *;
    Same(p.x);
    Same(p.y);
    Same(q.x);
    Same(q.y);
    AddC(q.y, q.y, p.y, p.y);
    AddC(q.x, q.x, p.x, p.x);
    Quotient(FSub(q.y, p.y), q.y - p.y, FSub(q.x, p.x), q.x - p.x);
  }

  lemma LineXFacts(a: int, b: int, l: int)
    ensures Cong(Q, FSub(FSub(FMul(l, l), a), b), l * l - a - b)
  {
    hide *;
    Same(a);
    Same(b);
    Same(l);
    MulC(l, l, l, l);
    AddC(FMul(l, l), l * l, a, a);
    AddC(FSub(FMul(l, l), a), l * l - a, b, b);
  }

  lemma AddFacts(p: Affine, q: Affine)
    requires IsPrime(Q) && p.Reduced() && q.Reduced() && p.Pt? && q.Pt? && p.x != q.x
    ensures var l := Chord(p, q); var d := Add(p, q);
            && d.Pt? && d.Reduced()
            && Cong(Q, l * (q.x - p.x), q.y - p.y)
            && Cong(Q, d.x, l * l - p.x - q.x)
            && Cong(Q, d.y, l * (p.x - d.x) - p.y)
  {
    ChordFacts(p, q);
    hide IsPrime, Cong, Chord;
    LineXFacts(p.x, q.x, Chord(p, q));
    LineYFacts(p, Chord(p, q), Add(p, q).x);
  }

  // ----- the affine formulas stay on the curve ----------------------------------

  /** Both sides of the curve equation, as the code evaluates them, and as polynomials. */
  lemma Sides(p: Affine) returns (lhs: int, rhs: int)
    requires p.Pt?
    ensures 0 <= lhs < Q && 0 <= rhs < Q && (p.OnCurve() <==> lhs == rhs)
    ensures Cong(Q, lhs, p.y * p.y) && Cong(Q, rhs, Cubic(p.x, B))
  {
    var xx := FMul(p.x, p.x);
    rhs := FAdd(FSub(FSub(FSub(FMul(xx, p.x), p.x), p.x), p.x), B);
    lhs := FMul(p.y, p.y);
    assert p.OnCurve() <==> lhs == rhs;
    assert 0 <= lhs < Q && 0 <= rhs < Q;
    hide Affine.OnCurve, FMul, FAdd, FSub, Cong;
    Same(p.x);
    Same(p.y);
    Same(B);
    MulC(p.y, p.y, p.y, p.y);
    MulC(p.x, p.x, p.x, p.x);
    MulC(xx, p.x * p.x, p.x, p.x);
    AddC(FMul(xx, p.x), p.x * p.x * p.x, p.x, p.x);
    AddC(FSub(FMul(xx, p.x), p.x), p.x * p.x * p.x - p.x, p.x, p.x);
    AddC(FSub(FSub(FMul(xx, p.x), p.x), p.x), p.x * p.x * p.x - p.x - p.x, p.x, p.x);
    AddC(FSub(FSub(FSub(FMul(xx, p.x), p.x), p.x), p.x), p.x * p.x * p.x - p.x - p.x - p.x, B, B);
  }

  lemma SameResidue(a: int, a': int, b: int, b': int)
    requires Cong(Q, a, a') && Cong(Q, b, b') && 0 <= a < Q && 0 <= b < Q
    ensures a == b <==> Cong(Q, a', b')
  {
    CongSym(Q, a, a');
    CongSym(Q, b, b');
    if a == b {
      CongTrans(Q, a', a, b');
    }
    if Cong(Q, a', b') {
      CongTrans(Q, a, a', b');
      CongTrans(Q, a, b', b);
      CongUnique(Q, a, b);
    }
  }

  lemma PointDoubleOnCurve(p: Affine)
    requires IsPrime(Q) && p.Reduced() && p.OnCurve() && p.Pt? && p.y != 0
    ensures Double(p).OnCurve()
  {
    hide *;
    var l, d := Tangent(p), Double(p);
    DoubleFacts(p);
    var lp, rp := Sides(p);
    var ld, rd := Sides(d);
    SameResidue(lp, p.y * p.y, rp, Cubic(p.x, B));
    SameResidue(ld, d.y * d.y, rd, Cubic(d.x, B));
    TangentSlope(Q, p.x, p.y, l, d.x);
    ThirdPoint(Q, p.x, p.y, p.x, B, l, d.x, d.y);
  }

  /** Doubling maps curve points to curve points or infinity. */
  lemma DoubleOnCurve(p: Affine)
    requires IsPrime(Q) && p.Reduced() && p.OnCurve()
    ensures Double(p).Reduced() && Double(p).OnCurve()
  {
    hide Cong, FMul, FAdd, FSub, IsPrime;
    if p.Pt? && p.y != 0 {
      DoubleFacts(p);
      PointDoubleOnCurve(p);
    }
  }

  lemma ChordOnCurve(p: Affine, q: Affine)
    requires IsPrime(Q) && p.Reduced() && p.OnCurve() && q.Reduced() && q.OnCurve()
    requires p.Pt? && q.Pt? && p.x != q.x
    ensures Add(p, q).OnCurve()
  {
    hide Cong, FMul, FAdd, FSub, FInv, IsPrime, Add, Chord, Affine.OnCurve, Cubic;
    var l, d := Chord(p, q), Add(p, q);
    AddFacts(p, q);
    NonZeroDifference(q.x, p.x);
    var lp, rp := Sides(p);
    var lq, rq := Sides(q);
    var ld, rd := Sides(d);
    SameResidue(lp, p.y * p.y, rp, Cubic(p.x, B));
    SameResidue(lq, q.y * q.y, rq, Cubic(q.x, B));
    SameResidue(ld, d.y * d.y, rd, Cubic(d.x, B));
    ChordSlope(Q, p.x, p.y, q.x, q.y, B, l, d.x);
    ThirdPoint(Q, p.x, p.y, q.x, B, l, d.x, d.y);
  }

  /** Adding maps curve points to curve points or infinity. */
  lemma AddOnCurve(p: Affine, q: Affine)
    requires IsPrime(Q) && p.Reduced() && p.OnCurve() && q.Reduced() && q.OnCurve()
    ensures Add(p, q).Reduced() && Add(p, q).OnCurve()
  {
    hide Cong, FMul, FAdd, FSub, FInv, IsPrime, Chord;
    if p.Infinity? || q.Infinity? {
    } else if p.x == q.x {
      DoubleOnCurve(p);
    } else {
      AddFacts(p, q);
      ChordOnCurve(p, q);
    }
  }

  /** Every multiple of a curve point, hence every accumulator of the affine ladder, is on the curve. */
  lemma {:induction false} TimesOnCurve(n: nat, p: Affine)
    requires IsPrime(Q) && p.Reduced() && p.OnCurve()
    ensures Times(n, p).Reduced() && Times(n, p).OnCurve()
  {
    if n > 0 {
      TimesOnCurve(n / 2, p);
      DoubleOnCurve(Times(n / 2, p));
      AddOnCurve(Double(Times(n / 2, p)), p);
      hide Affine.OnCurve, Add, Double;
    }
  }

  // ----- Jacobian points stand for affine points --------------------------------

  /** x = X / Z^2 and y = Y / Z^3 with Z nonzero. */
  ghost predicate Represents(j: Jacobian, a: Affine) {
    && j.Reduced() && a.Reduced()
    && (j.JInfinity? <==> a.Infinity?)
    && (j.JPt? ==> j.z != 0 && Cong(Q, j.x, a.x * (j.z * j.z)) && Cong(Q, j.y, a.y * (j.z * j.z * j.z)))
  }

  lemma FromPointRepresents(a: Affine)
    requires a.Reduced()
    ensures Represents(FromPoint(a), a)
  {
    if a.Pt? {
      assert a.x * (1 * 1) == a.x && a.y * (1 * 1 * 1) == a.y;
      Same(a.x);
      Same(a.y);
    }
  }

  lemma NonZeroProduct(a: int, b: int)
    requires IsPrime(Q) && !Cong(Q, a, 0) && !Cong(Q, b, 0)
    ensures !Cong(Q, a * b, 0)
  {
    if Cong(Q, a * b, 0) {
      NoZeroDivisors(Q, a, b);
    }
  }

  lemma ZeroTransfer(a: int, a': int)
    requires Cong(Q, a, a')
    ensures Cong(Q, a, 0) <==> Cong(Q, a', 0)
  {
    CongSym(Q, a, a');
    if Cong(Q, a, 0) {
      CongTrans(Q, a', a, 0);
    }
    if Cong(Q, a', 0) {
      CongTrans(Q, a, a', 0);
    }
  }

  lemma ZeroTimes(a: int, b: int)
    requires Cong(Q, a, 0)
    ensures Cong(Q, a * b, 0) && Cong(Q, b * a, 0)
  {
    Same(b);
    CongMul(Q, a, 0, b, b);
    assert 0 * b == 0;
    Commute(a, b);
  }

  /** Multiplying by a power of a nonzero Z neither hides nor makes a zero. */
  lemma ScaledZero(v: int, a: int, z: int)
    requires IsPrime(Q) && !Cong(Q, z, 0)
    requires Cong(Q, v, a * (z * z)) || Cong(Q, v, a * (z * z * z))
    ensures Cong(Q, v, 0) <==> Cong(Q, a, 0)
  {
    NonZeroProduct(z, z);
    NonZeroProduct(z * z, z);
    var w := if Cong(Q, v, a * (z * z)) then z * z else z * z * z;
    ZeroTransfer(v, a * w);
    if Cong(Q, a, 0) {
      ZeroTimes(a, w);
    } else {
      NonZeroProduct(a, w);
    }
  }

  // ----- doubling ----------------------------------------------------------------

  lemma DoubleAlpha(x: int, z: int)
    ensures Cong(Q, Thrice(FMul(FSub(x, FMul(z, z)), FAdd(x, FMul(z, z)))), 3 * ((x - z * z) * (x + z * z)))
  {
    var delta := FMul(z, z);
    hide *;
    Same(x);
    Same(z);
    MulC(z, z, z, z);
    AddC(x, x, delta, z * z);
    MulC(FSub(x, delta), x - z * z, FAdd(x, delta), x + z * z);
    SmallC(FMul(FSub(x, delta), FAdd(x, delta)), (x - z * z) * (x + z * z));
  }

  lemma DoubleBeta(x: int, y: int)
    ensures Cong(Q, FMul(x, FMul(y, y)), x * (y * y))
    ensures Cong(Q, Four(FMul(x, FMul(y, y))), 4 * (x * (y * y)))
    ensures Cong(Q, Eight(FMul(x, FMul(y, y))), 8 * (x * (y * y)))
    ensures Cong(Q, Eight(FMul(FMul(y, y), FMul(y, y))), 8 * ((y * y) * (y * y)))
  {
    hide *;
    Same(x);
    Same(y);
    MulC(y, y, y, y);
    MulC(x, x, FMul(y, y), y * y);
    SmallC(FMul(x, FMul(y, y)), x * (y * y));
    MulC(FMul(y, y), y * y, FMul(y, y), y * y);
    SmallC(FMul(FMul(y, y), FMul(y, y)), (y * y) * (y * y));
  }

  lemma DoubleXPart(a: int, a': int, e: int, t: int)
    requires Cong(Q, a, a') && Cong(Q, e, 8 * t)
    ensures Cong(Q, FSub(FMul(a, a), e), a' * a' - 4 * t - 4 * t)
  {
    hide *;
    MulC(a, a', a, a');
    AddC(FMul(a, a), a' * a', e, 8 * t);
    assert a' * a' - 8 * t == a' * a' - 4 * t - 4 * t;
  }

  lemma DoubleYPart(a: int, a': int, f: int, f': int, g: int, g': int, x3: int)
    requires Cong(Q, a, a') && Cong(Q, f, f') && Cong(Q, g, g')
    ensures Cong(Q, FSub(FMul(a, FSub(f, x3)), g), a' * (f' - x3) - g')
  {
    hide *;
    Same(x3);
    AddC(f, f', x3, x3);
    MulC(a, a', FSub(f, x3), f' - x3);
    AddC(FMul(a, FSub(f, x3)), a' * (f' - x3), g, g');
  }

  lemma CrossTerm(y: int, z: int)
    ensures Cong(Q, FSub(FSub(FMul(FAdd(y, z), FAdd(y, z)), FMul(y, y)), FMul(z, z)), 2 * (y * z))
  {
    var s := FAdd(y, z);
    DoublePolynomials(y, z);
    hide *;
    Same(y);
    Same(z);
    MulC(y, y, y, y);
    MulC(z, z, z, z);
    AddC(y, y, z, z);
    MulC(s, y + z, s, y + z);
    AddC(FMul(s, s), (y + z) * (y + z), FMul(y, y), y * y);
    AddC(FSub(FMul(s, s), FMul(y, y)), (y + z) * (y + z) - y * y, FMul(z, z), z * z);
  }

  /** What the doubling code computes, as polynomials in X, Y, Z. */
  lemma JDoubleFormula(p: Jacobian)
    requires p.JPt? && p.y != 0
    ensures var d := JDouble(p); var a := 3 * ((p.x - p.z * p.z) * (p.x + p.z * p.z)); var t := 4 * (p.x * (p.y * p.y));
            && d.JPt? && d.Reduced()
            && Cong(Q, d.x, a * a - t - t)
            && Cong(Q, d.y, a * (t - d.x) - 8 * (p.y * (p.y * p.y * p.y)))
            && Cong(Q, d.z, 2 * (p.y * p.z))
  {
    var X, Y, Z := p.x, p.y, p.z;
    var delta, gamma := FMul(Z, Z), FMul(Y, Y);
    var beta, g2 := FMul(X, gamma), FMul(gamma, gamma);
    var alpha := Thrice(FMul(FSub(X, delta), FAdd(X, delta)));
    var d := JDouble(p);
    assert d.x == FSub(FMul(alpha, alpha), Eight(beta));
    assert d.y == FSub(FMul(alpha, FSub(Four(beta), d.x)), Eight(g2));
    assert d.z == FSub(FSub(FMul(FAdd(Y, Z), FAdd(Y, Z)), gamma), delta);
    assert d.Reduced();
    DoublePolynomials(Y, Z);
    hide *;
    DoubleAlpha(X, Z);
    DoubleBeta(X, Y);
    DoubleXPart(alpha, 3 * ((X - Z * Z) * (X + Z * Z)), Eight(beta), X * (Y * Y));
    DoubleYPart(alpha, 3 * ((X - Z * Z) * (X + Z * Z)), Four(beta), 4 * (X * (Y * Y)),
                Eight(g2), 8 * ((Y * Y) * (Y * Y)), d.x);
    CrossTerm(Y, Z);
  }

  lemma DoublePolynomials(y: int, z: int)
    ensures (y + z) * (y + z) - y * y - z * z == 2 * (y * z)
    ensures (y * y) * (y * y) == y * (y * y * y)
  {
  }

  lemma JDoubleSimulates(j: Jacobian, a: Affine)
    requires IsPrime(Q) && Represents(j, a)
    ensures Represents(JDouble(j), Double(a))
  {
    if j.JPt? {
      ZeroIff(j.z);
      ZeroIff(j.y);
      ScaledZero(j.y, a.y, j.z);
      ZeroIff(a.y);
      if j.y != 0 {
        JDoublePoint(j, a);
      }
    }
  }

  lemma JDoublePoint(j: Jacobian, a: Affine)
    requires IsPrime(Q) && Represents(j, a) && j.JPt? && j.y != 0 && a.y != 0
    ensures Represents(JDouble(j), Double(a))
  {
    hide JDouble, Double, Tangent, Cong, IsPrime, Q;
    var d, q, l := JDouble(j), Double(a), Tangent(a);
    var s, t := 3 * ((j.x - j.z * j.z) * (j.x + j.z * j.z)), 4 * (j.x * (j.y * j.y));
    JDoubleFormula(j);
    DoubleFacts(a);
    ZeroIff(j.z);
    ZeroIff(j.y);
    ZeroIff(d.z);
    NonZeroProduct(j.y, j.z);
    TwiceNonZero(j.y * j.z);
    ZeroTransfer(d.z, 2 * (j.y * j.z));
    DoubleSlope(Q, j.x, j.y, j.z, a.x, a.y, l, d.z);
    ScaledSquare(Q, j.x, j.y, j.z, a.x, d.z);
    ScaledCube(Q, j.y, j.y, j.z, a.y, d.z);
    LineX(Q, s, t, t, a.x, a.x, l, q.x, d.x, d.z);
    LineY(Q, s, t, 8 * (j.y * (j.y * j.y * j.y)), a.x, a.y, l, q.x, q.y, d.x, d.y, d.z);
  }

  lemma TwiceNonZero(a: int)
    requires IsPrime(Q) && !Cong(Q, a, 0)
    ensures !Cong(Q, 2 * a, 0)
  {
    ZeroIff(2);
    NonZeroProduct(2, a);
  }

  // ----- mixed addition -----------------------------------------------------------

  /** The x and y offsets the addition code tests for zero. */
  function HOf(a: Jacobian, b: Affine): int
    requires a.JPt? && b.Pt?
  {
    FSub(FMul(b.x, FMul(a.z, a.z)), a.x)
  }

  function DOf(a: Jacobian, b: Affine): int
    requires a.JPt? && b.Pt?
  {
    FSub(FMul(FMul(a.z, FMul(a.z, a.z)), b.y), a.y)
  }

  lemma OffsetIdentity(u: int, x1: int, x2: int, w: int)
    ensures (x2 - x1) * w - (x2 * w - u) == u - x1 * w
  {
  }

  lemma OffsetC(u: int, x1: int, x2: int, w: int)
    requires Cong(Q, u, x1 * w)
    ensures Cong(Q, x2 * w - u, (x2 - x1) * w)
  {
    OffsetIdentity(u, x1, x2, w);
    CongSym(Q, u, x1 * w);
    assert x2 * w - u - (x2 - x1) * w == x1 * w - u;
  }

  lemma Offsets(j: Jacobian, p: Affine, q: Affine)
    requires Represents(j, p) && j.JPt? && q.Pt?
    ensures Cong(Q, HOf(j, q), (q.x - p.x) * (j.z * j.z))
    ensures Cong(Q, DOf(j, q), (q.y - p.y) * (j.z * j.z * j.z))
  {
    var z := j.z;
    var zz := FMul(z, z);
    hide Cong, FMul, FSub;
    Same(z);
    Same(q.x);
    Same(q.y);
    Same(j.x);
    Same(j.y);
    MulC(z, z, z, z);
    MulC(q.x, q.x, zz, z * z);
    AddC(FMul(q.x, zz), q.x * (z * z), j.x, j.x);
    OffsetC(j.x, p.x, q.x, z * z);
    CongTrans(Q, HOf(j, q), q.x * (z * z) - j.x, (q.x - p.x) * (z * z));
    MulC(z, z, zz, z * z);
    MulC(FMul(z, zz), z * (z * z), q.y, q.y);
    CubeShape(z, q.y);
    AddC(FMul(FMul(z, zz), q.y), q.y * (z * z * z), j.y, j.y);
    OffsetC(j.y, p.y, q.y, z * z * z);
    CongTrans(Q, DOf(j, q), q.y * (z * z * z) - j.y, (q.y - p.y) * (z * z * z));
  }

  lemma CubeShape(z: int, y: int)
    ensures (z * (z * z)) * y == y * (z * z * z)
  {
  }

  lemma AddXPart(r: int, r': int, j: int, j': int, v: int, v': int)
    requires Cong(Q, r, r') && Cong(Q, j, j') && Cong(Q, v, v')
    ensures Cong(Q, FSub(FSub(FMul(r, r), j), FAdd(v, v)), r' * r' - v' - (v' + j'))
  {
    hide *;
    MulC(r, r', r, r');
    AddC(FMul(r, r), r' * r', j, j');
    AddC(v, v', v, v');
    AddC(FSub(FMul(r, r), j), r' * r' - j', FAdd(v, v), v' + v');
    assert r' * r' - j' - (v' + v') == r' * r' - v' - (v' + j');
  }

  lemma AddYPart(r: int, r': int, j: int, j': int, v: int, v': int, y: int, x3: int)
    requires Cong(Q, r, r') && Cong(Q, j, j') && Cong(Q, v, v')
    ensures Cong(Q, FSub(FMul(r, FSub(v, x3)), FAdd(FMul(y, j), FMul(y, j))), r' * (v' - x3) - (y * j' + y * j'))
  {
    hide *;
    Same(x3);
    Same(y);
    AddC(v, v', x3, x3);
    MulC(r, r', FSub(v, x3), v' - x3);
    MulC(y, y, j, j');
    AddC(FMul(y, j), y * j', FMul(y, j), y * j');
    AddC(FMul(r, FSub(v, x3)), r' * (v' - x3), FAdd(FMul(y, j), FMul(y, j)), y * j' + y * j');
  }

  /** What the general branch of the addition code computes. */
  lemma JAddFormula(a: Jacobian, b: Affine)
    requires a.JPt? && b.Pt? && HOf(a, b) != 0
    ensures var c := JAddMixed(a, b); var h := HOf(a, b); var r := 2 * DOf(a, b);
            var v := 4 * (a.x * (h * h)); var jj := 4 * (h * (h * h));
            && c.JPt? && c.Reduced()
            && Cong(Q, c.x, r * r - v - (v + jj))
            && Cong(Q, c.y, r * (v - c.x) - 8 * (a.y * (h * h * h)))
            && Cong(Q, c.z, 2 * (h * a.z))
  {
    var X, Y, Z, h, d := a.x, a.y, a.z, HOf(a, b), DOf(a, b);
    var r, hh := FAdd(d, d), FMul(h, h);
    var i := Four(hh);
    var j := FMul(h, i);
    var v := FMul(X, i);
    var c := JAddMixed(a, b);
    assert c.x == FSub(FSub(FMul(r, r), j), FAdd(v, v));
    assert c.y == FSub(FMul(r, FSub(v, c.x)), FAdd(FMul(Y, j), FMul(Y, j)));
    assert c.z == FSub(FSub(FMul(FAdd(Z, h), FAdd(Z, h)), FMul(Z, Z)), hh);
    assert c.Reduced();
    AddPolynomials(X, Y, h);
    hide *;
    Same(X);
    Same(h);
    Same(d);
    SmallC(d, d);
    MulC(h, h, h, h);
    SmallC(hh, h * h);
    MulC(h, h, i, 4 * (h * h));
    MulC(X, X, i, 4 * (h * h));
    AddXPart(r, 2 * d, j, h * (4 * (h * h)), v, X * (4 * (h * h)));
    AddYPart(r, 2 * d, j, h * (4 * (h * h)), v, X * (4 * (h * h)), Y, c.x);
    CrossTerm(Z, h);
    Commute(Z, h);
  }

  lemma AddPolynomials(x: int, y: int, h: int)
    ensures x * (4 * (h * h)) == 4 * (x * (h * h)) && h * (4 * (h * h)) == 4 * (h * (h * h))
    ensures y * (h * (4 * (h * h))) + y * (h * (4 * (h * h))) == 8 * (y * (h * h * h))
  {
  }

  lemma JAddSimulates(j: Jacobian, p: Affine, q: Affine)
    requires IsPrime(Q) && Represents(j, p) && q.Reduced()
    ensures Represents(JAddMixed(j, q), Add(p, q))
  {
    if j.JInfinity? {
      FromPointRepresents(q);
    } else if q.Infinity? {
    } else {
      var h, d := HOf(j, q), DOf(j, q);
      Offsets(j, p, q);
      ZeroIff(j.z);
      ZeroIff(h);
      ZeroIff(d);
      ScaledZero(h, q.x - p.x, j.z);
      ScaledZero(d, q.y - p.y, j.z);
      EqualIff(q.x, p.x);
      EqualIff(q.y, p.y);
      assert h == 0 <==> p.x == q.x;
      assert d == 0 <==> p.y == q.y;
      if h != 0 {
        JAddPoint(j, p, q);
      } else if d == 0 {
        JDoubleSimulates(j, p);
      }
    }
  }

  lemma EqualIff(a: int, b: int)
    requires 0 <= a < Q && 0 <= b < Q
    ensures Cong(Q, a - b, 0) <==> a == b
  {
    if a != b {
      NonZeroDifference(a, b);
    }
  }

  lemma OffsetRange(j: Jacobian, q: Affine)
    requires j.JPt? && q.Pt?
    ensures 0 <= HOf(j, q) < Q
  {
  }

  lemma JAddPoint(j: Jacobian, p: Affine, q: Affine)
    requires IsPrime(Q) && Represents(j, p) && j.JPt? && q.Reduced() && q.Pt?
    requires HOf(j, q) != 0 && p.x != q.x
    ensures Represents(JAddMixed(j, q), Add(p, q))
  {
    hide HOf, DOf, JAddMixed, Add, Chord, Cong, IsPrime, Q;
    var c, e, l := JAddMixed(j, q), Add(p, q), Chord(p, q);
    var h, d := HOf(j, q), DOf(j, q);
    var v, jj := 4 * (j.x * (h * h)), 4 * (h * (h * h));
    OffsetRange(j, q);
    JAddFormula(j, q);
    AddFacts(p, q);
    Offsets(j, p, q);
    ZeroIff(j.z);
    ZeroIff(h);
    ZeroIff(c.z);
    NonZeroProduct(h, j.z);
    TwiceNonZero(h * j.z);
    ZeroTransfer(c.z, 2 * (h * j.z));
    AddSlope(Q, h, d, j.z, p.x, p.y, q.x, q.y, l, c.z);
    ScaledSquare(Q, j.x, h, j.z, p.x, c.z);
    ScaledSquare(Q, h, h, j.z, q.x - p.x, c.z);
    CongAdd(Q, v, p.x * (c.z * c.z), jj, (q.x - p.x) * (c.z * c.z));
    SumOfParts(p.x, q.x, c.z * c.z);
    ScaledCube(Q, j.y, h, j.z, p.y, c.z);
    LineX(Q, 2 * d, v, v + jj, p.x, q.x, l, e.x, c.x, c.z);
    LineY(Q, 2 * d, v, 8 * (j.y * (h * h * h)), p.x, p.y, l, e.x, e.y, c.x, c.y, c.z);
  }

  lemma SumOfParts(a: int, b: int, w: int)
    ensures a * w + (b - a) * w == b * w
  {
  }

  // ----- the ladders ---------------------------------------------------------------

  lemma {:induction false} JTimesSimulates(n: nat, p: Affine)
    requires IsPrime(Q) && p.Reduced()
    ensures Represents(JTimes(n, p), Times(n, p))
  {
    if n > 0 {
      JTimesSimulates(n / 2, p);
      JDoubleSimulates(JTimes(n / 2, p), Times(n / 2, p));
      JAddSimulates(JDouble(JTimes(n / 2, p)), Double(Times(n / 2, p)), p);
      hide Represents, Add, Double, JAddMixed, JDouble;
    }
  }

  /** Dividing out Z recovers the affine point exactly. */
  lemma ToPointRecovers(j: Jacobian, a: Affine)
    requires IsPrime(Q) && Represents(j, a)
    ensures ToPoint(j) == a
  {
    if j.JPt? {
      var zi := FInv(j.z);
      var z2 := FMul(zi, zi);
      ZeroIff(j.z);
      InverseIsInverse(Q, j.z);
      CongMod(Q, j.z * zi);
      CongSym(Q, FMul(j.z, zi), j.z * zi);
      assert Cong(Q, j.z * zi, 1);
      var t := ToPoint(j);
      assert t == Pt(FMul(j.x, z2), FMul(j.y, FMul(z2, zi))) && t.Reduced();
      hide FInv, FMul, Cong, IsPrime, Q, ToPoint;
      Same(zi);
      MulC(zi, zi, zi, zi);
      MulC(z2, zi * zi, zi, zi);
      MulC(j.x, a.x * (j.z * j.z), z2, zi * zi);
      MulC(j.y, a.y * (j.z * j.z * j.z), FMul(z2, zi), zi * zi * zi);
      CancelPowers(a.x, a.y, j.z, zi);
      CongTrans(Q, t.x, (a.x * (j.z * j.z)) * (zi * zi), a.x);
      CongTrans(Q, t.y, (a.y * (j.z * j.z * j.z)) * (zi * zi * zi), a.y);
      CongUnique(Q, t.x, a.x);
      CongUnique(Q, t.y, a.y);
    }
  }

  lemma CancelPowers(x: int, y: int, z: int, i: int)
    requires Cong(Q, z * i, 1)
    ensures Cong(Q, (x * (z * z)) * (i * i), x)
    ensures Cong(Q, (y * (z * z * z)) * (i * i * i), y)
  {
    hide Cong;
    var u := z * i;
    CongMul(Q, u, 1, u, 1);
    CongMul(Q, u * u, 1 * 1, u, 1);
    Same(x);
    Same(y);
    CongMul(Q, x, x, u * u, 1 * 1);
    CongMul(Q, y, y, u * u * u, 1 * 1 * 1);
    PowerShapes(x, y, z, i);
  }

  lemma PowerShapes(x: int, y: int, z: int, i: int)
    ensures x * ((z * i) * (z * i)) == (x * (z * z)) * (i * i)
    ensures y * ((z * i) * (z * i) * (z * i)) == (y * (z * z * z)) * (i * i * i)
    ensures x * (1 * 1) == x && y * (1 * 1 * 1) == y
  {
  }

  /** For every scalar and every point with coordinates below the modulus, on the curve or
      not, the Jacobian ladder and the affine ladder return the same point. */
  lemma LaddersAgree(n: nat, p: Affine)
    requires IsPrime(Q) && p.Reduced()
    ensures ToPoint(JTimes(n, p)) == Times(n, p)
  {
    JTimesSimulates(n, p);
    ToPointRecovers(JTimes(n, p), Times(n, p));
  }

  // ----- one ladder step, on the numbers --------------------------------------------

  lemma TimesStep(t: nat, b: int, p: Affine)
    requires 0 <= b <= 1
    ensures Times(2 * t + b, p) == if b == 1 then Add(Double(Times(t, p)), p) else Double(Times(t, p))
    ensures JTimes(2 * t + b, p) == if b == 1 then JAddMixed(JDouble(JTimes(t, p)), p) else JDouble(JTimes(t, p))
  {
    assert (2 * t + b) / 2 == t && (2 * t + b) % 2 == b;
    hide Add, Tangent, Chord, FAdd, FMul, FSub, Four, Eight, Thrice;
  }

  lemma {:induction false} TimesReduced(n: nat, p: Affine)
    requires p.Reduced()
    ensures Times(n, p).Reduced() && JTimes(n, p).Reduced()
  {
    if n > 0 {
      TimesReduced(n / 2, p);
      StepReduced(Times(n / 2, p), JTimes(n / 2, p), p);
      hide Add, Double, JDouble, JAddMixed;
    }
  }

  lemma StepReduced(a: Affine, j: Jacobian, p: Affine)
    requires a.Reduced() && j.Reduced() && p.Reduced()
    ensures Double(a).Reduced() && Add(Double(a), p).Reduced()
    ensures JDouble(j).Reduced() && JAddMixed(JDouble(j), p).Reduced()
  {
    SumsReduced(a, p);
    SumsReduced(Double(a), p);
    JSumsReduced(j, p);
    JSumsReduced(JDouble(j), p);
  }

  lemma SumsReduced(a: Affine, p: Affine)
    requires a.Reduced() && p.Reduced()
    ensures Double(a).Reduced() && Add(a, p).Reduced()
  {
  }

  lemma JSumsReduced(j: Jacobian, p: Affine)
    requires j.Reduced() && p.Reduced()
    ensures JDouble(j).Reduced() && JAddMixed(j, p).Reduced()
  {
  }
}
