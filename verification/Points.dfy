/** Points and the two scalar-multiplication ladders of drivers/p256.c, as objects
    updated through out pointers. A field element is a value of eight limbs. */
module Points {
  import opened Numeral
  import opened Limbs
  import opened ModArith
  import opened Field
  import opened Curve
  import opened Ladder

  type Fe = s: seq<u32> | |s| == LIMBS witness [0, 0, 0, 0, 0, 0, 0, 0]

  ghost predicate Small(a: Fe) {
    Num(a) < P
  }

  const ZERO: Fe := [0, 0, 0, 0, 0, 0, 0, 0]
  const ONE: Fe := [1, 0, 0, 0, 0, 0, 0, 0]

  lemma ConstantValues()
    ensures Num(ZERO) == 0 && Num(ONE) == 1 && Num([3, 0, 0, 0, 0, 0, 0, 0]) == 3
  {
    Num8(ZERO);
    Num8(ONE);
    Num8([3, 0, 0, 0, 0, 0, 0, 0]);
  }

  // ----- field operations on values -------------------------------------------

  method Plus(a: Fe, b: Fe) returns (r: Fe)
    ensures Num(r) == AddOnce(Num(a), Num(b))
    ensures Small(a) && Small(b) ==> Num(r) == FAdd(Num(a), Num(b)) && Small(r)
  {
    var out := new u32[LIMBS];
    var x := Copy(a);
    var y := Copy(b);
    QIsP();
    FeAdd(out, x, y);
    NumBound(a);
    NumBound(b);
    if Small(a) && Small(b) {
      OnceIsMod(Num(a), Num(b));
    }
    r := out[..];
  }

  method Minus(a: Fe, b: Fe) returns (r: Fe)
    ensures Num(r) == SubOnce(Num(a), Num(b))
    ensures Small(a) && Small(b) ==> Num(r) == FSub(Num(a), Num(b)) && Small(r)
  {
    var out := new u32[LIMBS];
    var x := Copy(a);
    var y := Copy(b);
    QIsP();
    FeSub(out, x, y);
    NumBound(a);
    NumBound(b);
    if Small(a) && Small(b) {
      OnceIsMod(Num(a), Num(b));
    }
    r := out[..];
  }

  method Multiply(a: Fe, b: Fe) returns (r: Fe)
    ensures Num(r) == FMul(Num(a), Num(b)) && Small(r)
  {
    var out := new u32[LIMBS];
    var x := Copy(a);
    var y := Copy(b);
    QIsP();
    FeMul(out, x, y);
    r := out[..];
  }

  method Square(a: Fe) returns (r: Fe)
    ensures Num(r) == FMul(Num(a), Num(a)) && Small(r)
  {
    r := Multiply(a, a);
  }

  method Inverse(a: Fe) returns (r: Fe)
    ensures Num(r) == FInv(Num(a)) && Small(r)
  {
    var out := new u32[LIMBS];
    var x := Copy(a);
    QIsP();
    FeInv(out, x);
    r := out[..];
  }

  method IsZero(a: Fe) returns (z: bool)
    ensures z <==> Num(a) == 0
  {
    z := true;
    for i := 0 to LIMBS
      invariant z <==> forall k :: 0 <= k < i ==> a[k] == 0
    {
      if a[i] != 0 {
        z := false;
      }
    }
    Num8(a);
  }

  method Equal(a: Fe, b: Fe) returns (e: bool)
    ensures e <==> Num(a) == Num(b)
  {
    var x := Copy(a);
    var y := Copy(b);
    var c := Cmp(x, y);
    e := c == 0;
  }

  method FromBytes(src: seq<byte>) returns (r: Fe)
    requires |src| == 32
    ensures Num(r) == BeVal(src)
  {
    var out := new u32[LIMBS];
    FeFromBe32(out, src);
    r := out[..];
  }

  method LessThanP(a: Fe) returns (b: bool)
    ensures b <==> Small(a)
  {
    ModulusValues();
    var x := Copy(a);
    var p := Copy(P_LIMBS);
    var c := Cmp(x, p);
    b := c < 0;
  }

  method TimesTwo(a: Fe) returns (r: Fe)
    requires Small(a)
    ensures Num(r) == FAdd(Num(a), Num(a)) && Small(r)
  {
    r := Plus(a, a);
  }

  method TimesThree(a: Fe) returns (r: Fe)
    requires Small(a)
    ensures Num(r) == Thrice(Num(a)) && Small(r)
  {
    var tmp := Plus(a, a);
    r := Plus(tmp, a);
  }

  method TimesFour(a: Fe) returns (r: Fe)
    requires Small(a)
    ensures Num(r) == Four(Num(a)) && Small(r)
  {
    var tmp := TimesTwo(a);
    r := TimesTwo(tmp);
  }

  method TimesEight(a: Fe) returns (r: Fe)
    requires Small(a)
    ensures Num(r) == Eight(Num(a)) && Small(r)
  {
    var tmp := TimesFour(a);
    r := TimesTwo(tmp);
  }

  // ----- affine points -----------------------------------------------------------

  class Point {
    var x: Fe
    var y: Fe
    var infinity: bool

    ghost function Abs(): (a: Affine)
      reads this
    {
      if infinity then Infinity else Pt(Num(x), Num(y))
    }

    constructor ()
      ensures Abs() == Infinity
    {
      x, y, infinity := ZERO, ZERO, true;
    }

    method Assign(p: Point)
      modifies this
      ensures Abs() == old(p.Abs())
    {
      x, y, infinity := p.x, p.y, p.infinity;
    }
  }

  lemma ReducedIsSmall(p: Point)
    ensures p.Abs().Reduced() <==> (!p.infinity ==> Small(p.x) && Small(p.y))
  {
    QIsP();
    NumBound(p.x);
    NumBound(p.y);
  }

  method PointOnCurve(p: Point) returns (b: bool)
    requires p.Abs().Reduced()
    ensures b <==> p.Abs().OnCurve()
  {
    if p.infinity {
      return true;
    }
    ReducedIsSmall(p);
    var bytes: seq<byte> := [
      0x5A, 0xC6, 0x35, 0xD8, 0xAA, 0x3A, 0x93, 0xE7, 0xB3, 0xEB, 0xBD, 0x55, 0x76, 0x98, 0x86, 0xBC,
      0x65, 0x1D, 0x06, 0xB0, 0xCC, 0x53, 0xB0, 0xF6, 0x3B, 0xCE, 0x3C, 0x3E, 0x27, 0xD2, 0x60, 0x4B
    ];
    BValue(bytes);
    var coefficient := FromBytes(bytes);
    hide FMul, FAdd, FSub, AddOnce, SubOnce, Num;
    var y2 := Square(p.y);
    var x2 := Square(p.x);
    var x3 := Multiply(x2, p.x);
    var rhs := Minus(x3, p.x);
    rhs := Minus(rhs, p.x);
    rhs := Minus(rhs, p.x);
    rhs := Plus(rhs, coefficient);
    b := Equal(y2, rhs);
  }

  lemma BValue(bytes: seq<byte>)
    requires bytes == [
      0x5A, 0xC6, 0x35, 0xD8, 0xAA, 0x3A, 0x93, 0xE7, 0xB3, 0xEB, 0xBD, 0x55, 0x76, 0x98, 0x86, 0xBC,
      0x65, 0x1D, 0x06, 0xB0, 0xCC, 0x53, 0xB0, 0xF6, 0x3B, 0xCE, 0x3C, 0x3E, 0x27, 0xD2, 0x60, 0x4B
    ]
    ensures BeVal(bytes) == B && B < P
  {
    var t: seq<u32> := [0x27D2604B, 0x3BCE3C3E, 0xCC53B0F6, 0x651D06B0, 0x769886BC, 0xB3EBBD55, 0xAA3A93E7, 0x5AC635D8];
    Num8(t);
    assert Be32(bytes, 28) == t[0] && Be32(bytes, 24) == t[1];
    assert Be32(bytes, 20) == t[2] && Be32(bytes, 16) == t[3];
    assert Be32(bytes, 12) == t[4] && Be32(bytes, 8) == t[5];
    assert Be32(bytes, 4) == t[6] && Be32(bytes, 0) == t[7];
    hide Be32, Num;
    BeValOfLimbs(bytes, t);
  }

  /** Accepts exactly the reduced coordinates of curve points. */
  method PointFromBe32(out: Point, x: seq<byte>, y: seq<byte>) returns (ok: bool)
    requires |x| == 32 && |y| == 32
    modifies out
    ensures ok <==> BeVal(x) < P && BeVal(y) < P && Pt(BeVal(x), BeVal(y)).OnCurve()
    ensures out.Abs() == if ok then Pt(BeVal(x), BeVal(y)) else Infinity
  {
    var fx := FromBytes(x);
    var fy := FromBytes(y);
    var okx := LessThanP(fx);
    var oky := LessThanP(fy);
    if !okx || !oky {
      out.x, out.y, out.infinity := ZERO, ZERO, true;
      return false;
    }
    out.x, out.y, out.infinity := fx, fy, false;
    ReducedIsSmall(out);
    ok := PointOnCurve(out);
    if !ok {
      out.x, out.y, out.infinity := ZERO, ZERO, true;
    }
  }

  method PointDouble(out: Point, p: Point)
    requires p.Abs().Reduced()
    modifies out
    ensures out.Abs() == Double(old(p.Abs()))
  {
    hide FMul, FAdd, FSub, FInv, AddOnce, SubOnce, Num;
    ReducedIsSmall(p);
    ConstantValues();
    var yZero := IsZero(p.y);
    if p.infinity || yZero {
      out.Assign(p);
      out.infinity := true;
      return;
    }
    var x2 := Square(p.x);
    var num := Plus(x2, x2);
    num := Plus(num, x2);
    num := Minus(num, [3, 0, 0, 0, 0, 0, 0, 0]);
    var den := Plus(p.y, p.y);
    var inv := Inverse(den);
    var lambda := Multiply(num, inv);
    var lambda2 := Square(lambda);
    var two_x := Plus(p.x, p.x);
    var x3 := Minus(lambda2, two_x);
    var tmp := Minus(p.x, x3);
    tmp := Multiply(lambda, tmp);
    var y3 := Minus(tmp, p.y);
    out.x, out.y, out.infinity := x3, y3, false;
  }

  method PointAdd(out: Point, a: Point, b: Point)
    requires a.Abs().Reduced() && b.Abs().Reduced()
    modifies out
    ensures out.Abs() == Add(old(a.Abs()), old(b.Abs()))
  {
    hide FMul, FAdd, FSub, FInv, AddOnce, SubOnce, Num;
    ReducedIsSmall(a);
    ReducedIsSmall(b);
    if a.infinity {
      out.Assign(b);
      return;
    }
    if b.infinity {
      out.Assign(a);
      return;
    }
    var sameX := Equal(a.x, b.x);
    if sameX {
      var sameY := Equal(a.y, b.y);
      if sameY {
        PointDouble(out, a);
      } else {
        out.Assign(a);
        out.infinity := true;
      }
      return;
    }
    var dy := Minus(b.y, a.y);
    var dx := Minus(b.x, a.x);
    var inv := Inverse(dx);
    var lambda := Multiply(dy, inv);
    var lambda2 := Square(lambda);
    var x3 := Minus(lambda2, a.x);
    x3 := Minus(x3, b.x);
    var tmp := Minus(a.x, x3);
    tmp := Multiply(lambda, tmp);
    var y3 := Minus(tmp, a.y);
    out.x, out.y, out.infinity := x3, y3, false;
  }

  // ----- Jacobian points -----------------------------------------------------------

  class JacobianPoint {
    var x: Fe
    var y: Fe
    var z: Fe
    var infinity: bool

    ghost function Abs(): (j: Jacobian)
      reads this
    {
      if infinity then JInfinity else JPt(Num(x), Num(y), Num(z))
    }

    constructor ()
      ensures Abs() == JInfinity
    {
      x, y, z, infinity := ZERO, ZERO, ZERO, true;
    }

    method SetInfinity()
      modifies this
      ensures Abs() == JInfinity
    {
      x, y, z, infinity := ZERO, ZERO, ZERO, true;
    }

    method FromAffine(p: Point)
      modifies this
      ensures Abs() == FromPoint(p.Abs())
    {
      ConstantValues();
      if p.infinity {
        SetInfinity();
      } else {
        x, y, z, infinity := p.x, p.y, ONE, false;
      }
    }
  }

  lemma JReducedIsSmall(p: JacobianPoint)
    ensures p.Abs().Reduced() <==> (!p.infinity ==> Small(p.x) && Small(p.y) && Small(p.z))
  {
    QIsP();
    NumBound(p.x);
    NumBound(p.y);
    NumBound(p.z);
  }

  method JacobianToPoint(out: Point, p: JacobianPoint)
    modifies out
    ensures out.Abs() == ToPoint(p.Abs())
  {
    hide FMul, FInv, Num;
    var zZero := IsZero(p.z);
    if p.infinity || zZero {
      out.x, out.y, out.infinity := ZERO, ZERO, true;
      return;
    }
    var zinv := Inverse(p.z);
    var z2 := Square(zinv);
    var z3 := Multiply(z2, zinv);
    var ox := Multiply(p.x, z2);
    var oy := Multiply(p.y, z3);
    out.x, out.y, out.infinity := ox, oy, false;
  }

  method JacobianDouble(out: JacobianPoint, p: JacobianPoint)
    requires p.Abs().Reduced()
    modifies out
    ensures out.Abs() == JDouble(old(p.Abs()))
  {
    hide FMul, FAdd, FSub, AddOnce, SubOnce, Num, Thrice, Four, Eight;
    JReducedIsSmall(p);
    var yZero := IsZero(p.y);
    if p.infinity || yZero {
      out.SetInfinity();
      return;
    }
    var delta := Square(p.z);
    var gamma := Square(p.y);
    var beta := Multiply(p.x, gamma);
    var xMinusDelta := Minus(p.x, delta);
    var xPlusDelta := Plus(p.x, delta);
    var alpha := Multiply(xMinusDelta, xPlusDelta);
    alpha := TimesThree(alpha);
    var alpha2 := Square(alpha);
    var eightBeta := TimesEight(beta);
    var x3 := Minus(alpha2, eightBeta);
    var fourBeta := TimesFour(beta);
    var tmp := Minus(fourBeta, x3);
    tmp := Multiply(alpha, tmp);
    var gamma2 := Square(gamma);
    var eightGamma2 := TimesEight(gamma2);
    var y3 := Minus(tmp, eightGamma2);
    var yPlusZ := Plus(p.y, p.z);
    var z3 := Square(yPlusZ);
    z3 := Minus(z3, gamma);
    z3 := Minus(z3, delta);
    out.x, out.y, out.z, out.infinity := x3, y3, z3, false;
  }

  method JacobianAddMixed(out: JacobianPoint, a: JacobianPoint, b: Point)
    requires a.Abs().Reduced() && b.Abs().Reduced()
    modifies out
    ensures out.Abs() == JAddMixed(old(a.Abs()), b.Abs())
  {
    hide FMul, FAdd, FSub, AddOnce, SubOnce, Num, Four, JDouble;
    JReducedIsSmall(a);
    ReducedIsSmall(b);
    if a.infinity {
      out.FromAffine(b);
      return;
    }
    if b.infinity {
      out.x, out.y, out.z, out.infinity := a.x, a.y, a.z, a.infinity;
      return;
    }
    var z1z1 := Square(a.z);
    var u2 := Multiply(b.x, z1z1);
    var s2 := Multiply(a.z, z1z1);
    s2 := Multiply(s2, b.y);
    var h := Minus(u2, a.x);
    var r := Minus(s2, a.y);
    var hZero := IsZero(h);
    if hZero {
      var rZero := IsZero(r);
      if rZero {
        JacobianDouble(out, a);
      } else {
        out.SetInfinity();
      }
      return;
    }
    r := TimesTwo(r);
    var hh := Square(h);
    var i := TimesFour(hh);
    var j := Multiply(h, i);
    var v := Multiply(a.x, i);
    var x3 := Square(r);
    x3 := Minus(x3, j);
    var tmp := TimesTwo(v);
    x3 := Minus(x3, tmp);
    tmp := Minus(v, x3);
    tmp := Multiply(r, tmp);
    var tmp2 := Multiply(a.y, j);
    tmp2 := TimesTwo(tmp2);
    var y3 := Minus(tmp, tmp2);
    var z3 := Plus(a.z, h);
    z3 := Square(z3);
    z3 := Minus(z3, z1z1);
    z3 := Minus(z3, hh);
    out.x, out.y, out.z, out.infinity := x3, y3, z3, false;
  }

  // ----- the ladders -----------------------------------------------------------------

  /** The number formed by the scalar bits above position k. */
  ghost function Prefix(scalar: seq<byte>, k: nat): nat {
    Top(Reverse(scalar), 8, 256, k)
  }

  method ScalarBit(scalar: seq<byte>, i: nat, bit: nat) returns (b: int)
    requires |scalar| == 32 && i < 32 && bit < 8
    ensures b == 0 || b == 1
    ensures Prefix(scalar, 8 * (31 - i) + bit) == 2 * Prefix(scalar, 8 * (31 - i) + bit + 1) + b
  {
    b := scalar[i] / Pow2(bit) % 2;
    BitAt(Reverse(scalar), 8, 31 - i, bit);
    TopUnfold(Reverse(scalar), 8, 256, 8 * (31 - i) + bit);
  }

  lemma JTimesNone(q: Affine)
    ensures JTimes(0, q) == JInfinity
  {
  }

  lemma PrefixEnds(scalar: seq<byte>)
    requires |scalar| == 32
    ensures Prefix(scalar, 256) == 0 && Prefix(scalar, 0) == BeVal(scalar)
  {
    AllBits(scalar);
  }

  /** One round of the affine ladder: double, and add p if the bit is set. */
  method AffineRound(acc: Point, p: Point, b: int, ghost t: nat)
    requires acc != p && p.Abs().Reduced() && 0 <= b <= 1
    requires acc.Abs() == Times(t, p.Abs())
    modifies acc
    ensures acc.Abs() == Times(2 * t + b, p.Abs())
  {
    ghost var q := p.Abs();
    TimesStep(t, b, q);
    TimesReduced(t, q);
    SumsReduced(Times(t, q), q);
    hide *;
    PointDouble(acc, acc);
    if b != 0 {
      PointAdd(acc, acc, p);
    }
  }

  /** The eight rounds of scalar byte i. */
  method AffineByte(acc: Point, p: Point, scalar: seq<byte>, i: nat)
    requires |scalar| == 32 && i < 32 && p.Abs().Reduced() && acc != p
    requires acc.Abs() == Times(Prefix(scalar, 8 * (32 - i)), p.Abs())
    modifies acc
    ensures acc.Abs() == Times(Prefix(scalar, 8 * (31 - i)), p.Abs())
  {
    hide *;
    ghost var q := p.Abs();
    ghost var k := 8 * (31 - i);
    var bit := 8;
    while bit > 0
      invariant 0 <= bit <= 8
      invariant p.Abs() == q && acc.Abs() == Times(Prefix(scalar, k + bit), q)
    {
      bit := bit - 1;
      var b := ScalarBit(scalar, i, bit);
      AffineRound(acc, p, b, Prefix(scalar, k + bit + 1));
    }
  }

  /** Affine double-and-add over the 256 scalar bits. */
  method PointMulBe32(out: Point, p: Point, scalar: seq<byte>)
    requires |scalar| == 32 && p.Abs().Reduced()
    modifies out
    ensures out.Abs() == Times(BeVal(scalar), old(p.Abs()))
  {
    var acc := new Point();
    ghost var q := p.Abs();
    PrefixEnds(scalar);
    assert Times(0, q) == Infinity;
    hide *;
    for i := 0 to 32
      invariant p.Abs() == q && acc.Abs() == Times(Prefix(scalar, 8 * (32 - i)), q)
    {
      AffineByte(acc, p, scalar, i);
    }
    out.Assign(acc);
  }

  /** One round of the Jacobian ladder. */
  method JacobianRound(acc: JacobianPoint, p: Point, b: int, ghost t: nat)
    requires p.Abs().Reduced() && 0 <= b <= 1
    requires acc.Abs() == JTimes(t, p.Abs())
    modifies acc
    ensures acc.Abs() == JTimes(2 * t + b, p.Abs())
  {
    ghost var q := p.Abs();
    TimesStep(t, b, q);
    TimesReduced(t, q);
    JSumsReduced(JTimes(t, q), q);
    hide *;
    JacobianDouble(acc, acc);
    if b != 0 {
      JacobianAddMixed(acc, acc, p);
    }
  }

  /** The eight rounds of scalar byte i. */
  method JacobianByte(acc: JacobianPoint, p: Point, scalar: seq<byte>, i: nat)
    requires |scalar| == 32 && i < 32 && p.Abs().Reduced()
    requires acc.Abs() == JTimes(Prefix(scalar, 8 * (32 - i)), p.Abs())
    modifies acc
    ensures acc.Abs() == JTimes(Prefix(scalar, 8 * (31 - i)), p.Abs())
  {
    hide *;
    ghost var q := p.Abs();
    ghost var k := 8 * (31 - i);
    var bit := 8;
    while bit > 0
      invariant 0 <= bit <= 8
      invariant p.Abs() == q && acc.Abs() == JTimes(Prefix(scalar, k + bit), q)
    {
      bit := bit - 1;
      var b := ScalarBit(scalar, i, bit);
      JacobianRound(acc, p, b, Prefix(scalar, k + bit + 1));
    }
  }

  /** Jacobian double-and-add over the same bits, with one inversion at the end. */
  method PointMulBe32Projective(out: Point, p: Point, scalar: seq<byte>)
    requires |scalar| == 32 && p.Abs().Reduced()
    modifies out
    ensures out.Abs() == ToPoint(JTimes(BeVal(scalar), old(p.Abs())))
    ensures IsPrime(P) ==> out.Abs() == Times(BeVal(scalar), old(p.Abs()))
  {
    hide *;
    var acc := new JacobianPoint();
    ghost var q := p.Abs();
    PrefixEnds(scalar);
    JTimesNone(q);
    for i := 0 to 32
      invariant p.Abs() == q && acc.Abs() == JTimes(Prefix(scalar, 8 * (32 - i)), q)
    {
      JacobianByte(acc, p, scalar, i);
    }
    JacobianToPoint(out, acc);
    QIsP();
    if IsPrime(P) {
      LaddersAgree(BeVal(scalar), q);
    }
  }

  lemma U32Prefix(scalar: u32)
    ensures Top([scalar], 32, 32, 0) == scalar && Top([scalar], 32, 32, 32) == 0
  {
    var s := [scalar];
    ValSnoc(s, 0, BASE);
    assert s[..1] == s && s[..0] == [];
    assert Val(s, BASE) == scalar;
    assert Top(s, 32, 32, 32) == 0;
    Pow2Of32();
    hide *;
    TopIsVal(s, 32, 32);
  }

  /** The leading bits of the scalar, bit 31 down to the given one, as a number. */
  ghost function Leading(scalar: u32, bit: nat): nat {
    Top([scalar], 32, 32, bit)
  }

  method U32Bit(scalar: u32, bit: nat) returns (b: nat)
    requires bit < 32
    ensures b <= 1 && Leading(scalar, bit) == 2 * Leading(scalar, bit + 1) + b
  {
    hide Top, Bit;
    b := scalar / Pow2(bit) % 2;
    BitAt([scalar], 32, 0, bit);
    TopUnfold([scalar], 32, 32, bit);
  }

  lemma LeadingEnds(scalar: u32, q: Affine)
    ensures Leading(scalar, 0) == scalar && Times(Leading(scalar, 32), q) == Infinity
  {
    U32Prefix(scalar);
  }

  /** The 32-bit ladder computes the same multiple as the 256-bit one. */
  method PointMulU32(out: Point, p: Point, scalar: u32)
    requires p.Abs().Reduced()
    modifies out
    ensures out.Abs() == Times(scalar, old(p.Abs()))
  {
    hide *;
    var acc := new Point();
    ghost var q := p.Abs();
    LeadingEnds(scalar, q);
    var bit := 32;
    while bit > 0
      invariant 0 <= bit <= 32
      invariant p.Abs() == q && acc.Abs() == Times(Leading(scalar, bit), q)
    {
      bit := bit - 1;
      var b := U32Bit(scalar, bit);
      AffineRound(acc, p, b, Leading(scalar, bit + 1));
    }
    out.Assign(acc);
  }
}
