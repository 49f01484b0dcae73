/** The point formulas of drivers/p256.c over residues modulo the field prime: the affine group
    law, and the Jacobian coordinates that avoid an inversion per bit. */
module Curve {
  import opened Numeral
  import opened ModArith
  import opened Limbs
  import opened Field

  const B: int := 0x5AC635D8_AA3A93E7_B3EBBD55_769886BC_651D06B0_CC53B0F6_3BCE3C3E_27D2604B

  type Modulus = m: int | m > 3 witness 5

  /** The modulus P, by its limbs. The proofs about the point formulas need no more of it
      than that it is a prime above 3. */
  const Q: Modulus := (LimbsOfP(); Val(P_LIMBS, BASE))

  lemma LimbsOfP()
    ensures Val(P_LIMBS, BASE) == P
  {
    ModulusValues();
  }

  lemma QIsP()
    ensures Q == P
  {
    LimbsOfP();
  }

  function FAdd(a: int, b: int): int { (a + b) % Q }
  function FSub(a: int, b: int): int { (a - b) % Q }
  function FMul(a: int, b: int): int { a * b % Q }
  function FInv(a: int): int { Pow(a, Q - 2) % Q }

  datatype Affine = Infinity | Pt(x: int, y: int) {
    ghost predicate Reduced() {
      Pt? ==> 0 <= x < Q && 0 <= y < Q
    }

    /** y^2 = x^3 - 3x + b, as p256_point_on_curve evaluates it. */
    ghost predicate OnCurve() {
      Pt? ==> FMul(y, y) == FAdd(FSub(FSub(FSub(FMul(FMul(x, x), x), x), x), x), B)
    }
  }

  datatype Jacobian = JInfinity | JPt(x: int, y: int, z: int) {
    ghost predicate Reduced() {
      JPt? ==> 0 <= x < Q && 0 <= y < Q && 0 <= z < Q
    }
  }

  /** Slope of the tangent at p. */
  function Tangent(p: Affine): int
    requires p.Pt?
  {
    var xx := FMul(p.x, p.x);
    FMul(FSub(FAdd(FAdd(xx, xx), xx), 3), FInv(FAdd(p.y, p.y)))
  }

  /** Slope of the line through p and q. */
  function Chord(p: Affine, q: Affine): int
    requires p.Pt? && q.Pt?
  {
    FMul(FSub(q.y, p.y), FInv(FSub(q.x, p.x)))
  }

  function Double(p: Affine): Affine {
    if p.Infinity? || p.y == 0 then Infinity else
      var l := Tangent(p);
      var x3 := FSub(FMul(l, l), FAdd(p.x, p.x));
      Pt(x3, FSub(FMul(l, FSub(p.x, x3)), p.y))
  }

  function Add(p: Affine, q: Affine): Affine {
    if p.Infinity? then q
    else if q.Infinity? then p
    else if p.x == q.x then
      if p.y == q.y then Double(p) else Infinity
    else
      var l := Chord(p, q);
      var x3 := FSub(FSub(FMul(l, l), p.x), q.x);
      Pt(x3, FSub(FMul(l, FSub(p.x, x3)), p.y))
  }

  function Thrice(a: int): int { FAdd(FAdd(a, a), a) }
  function Four(a: int): int { FAdd(FAdd(a, a), FAdd(a, a)) }
  function Eight(a: int): int { FAdd(Four(a), Four(a)) }

  function FromPoint(p: Affine): Jacobian {
    if p.Infinity? then JInfinity else JPt(p.x, p.y, 1)
  }

  function ToPoint(j: Jacobian): Affine {
    if j.JInfinity? || j.z == 0 then Infinity else
      var zi := FInv(j.z);
      var z2 := FMul(zi, zi);
      Pt(FMul(j.x, z2), FMul(j.y, FMul(z2, zi)))
  }

  function JDouble(p: Jacobian): Jacobian {
    if p.JInfinity? || p.y == 0 then JInfinity else
      var delta := FMul(p.z, p.z);
      var gamma := FMul(p.y, p.y);
      var beta := FMul(p.x, gamma);
      var alpha := Thrice(FMul(FSub(p.x, delta), FAdd(p.x, delta)));
      var x3 := FSub(FMul(alpha, alpha), Eight(beta));
      var y3 := FSub(FMul(alpha, FSub(Four(beta), x3)), Eight(FMul(gamma, gamma)));
      var s := FAdd(p.y, p.z);
      JPt(x3, y3, FSub(FSub(FMul(s, s), gamma), delta))
  }

  function JAddMixed(a: Jacobian, b: Affine): Jacobian {
    if a.JInfinity? then FromPoint(b)
    else if b.Infinity? then a
    else
      var zz := FMul(a.z, a.z);
      var h := FSub(FMul(b.x, zz), a.x);
      var d := FSub(FMul(FMul(a.z, zz), b.y), a.y);
      if h == 0 then
        if d == 0 then JDouble(a) else JInfinity
      else
        var r := FAdd(d, d);
        var hh := FMul(h, h);
        var i := Four(hh);
        var j := FMul(h, i);
        var v := FMul(a.x, i);
        var x3 := FSub(FSub(FMul(r, r), j), FAdd(v, v));
        var w := FMul(a.y, j);
        var y3 := FSub(FMul(r, FSub(v, x3)), FAdd(w, w));
        var s := FAdd(a.z, h);
        JPt(x3, y3, FSub(FSub(FMul(s, s), zz), hh))
  }

  /** Double and add over the binary digits of n: the simple form of both ladders. */
  ghost function Times(n: nat, p: Affine): Affine {
    if n == 0 then Infinity
    else
      var d := Double(Times(n / 2, p));
      if n % 2 == 1 then Add(d, p) else d
  }

  ghost function JTimes(n: nat, p: Affine): Jacobian {
    if n == 0 then JInfinity
    else
      var d := JDouble(JTimes(n / 2, p));
      if n % 2 == 1 then JAddMixed(d, p) else d
  }
}
