/** Polynomial identities modulo m behind the point formulas. Each proof writes the
    goal as a combination of the hypotheses, checks that one identity over the
    integers, and drops the multiples of m. */
module CurveAlgebra {
  import opened ModArith

  lemma Combine(m: int, a: int, s: int, b: int, t: int)
    requires m > 0 && Cong(m, s, 0) && Cong(m, t, 0)
    ensures Cong(m, a * s + b * t, 0)
  {
    CongRefl(m, a);
    CongRefl(m, b);
    CongMul(m, a, a, s, 0);
    CongMul(m, b, b, t, 0);
    CongAdd(m, a * s, a * 0, b * t, b * 0);
  }

  lemma Combine4(m: int, a: int, s: int, b: int, t: int, c: int, u: int, d: int, v: int)
    requires m > 0 && Cong(m, s, 0) && Cong(m, t, 0) && Cong(m, u, 0) && Cong(m, v, 0)
    ensures Cong(m, a * s + b * t + c * u + d * v, 0)
  {
    hide *;
    Combine(m, a, s, b, t);
    Combine(m, c, u, d, v);
    CongSum(m, a * s + b * t, c * u + d * v);
  }

  lemma CongSum(m: int, s: int, t: int)
    requires m > 0 && Cong(m, s, 0) && Cong(m, t, 0)
    ensures Cong(m, s + t, 0)
  {
    CongAdd(m, s, 0, t, 0);
  }

  lemma Difference(m: int, a: int, b: int)
    requires m > 0
    ensures Cong(m, a, b) <==> Cong(m, a - b, 0)
  {
  }

  // ----- tangent and chord keep the curve --------------------------------------

  function Cubic(x: int, b: int): int {
    x * x * x - 3 * x + b
  }

  /** What 2 l y1 equals on a line of slope l that meets the cubic at x1, x2 and x3. */
  function SlopeSum(x1: int, x2: int, x3: int): int {
    2 * x1 * x1 + x1 * x2 - 3 - x3 * (x2 - x1)
  }

  lemma SquareOfSum(a: int, b: int)
    ensures (a + b) * (a + b) == a * a + 2 * (a * b) + b * b
  {
  }

  lemma DifferenceOfSquares(a: int, b: int)
    ensures (a + b) * (a - b) == a * a - b * b
  {
  }

  lemma Spread(a: int, b: int, c: int)
    ensures a * (b - c) == a * b - a * c
  {
  }

  lemma CubicDifference(x1: int, x2: int, x3: int, b: int)
    ensures Cubic(x3, b) - Cubic(x1, b) == (x3 - x1) * (x3 - x1) * (x3 + x1 + x2) + (x3 - x1) * SlopeSum(x1, x2, x3)
  {
  }

  lemma SlopeSquare(d: int, l: int)
    ensures (d * d) * (l * l) == (l * d) * (l * d)
  {
  }

  lemma ThirdPointIdentity(x1: int, y1: int, x2: int, b: int, l: int, x3: int, y3: int)
    ensures y3 * y3 - Cubic(x3, b)
         == 1 * (y1 * y1 - Cubic(x1, b))
            + (-((x3 - x1) * (x3 - x1))) * (x3 - (l * l - x1 - x2))
            + (y3 + l * (x1 - x3) - y1) * (y3 - (l * (x1 - x3) - y1))
            + (x3 - x1) * (2 * l * y1 - SlopeSum(x1, x2, x3))
  {
    hide Cubic, SlopeSum;
    var d, t, e := x3 - x1, SlopeSum(x1, x2, x3), x3 - (l * l - x1 - x2);
    var p := l * d;
    assert l * (x1 - x3) == -p by {
      Spread(l, x1, x3);
      Spread(l, x3, x1);
    }
    CubicDifference(x1, x2, x3, b);
    DifferenceOfSquares(y3, p + y1);
    SquareOfSum(p, y1);
    Spread(d, 2 * l * y1, t);
    Spread(d * d, x3 + x1 + x2, l * l);
    SlopeSquare(d, l);
    assert e == x3 + x1 + x2 - l * l;
    assert (y3 - p - y1) * (y3 - (-p - y1)) == (y3 + (p + y1)) * (y3 - (p + y1));
    assert d * (2 * l * y1) == 2 * (p * y1);
    assert (-(d * d)) * e == -((d * d) * e);
  }

  /** The third point where the line meets the cubic, mirrored, is on the curve. */
  lemma ThirdPoint(m: int, x1: int, y1: int, x2: int, b: int, l: int, x3: int, y3: int)
    requires m > 0
    requires Cong(m, y1 * y1, Cubic(x1, b))
    requires Cong(m, x3, l * l - x1 - x2)
    requires Cong(m, y3, l * (x1 - x3) - y1)
    requires Cong(m, 2 * l * y1, SlopeSum(x1, x2, x3))
    ensures Cong(m, y3 * y3, Cubic(x3, b))
  {
    ThirdPointIdentity(x1, y1, x2, b, l, x3, y3);
    hide *;
    Difference(m, y1 * y1, Cubic(x1, b));
    Difference(m, x3, l * l - x1 - x2);
    Difference(m, y3, l * (x1 - x3) - y1);
    Difference(m, 2 * l * y1, SlopeSum(x1, x2, x3));
    Difference(m, y3 * y3, Cubic(x3, b));
    Combine4(m, 1, y1 * y1 - Cubic(x1, b),
             -((x3 - x1) * (x3 - x1)), x3 - (l * l - x1 - x2),
             y3 + l * (x1 - x3) - y1, y3 - (l * (x1 - x3) - y1),
             x3 - x1, 2 * l * y1 - SlopeSum(x1, x2, x3));
  }

  /** The tangent slope 2 y l = 3 x^2 - 3 meets the hypothesis of ThirdPoint with x2 = x1. */
  lemma TangentSlope(m: int, x: int, y: int, l: int, x3: int)
    requires m > 0 && Cong(m, l * (2 * y), 3 * (x * x) - 3)
    ensures Cong(m, 2 * l * y, SlopeSum(x, x, x3))
  {
    assert 2 * l * y == l * (2 * y);
    assert SlopeSum(x, x, x3) == 3 * (x * x) - 3;
  }

  lemma ChordSquares(p: int, y1: int, y2: int)
    ensures (2 * p - (p - (y2 - y1)) + 2 * y1) * (p - (y2 - y1)) == p * p + 2 * y1 * p - y2 * y2 + y1 * y1
  {
  }

  lemma ChordCubics(x1: int, x2: int, x3: int, b: int)
    ensures Cubic(x2, b) - Cubic(x1, b) - ((x2 - x1) * (x2 - x1)) * (x3 + x1 + x2) == (x2 - x1) * SlopeSum(x1, x2, x3)
  {
  }

  lemma ChordProducts(d: int, l: int, y1: int, s: int)
    ensures d * (2 * l * y1) == 2 * y1 * (l * d)
    ensures (l * d) * (l * d) + (d * d) * (s - l * l) == (d * d) * s
  {
  }

  lemma ChordIdentity(x1: int, y1: int, x2: int, y2: int, b: int, l: int, x3: int)
    ensures (x2 - x1) * (2 * l * y1) - (x2 - x1) * SlopeSum(x1, x2, x3)
         == 1 * (y2 * y2 - Cubic(x2, b)) + (-1) * (y1 * y1 - Cubic(x1, b))
            + (2 * (l * (x2 - x1)) - (l * (x2 - x1) - (y2 - y1)) + 2 * y1) * (l * (x2 - x1) - (y2 - y1))
            + ((x2 - x1) * (x2 - x1)) * (x3 - (l * l - x1 - x2))
  {
    hide *;
    var d, p := x2 - x1, l * (x2 - x1);
    ChordSquares(p, y1, y2);
    ChordCubics(x1, x2, x3, b);
    ChordProducts(d, l, y1, x3 + x1 + x2);
    assert x3 - (l * l - x1 - x2) == x3 + x1 + x2 - l * l;
  }

  /** So does the chord slope l (x2 - x1) = y2 - y1, once x2 - x1 is cancelled. */
  lemma ChordSlope(m: int, x1: int, y1: int, x2: int, y2: int, b: int, l: int, x3: int)
    requires IsPrime(m) && !Cong(m, x2 - x1, 0)
    requires Cong(m, y1 * y1, Cubic(x1, b)) && Cong(m, y2 * y2, Cubic(x2, b))
    requires Cong(m, l * (x2 - x1), y2 - y1)
    requires Cong(m, x3, l * l - x1 - x2)
    ensures Cong(m, 2 * l * y1, SlopeSum(x1, x2, x3))
  {
    ChordIdentity(x1, y1, x2, y2, b, l, x3);
    hide *;
    Difference(m, y1 * y1, Cubic(x1, b));
    Difference(m, y2 * y2, Cubic(x2, b));
    Difference(m, l * (x2 - x1), y2 - y1);
    Difference(m, x3, l * l - x1 - x2);
    Difference(m, (x2 - x1) * (2 * l * y1), (x2 - x1) * SlopeSum(x1, x2, x3));
    Combine4(m, 1, y2 * y2 - Cubic(x2, b), -1, y1 * y1 - Cubic(x1, b),
             2 * (l * (x2 - x1)) - (l * (x2 - x1) - (y2 - y1)) + 2 * y1, l * (x2 - x1) - (y2 - y1),
             (x2 - x1) * (x2 - x1), x3 - (l * l - x1 - x2));
    Cancel(m, x2 - x1, 2 * l * y1, SlopeSum(x1, x2, x3));
  }

  lemma Combine6(m: int, a: int, s: int, b: int, t: int, c: int, u: int, d: int, v: int, e: int, w: int, f: int, x: int)
    requires m > 0 && Cong(m, s, 0) && Cong(m, t, 0) && Cong(m, u, 0) && Cong(m, v, 0) && Cong(m, w, 0) && Cong(m, x, 0)
    ensures Cong(m, a * s + b * t + c * u + d * v + e * w + f * x, 0)
  {
    hide *;
    Combine4(m, a, s, b, t, c, u, d, v);
    Combine(m, e, w, f, x);
    CongSum(m, a * s + b * t + c * u + d * v, e * w + f * x);
  }

  // ----- doubling in Jacobian coordinates --------------------------------------
  // (X, Y, Z) stands for (x, y) with X = x Z^2, Y = y Z^3; a = 3 (X - Z^2)(X + Z^2).

  lemma DoubleSlopeIdentity(X: int, Y: int, Z: int, x: int, y: int, l: int, Z3: int)
    ensures 3 * ((X - Z * Z) * (X + Z * Z)) - l * Z3
         == (3 * (X + x * (Z * Z))) * (X - x * (Z * Z))
            + (-(2 * l * Z)) * (Y - y * (Z * Z * Z))
            + (-(Z * Z * Z * Z)) * (l * (2 * y) - (3 * (x * x) - 3))
            + (-l) * (Z3 - 2 * (Y * Z))
  {
  }

  /** The numerator of the tangent slope is l Z3. */
  lemma DoubleSlope(m: int, X: int, Y: int, Z: int, x: int, y: int, l: int, Z3: int)
    requires m > 0 && Cong(m, X, x * (Z * Z)) && Cong(m, Y, y * (Z * Z * Z))
    requires Cong(m, l * (2 * y), 3 * (x * x) - 3) && Cong(m, Z3, 2 * (Y * Z))
    ensures Cong(m, 3 * ((X - Z * Z) * (X + Z * Z)), l * Z3)
  {
    DoubleSlopeIdentity(X, Y, Z, x, y, l, Z3);
    hide *;
    Difference(m, X, x * (Z * Z));
    Difference(m, Y, y * (Z * Z * Z));
    Difference(m, l * (2 * y), 3 * (x * x) - 3);
    Difference(m, Z3, 2 * (Y * Z));
    Difference(m, 3 * ((X - Z * Z) * (X + Z * Z)), l * Z3);
    Combine4(m, 3 * (X + x * (Z * Z)), X - x * (Z * Z), -(2 * l * Z), Y - y * (Z * Z * Z),
             -(Z * Z * Z * Z), l * (2 * y) - (3 * (x * x) - 3), -l, Z3 - 2 * (Y * Z));
  }

  lemma ScaledSquareIdentity(X: int, W: int, Z: int, x: int, Z3: int)
    ensures 4 * (X * (W * W)) - x * (Z3 * Z3)
         == (4 * (W * W)) * (X - x * (Z * Z)) + (-(x * (Z3 + 2 * (W * Z)))) * (Z3 - 2 * (W * Z))
  {
  }

  /** If X = x Z^2 and Z3 = 2 W Z then 4 X W^2 = x Z3^2. */
  lemma ScaledSquare(m: int, X: int, W: int, Z: int, x: int, Z3: int)
    requires m > 0 && Cong(m, X, x * (Z * Z)) && Cong(m, Z3, 2 * (W * Z))
    ensures Cong(m, 4 * (X * (W * W)), x * (Z3 * Z3))
  {
    ScaledSquareIdentity(X, W, Z, x, Z3);
    hide *;
    Difference(m, X, x * (Z * Z));
    Difference(m, Z3, 2 * (W * Z));
    Difference(m, 4 * (X * (W * W)), x * (Z3 * Z3));
    Combine(m, 4 * (W * W), X - x * (Z * Z), -(x * (Z3 + 2 * (W * Z))), Z3 - 2 * (W * Z));
  }

  lemma CubeDifference(y: int, t: int, q: int)
    ensures y * (t * t * t) - y * (q * q * q) == (y * (t * t + t * q + q * q)) * (t - q)
  {
  }

  lemma CubeScale(Y: int, W: int, Z: int, y: int)
    ensures 8 * (Y * (W * W * W)) - y * ((2 * (W * Z)) * (2 * (W * Z)) * (2 * (W * Z)))
         == (8 * (W * W * W)) * (Y - y * (Z * Z * Z))
  {
  }

  lemma ScaledCubeIdentity(Y: int, W: int, Z: int, y: int, Z3: int)
    ensures 8 * (Y * (W * W * W)) - y * (Z3 * Z3 * Z3)
         == (8 * (W * W * W)) * (Y - y * (Z * Z * Z))
            + (-(y * (Z3 * Z3 + Z3 * (2 * (W * Z)) + (2 * (W * Z)) * (2 * (W * Z))))) * (Z3 - 2 * (W * Z))
  {
    CubeScale(Y, W, Z, y);
    CubeDifference(y, Z3, 2 * (W * Z));
    Negate(y * (Z3 * Z3 + Z3 * (2 * (W * Z)) + (2 * (W * Z)) * (2 * (W * Z))), Z3 - 2 * (W * Z));
    hide *;
  }

  lemma Negate(a: int, b: int)
    ensures (-a) * b == -(a * b)
  {
  }

  /** If Y = y Z^3 and Z3 = 2 W Z then 8 Y W^3 = y Z3^3. */
  lemma ScaledCube(m: int, Y: int, W: int, Z: int, y: int, Z3: int)
    requires m > 0 && Cong(m, Y, y * (Z * Z * Z)) && Cong(m, Z3, 2 * (W * Z))
    ensures Cong(m, 8 * (Y * (W * W * W)), y * (Z3 * Z3 * Z3))
  {
    ScaledCubeIdentity(Y, W, Z, y, Z3);
    hide *;
    Difference(m, Y, y * (Z * Z * Z));
    Difference(m, Z3, 2 * (W * Z));
    Difference(m, 8 * (Y * (W * W * W)), y * (Z3 * Z3 * Z3));
    Combine(m, 8 * (W * W * W), Y - y * (Z * Z * Z),
            -(y * (Z3 * Z3 + Z3 * (2 * (W * Z)) + (2 * (W * Z)) * (2 * (W * Z)))), Z3 - 2 * (W * Z));
  }

  // The last two steps are shared by doubling and addition: `s` is the Jacobian
  // slope numerator (s = l Z3), u = x1 Z3^2, t = x2 Z3^2 and w = y1 Z3^3.

  lemma LineXIdentity(s: int, u: int, t: int, x1: int, x2: int, l: int, x3: int, X3: int, Z3: int)
    ensures X3 - x3 * (Z3 * Z3)
         == 1 * (X3 - (s * s - u - t)) + (s + l * Z3) * (s - l * Z3)
            + (-1) * (u - x1 * (Z3 * Z3)) + (-1) * (t - x2 * (Z3 * Z3))
            + (-(Z3 * Z3)) * (x3 - (l * l - x1 - x2)) + 0 * 0
  {
  }

  lemma LineX(m: int, s: int, u: int, t: int, x1: int, x2: int, l: int, x3: int, X3: int, Z3: int)
    requires m > 0 && Cong(m, s, l * Z3) && Cong(m, u, x1 * (Z3 * Z3)) && Cong(m, t, x2 * (Z3 * Z3))
    requires Cong(m, x3, l * l - x1 - x2) && Cong(m, X3, s * s - u - t)
    ensures Cong(m, X3, x3 * (Z3 * Z3))
  {
    LineXIdentity(s, u, t, x1, x2, l, x3, X3, Z3);
    CongRefl(m, 0);
    hide *;
    Difference(m, s, l * Z3);
    Difference(m, u, x1 * (Z3 * Z3));
    Difference(m, t, x2 * (Z3 * Z3));
    Difference(m, x3, l * l - x1 - x2);
    Difference(m, X3, s * s - u - t);
    Difference(m, X3, x3 * (Z3 * Z3));
    Combine6(m, 1, X3 - (s * s - u - t), s + l * Z3, s - l * Z3, -1, u - x1 * (Z3 * Z3),
             -1, t - x2 * (Z3 * Z3), -(Z3 * Z3), x3 - (l * l - x1 - x2), 0, 0);
  }

  lemma LineYIdentity(s: int, u: int, w: int, x1: int, y1: int, l: int, x3: int, y3: int, X3: int, Y3: int, Z3: int)
    ensures Y3 - y3 * (Z3 * Z3 * Z3)
         == 1 * (Y3 - (s * (u - X3) - w)) + s * (u - x1 * (Z3 * Z3)) + (-s) * (X3 - x3 * (Z3 * Z3))
            + ((x1 - x3) * (Z3 * Z3)) * (s - l * Z3) + (-1) * (w - y1 * (Z3 * Z3 * Z3))
            + (-(Z3 * Z3 * Z3)) * (y3 - (l * (x1 - x3) - y1))
  {
  }

  lemma LineY(m: int, s: int, u: int, w: int, x1: int, y1: int, l: int, x3: int, y3: int, X3: int, Y3: int, Z3: int)
    requires m > 0 && Cong(m, s, l * Z3) && Cong(m, u, x1 * (Z3 * Z3)) && Cong(m, w, y1 * (Z3 * Z3 * Z3))
    requires Cong(m, y3, l * (x1 - x3) - y1) && Cong(m, X3, x3 * (Z3 * Z3))
    requires Cong(m, Y3, s * (u - X3) - w)
    ensures Cong(m, Y3, y3 * (Z3 * Z3 * Z3))
  {
    LineYIdentity(s, u, w, x1, y1, l, x3, y3, X3, Y3, Z3);
    hide *;
    Difference(m, s, l * Z3);
    Difference(m, u, x1 * (Z3 * Z3));
    Difference(m, w, y1 * (Z3 * Z3 * Z3));
    Difference(m, y3, l * (x1 - x3) - y1);
    Difference(m, X3, x3 * (Z3 * Z3));
    Difference(m, Y3, s * (u - X3) - w);
    Difference(m, Y3, y3 * (Z3 * Z3 * Z3));
    Combine6(m, 1, Y3 - (s * (u - X3) - w), s, u - x1 * (Z3 * Z3), -s, X3 - x3 * (Z3 * Z3),
             (x1 - x3) * (Z3 * Z3), s - l * Z3, -1, w - y1 * (Z3 * Z3 * Z3),
             -(Z3 * Z3 * Z3), y3 - (l * (x1 - x3) - y1));
  }

  // ----- mixed addition ---------------------------------------------------------

  lemma AddSlopeIdentity(H: int, D: int, Z: int, x1: int, y1: int, x2: int, y2: int, l: int, Z3: int)
    ensures 2 * D - l * Z3
         == 2 * (D - (y2 - y1) * (Z * Z * Z)) + (-(2 * (Z * Z * Z))) * (l * (x2 - x1) - (y2 - y1))
            + (-(2 * l * Z)) * (H - (x2 - x1) * (Z * Z)) + (-l) * (Z3 - 2 * (H * Z))
  {
  }

  /** The numerator of the chord slope is l Z3. */
  lemma AddSlope(m: int, H: int, D: int, Z: int, x1: int, y1: int, x2: int, y2: int, l: int, Z3: int)
    requires m > 0 && Cong(m, H, (x2 - x1) * (Z * Z)) && Cong(m, D, (y2 - y1) * (Z * Z * Z))
    requires Cong(m, l * (x2 - x1), y2 - y1) && Cong(m, Z3, 2 * (H * Z))
    ensures Cong(m, 2 * D, l * Z3)
  {
    AddSlopeIdentity(H, D, Z, x1, y1, x2, y2, l, Z3);
    hide *;
    Difference(m, H, (x2 - x1) * (Z * Z));
    Difference(m, D, (y2 - y1) * (Z * Z * Z));
    Difference(m, l * (x2 - x1), y2 - y1);
    Difference(m, Z3, 2 * (H * Z));
    Difference(m, 2 * D, l * Z3);
    Combine4(m, 2, D - (y2 - y1) * (Z * Z * Z), -(2 * (Z * Z * Z)), l * (x2 - x1) - (y2 - y1),
             -(2 * l * Z), H - (x2 - x1) * (Z * Z), -l, Z3 - 2 * (H * Z));
  }
}
