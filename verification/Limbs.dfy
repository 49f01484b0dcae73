/** The 32-bit limb arithmetic of drivers/p256.c, in place on arrays. */
module Limbs {
  import opened Numeral
  import opened Products

  const LIMBS: nat := 8
  const BASE: int := 0x1_0000_0000

  type u32 = x: int | 0 <= x < 0x1_0000_0000
  type u64 = x: int | 0 <= x < 0x1_0000_0000_0000_0000

  /** The natural number a little-endian limb sequence stands for. */
  ghost function Num(s: seq<u32>): int {
    Val(s, BASE)
  }

  /** The weight of limb n. */
  ghost function R(n: nat): int {
    Pow(BASE, n)
  }

  lemma NumBound(s: seq<u32>)
    ensures 0 <= Num(s) < R(|s|)
  {
    ValBound(s, BASE);
  }

  // ----- one limb of an addition, a subtraction, a product ------------------

  lemma CarryStep(p: int, x: int, y: int, c: int, v: int)
    requires v == x + y + c
    ensures (v % BASE) * p + (v / BASE) * (BASE * p) == x * p + y * p + c * p
  {
    assert v == BASE * (v / BASE) + v % BASE;
    Distribute(p, v % BASE, v / BASE, BASE);
    assert (x + y + c) * p == x * p + y * p + c * p;
  }

  lemma BorrowStep(p: int, x: int, y: int, c: int, d: int, e: int)
    requires d - e * BASE == x - y - c
    ensures d * p - e * (BASE * p) == x * p - y * p - c * p
  {
    assert (x - y - c) * p == x * p - y * p - c * p;
    assert (d - e * BASE) * p == d * p - e * (BASE * p);
  }

  lemma Extend(a: array<u32>, i: nat)
    requires i < a.Length
    ensures Num(a[..i + 1]) == Num(a[..i]) + a[i] * R(i)
  {
    ValSnoc(a[..], i, BASE);
    assert a[..][..i + 1] == a[..i + 1] && a[..][..i] == a[..i];
  }

  /** out := a + b, limb by limb; `out` may be `a` or `b`. */
  method RawAdd(out: array<u32>, a: array<u32>, b: array<u32>) returns (carry: u32)
    requires out.Length == a.Length == b.Length == LIMBS
    modifies out
    ensures carry <= 1
    ensures Num(out[..]) + carry * R(LIMBS) == Num(old(a[..])) + Num(old(b[..]))
  {
    ghost var A, B := a[..], b[..];
    carry := 0;
    for i := 0 to LIMBS
      invariant carry <= 1
      invariant forall k :: i <= k < LIMBS ==> a[k] == A[k] && b[k] == B[k]
      invariant Num(out[..i]) + carry * R(i) == Num(A[..i]) + Num(B[..i])
    {
      var sum: u64 := a[i] + b[i] + carry;
      ghost var before := out[..i];
      CarryStep(R(i), A[i], B[i], carry, sum);
      ValSnoc(A, i, BASE);
      ValSnoc(B, i, BASE);
      out[i] := sum % BASE;
      carry := sum / BASE;
      assert out[..i] == before;
      Extend(out, i);
    }
    assert out[..8] == out[..] && A[..8] == A && B[..8] == B;
  }

  /** out := a - b modulo 2^256; `out` may be `a` or `b`. */
  method RawSub(out: array<u32>, a: array<u32>, b: array<u32>) returns (borrow: u32)
    requires out.Length == a.Length == b.Length == LIMBS
    modifies out
    ensures borrow <= 1
    ensures Num(out[..]) - borrow * R(LIMBS) == Num(old(a[..])) - Num(old(b[..]))
  {
    ghost var A, B := a[..], b[..];
    borrow := 0;
    for i := 0 to LIMBS
      invariant borrow <= 1
      invariant forall k :: i <= k < LIMBS ==> a[k] == A[k] && b[k] == B[k]
      invariant Num(out[..i]) - borrow * R(i) == Num(A[..i]) - Num(B[..i])
    {
      var av: u64 := a[i];
      var bv: u64 := b[i] + borrow;
      ghost var before := out[..i];
      ghost var next := if av < bv then 1 else 0;
      BorrowStep(R(i), A[i], B[i], borrow, (av - bv) % BASE, next);
      ValSnoc(A, i, BASE);
      ValSnoc(B, i, BASE);
      out[i] := (av - bv) % BASE;
      borrow := if av < bv then 1 else 0;
      assert out[..i] == before;
      Extend(out, i);
    }
    assert out[..8] == out[..] && A[..8] == A && B[..8] == B;
  }

  /** Three-way comparison from the top limb down. */
  method Cmp(a: array<u32>, b: array<u32>) returns (c: int)
    requires a.Length == b.Length == LIMBS
    ensures c == if Num(a[..]) > Num(b[..]) then 1 else if Num(a[..]) < Num(b[..]) then -1 else 0
  {
    var i := LIMBS;
    while i > 0
      invariant 0 <= i <= LIMBS
      invariant a[i..] == b[i..]
    {
      i := i - 1;
      assert a[..][i + 1..] == b[..][i + 1..];
      if a[i] > b[i] {
        ValCompare(a[..], b[..], i, BASE);
        return 1;
      }
      if a[i] < b[i] {
        ValCompare(b[..], a[..], i, BASE);
        return -1;
      }
    }
    assert a[..] == a[0..] == b[0..] == b[..];
    c := 0;
  }

  // ----- the nine-limb remainder -------------------------------------------

  lemma ShiftLimb(x: u32, c: int)
    requires 0 <= c <= 1
    ensures x * 2 % BASE + c == (x + x + c) % BASE
    ensures x / 0x8000_0000 == (x + x + c) / BASE
  {
    if x < 0x8000_0000 {
      assert x * 2 % BASE == x * 2;
    } else {
      assert x * 2 % BASE == x * 2 - BASE;
    }
  }

  /** rem := 2 * rem + bit; the bit shifted out of the ninth limb is lost. */
  method RemShiftIn(rem: array<u32>, bit: u32)
    requires rem.Length == 9 && bit <= 1
    modifies rem
    ensures 2 * Num(old(rem[..])) + bit < R(9) ==> Num(rem[..]) == 2 * Num(old(rem[..])) + bit
  {
    hide Num, R;
    ghost var A := rem[..];
    var carry: u32 := bit;
    ShiftStarts(rem[..], A, bit);
    for i := 0 to 9
      invariant carry <= 1
      invariant forall k :: i <= k < 9 ==> rem[k] == A[k]
      invariant Num(rem[..i]) + carry * R(i) == 2 * Num(A[..i]) + bit
    {
      var next: u32 := rem[i] / 0x8000_0000;
      ghost var before := rem[..i];
      ShiftLimb(rem[i], carry);
      ShiftStep(before, A, i, carry, bit, next);
      rem[i] := rem[i] * 2 % BASE + carry;
      carry := next;
      assert rem[..i] == before;
      Extend(rem, i);
    }
    assert rem[..9] == rem[..] && A[..9] == A;
    NumBound(rem[..]);
    RadixPositive(9);
    SmallCarry(Num(rem[..]), carry, R(9));
  }

  lemma RadixPositive(n: nat)
    ensures R(n) > 0
  {
    PowPositive(BASE, n);
  }

  lemma ShiftStarts(r: seq<u32>, a: seq<u32>, bit: u32)
    ensures Num(r[..0]) + bit * R(0) == 2 * Num(a[..0]) + bit
  {
    assert r[..0] == [] && a[..0] == [];
  }

  /** One limb doubled, on values. */
  lemma ShiftStep(before: seq<u32>, a: seq<u32>, i: nat, carry: u32, bit: u32, next: u32)
    requires i < |a| && carry <= 1 && next == a[i] / 0x8000_0000 && Num(before) + carry * R(i) == 2 * Num(a[..i]) + bit
    ensures Num(before) + (a[i] * 2 % BASE + carry) * R(i) + next * R(i + 1) == 2 * Num(a[..i + 1]) + bit
  {
    hide Val, Pow;
    NextRadix(i);
    ValSnoc(a, i, BASE);
    ShiftLimb(a[i], carry);
    CarryStep(R(i), a[i], a[i], carry, a[i] + a[i] + carry);
  }

  lemma SmallCarry(x: int, c: int, r: int)
    requires 0 <= x && 0 <= c <= 1 && r > 0
    ensures x + c * r < r ==> c == 0
  {
  }

  lemma SplitRem(rem: array<u32>)
    requires rem.Length == 9
    ensures Num(rem[..]) == Num(rem[..8]) + rem[8] * R(8)
    ensures 0 <= Num(rem[..8]) < R(8)
    ensures rem[8] > 0 ==> Num(rem[..]) >= R(8)
    ensures rem[8] == 0 <==> Num(rem[..]) < R(8)
    ensures rem[8] == 0 ==> Num(rem[..]) == Num(rem[..8])
  {
    Extend(rem, 8);
    assert rem[..9] == rem[..];
    NumBound(rem[..8]);
    if rem[8] > 0 {
      DigitStep(0, rem[8], R(8));
    }
  }

  method RemCmpMod(rem: array<u32>, mod: array<u32>) returns (c: int)
    requires rem.Length == 9 && mod.Length == LIMBS
    ensures c == if Num(rem[..]) > Num(mod[..]) then 1 else if Num(rem[..]) < Num(mod[..]) then -1 else 0
  {
    SplitRem(rem);
    NumBound(mod[..]);
    if rem[8] != 0 {
      return 1;
    }
    var i := LIMBS;
    while i > 0
      invariant 0 <= i <= LIMBS
      invariant rem[i..8] == mod[i..]
    {
      i := i - 1;
      assert rem[..8][i + 1..] == rem[i + 1..8] && mod[..][i + 1..] == mod[i + 1..];
      if rem[i] > mod[i] {
        ValCompare(rem[..8], mod[..], i, BASE);
        return 1;
      }
      if rem[i] < mod[i] {
        ValCompare(mod[..], rem[..8], i, BASE);
        return -1;
      }
    }
    assert rem[..8] == rem[0..8] == mod[0..] == mod[..];
    c := 0;
  }

  /** rem := rem - mod modulo 2^288. */
  method RemSubMod(rem: array<u32>, mod: array<u32>)
    requires rem.Length == 9 && mod.Length == LIMBS && rem != mod
    modifies rem
    ensures Num(old(rem[..])) >= Num(mod[..]) ==> Num(rem[..]) == Num(old(rem[..])) - Num(mod[..])
  {
    ghost var A := rem[..];
    SplitRem(rem);
    var borrow: u32 := 0;
    for i := 0 to LIMBS
      invariant borrow <= 1
      invariant forall k :: i <= k < 9 ==> rem[k] == A[k]
      invariant Num(rem[..i]) - borrow * R(i) == Num(A[..i]) - Num(mod[..i])
    {
      var av: u64 := rem[i];
      var bv: u64 := mod[i] + borrow;
      ghost var before := rem[..i];
      ghost var next := if av < bv then 1 else 0;
      BorrowStep(R(i), A[i], mod[i], borrow, (av - bv) % BASE, next);
      ValSnoc(A, i, BASE);
      Extend(mod, i);
      rem[i] := (av - bv) % BASE;
      borrow := if av < bv then 1 else 0;
      assert rem[..i] == before;
      Extend(rem, i);
    }
    assert mod[..8] == mod[..];
    ghost var low := rem[..8];
    rem[8] := (rem[8] - borrow) % BASE;
    assert rem[..8] == low;
    SplitRem(rem);
    NumBound(mod[..]);
    TopLimb(Num(A[..8]), A[8], Num(mod[..]), Num(low), borrow, R(8));
  }

  lemma NotNegative(d: int, r: int)
    requires r > 0 && d * r > -r
    ensures d >= 0
  {
  }

  lemma TopLimb(x: int, t: u32, m: int, y: int, c: int, r: int)
    requires r > 0 && 0 <= c <= 1 && 0 <= y < r && 0 <= x && 0 <= m
    requires y - c * r == x - m
    ensures x + t * r >= m ==> y + (t - c) % BASE * r == x + t * r - m
  {
    if x + t * r >= m {
      assert y + (t - c) * r == x + t * r - m;
      NotNegative(t - c, r);
    }
  }

  // ----- schoolbook product ---------------------------------------------------

  lemma MulMonotone(x: int, y: int, c: int)
    requires 0 <= x && y <= c
    ensures x * y <= x * c
  {
    assert x * (c - y) >= 0;
  }

  lemma LimbProduct(x: u32, y: u32, o: u32, c: u32)
    ensures 0 <= x * y + o + c < 0x1_0000_0000_0000_0000
  {
    MulMonotone(x, y, 0xFFFF_FFFF);
    MulMonotone(x, 0, y);
  }

  lemma ProductStep(n: int, o: int, x: int, y: int, c: int, ri: int, rj: int, v: int)
    requires v == x * y + o + c
    ensures n + (v % BASE - o) * (ri * rj) + (v / BASE) * (BASE * (ri * rj)) == n + c * (ri * rj) + (x * (y * rj)) * ri
  {
    var p := ri * rj;
    CarryStep(p, x * y, o, c, v);
    assert (v % BASE - o) * p == (v % BASE) * p - o * p;
    assert (x * y) * p == (x * (y * rj)) * ri;
  }

  lemma RowSum(x: int, u: int, v: int, r: int)
    ensures (x * (u + v)) * r == (x * u) * r + (x * v) * r
  {
  }

  /** The limb product at place i + j, on values. */
  lemma RowStep(p: seq<u32>, b: seq<u32>, ai: u32, carry: u32, i: nat, j: nat, start: int, cur: u64)
    requires |p| == 16 && |b| == LIMBS && i < LIMBS && j < LIMBS && cur == ai * b[j] + p[i + j] + carry
    requires Num(p) + carry * R(i + j) == start + (ai * Num(b[..j])) * R(i)
    ensures Num(p[i + j := cur % BASE]) + cur / BASE * R(i + j + 1) == start + (ai * Num(b[..j + 1])) * R(i)
  {
    hide Val, Pow;
    PowAdd(BASE, i, j);
    NextRadix(i + j);
    ValUpdate(p, i + j, cur % BASE, BASE);
    ValSnoc(b, j, BASE);
    ProductStep(Num(p), p[i + j], ai, b[j], carry, R(i), R(j), cur);
    Distribute(ai, Num(b[..j]), b[j], R(j));
    RowSum(ai, Num(b[..j]), b[j] * R(j), R(i));
  }

  lemma NextRadix(n: nat)
    ensures R(n + 1) == BASE * R(n)
  {
  }

  /** A carry let through limb k, on values. */
  /** Replacing limb `limb` by the low half of its sum with the carry. */
  lemma CarryMoves(w: int, limb: int, carry: int, v: int, n: int, total: int)
    requires v == limb + carry && n + carry * w == total
    ensures n + (v % BASE - limb) * w + v / BASE * (BASE * w) == total
  {
    CarryStep(w, limb, 0, carry, v);
    Split(v % BASE, -limb, w);
    Split(-limb, limb, w);
  }

  lemma CarryOn(p: seq<u32>, carry: u32, k: nat, total: int, cur: u64)
    requires |p| == 16 && k < 16 && cur == p[k] + carry && Num(p) + carry * R(k) == total
    ensures Num(p[k := cur % BASE]) + cur / BASE * R(k + 1) == total
  {
    hide Val, Pow;
    NextRadix(k);
    ValUpdate(p, k, cur % BASE, BASE);
    CarryMoves(R(k), p[k], carry, cur, Num(p), total);
  }

  /** Adds ai * b, shifted up by i limbs, into `product`; the row has no lost carry. */
  method MulRow(product: array<u32>, ai: u32, b: array<u32>, i: nat)
    requires product.Length == 16 && b.Length == LIMBS && b != product && i < LIMBS
    requires forall k :: i + 8 <= k < 16 ==> product[k] == 0
    modifies product
    ensures Num(product[..]) == Num(old(product[..])) + (ai * Num(b[..])) * R(i)
    ensures forall k :: i + 9 <= k < 16 ==> product[k] == 0
  {
    hide Num, R;
    ghost var start := Num(product[..]);
    var carry: u32 := 0;
    RowStarts(b[..], ai, i);
    for j := 0 to LIMBS
      invariant forall k :: i + 8 <= k < 16 ==> product[k] == 0
      invariant Num(product[..]) + carry * R(i + j) == start + (ai * Num(b[..j])) * R(i)
    {
      var k := i + j;
      LimbProduct(ai, b[j], product[k], carry);
      var cur: u64 := ai * b[j] + product[k] + carry;
      RowStep(product[..], b[..], ai, carry, i, j, start, cur);
      assert b[..][..j] == b[..j] && b[..][..j + 1] == b[..j + 1];
      ghost var before := product[..];
      product[k] := cur % BASE;
      carry := cur / BASE;
      assert product[..] == before[k := product[k]];
    }
    assert b[..8] == b[..];
    var k := i + 8;
    ghost var total := start + (ai * Num(b[..])) * R(i);
    while carry != 0 && k < 16
      invariant i + 8 <= k <= 16
      invariant k == i + 8 || carry == 0
      invariant forall m :: k <= m < 16 ==> product[m] == 0
      invariant forall m :: i + 9 <= m < 16 ==> product[m] == 0
      invariant Num(product[..]) + carry * R(k) == total
      decreases 16 - k
    {
      var cur: u64 := product[k] + carry;
      CarryOn(product[..], carry, k, total, cur);
      ghost var before := product[..];
      product[k] := cur % BASE;
      carry := cur / BASE;
      assert product[..] == before[k := product[k]];
      k := k + 1;
    }
  }

  lemma RowStarts(b: seq<u32>, ai: u32, i: nat)
    ensures b[..0] == [] && Num(b[..0]) == 0 && (ai * Num(b[..0])) * R(i) == 0
  {
  }

  /** product := a * b, exactly, in sixteen limbs. */
  method MulLimbs(product: array<u32>, a: array<u32>, b: array<u32>)
    requires product.Length == 16 && a.Length == b.Length == LIMBS
    requires product != a && product != b
    requires forall k :: 0 <= k < 16 ==> product[k] == 0
    modifies product
    ensures Num(product[..]) == Num(a[..]) * Num(b[..])
  {
    ValZero(product[..], BASE);
    for i := 0 to LIMBS
      invariant forall k :: i + 8 <= k < 16 ==> product[k] == 0
      invariant Num(product[..]) == Num(a[..i]) * Num(b[..])
    {
      Extend(a, i);
      RowProduct(Num(a[..i]), a[i], R(i), Num(b[..]));
      MulRow(product, a[i], b, i);
    }
    assert a[..8] == a[..];
  }

  lemma RowProduct(u: int, x: int, r: int, v: int)
    ensures (u + x * r) * v == u * v + (x * v) * r
  {
  }

  // ----- bit-serial reduction -------------------------------------------------

  lemma Pow2Of32()
    ensures Pow2(32) == BASE
  {
    assert Pow2(8) == 256;
    assert Pow2(16) == 65536;
    assert Pow2(24) == 0x100_0000;
  }

  method GetBit512(value: array<u32>, bit: nat) returns (b: u32)
    requires value.Length == 16 && bit < 512
    ensures b == Bit(value[..], 32, bit)
  {
    b := value[bit / 32] / Pow2(bit % 32) % 2;
  }

  lemma ReduceStep(t: int, b: int, m: int, r: int)
    requires m > 0 && t >= 0 && r == t % m && 0 <= b <= 1
    ensures (2 * t + b) % m == if 2 * r + b >= m then 2 * r + b - m else 2 * r + b
    ensures 0 <= r < m
  {
    var q := t / m;
    assert t == m * q + r;
    Split(q, q, m);
    if 2 * r + b >= m {
      Split(q + q, 1, m);
      QuotientIs(2 * t + b, m, q + q + 1, 2 * r + b - m);
    } else {
      QuotientIs(2 * t + b, m, q + q, 2 * r + b);
    }
  }

  /** One round: shift a bit in, then subtract the modulus if it fits. */
  method ReduceBit(rem: array<u32>, bit: u32, mod: array<u32>)
    requires rem.Length == 9 && mod.Length == LIMBS && rem != mod && bit <= 1
    requires Num(rem[..]) < Num(mod[..])
    modifies rem
    ensures Num(rem[..]) == var n := 2 * Num(old(rem[..])) + bit; if n >= Num(mod[..]) then n - Num(mod[..]) else n
  {
    NumBound(mod[..]);
    assert R(9) == BASE * R(8);
    RemShiftIn(rem, bit);
    var c := RemCmpMod(rem, mod);
    if c >= 0 {
      RemSubMod(rem, mod);
    }
  }

  /** Feeds all 512 bits of the product, top bit first, into the remainder. */
  method ReduceBits(rem: array<u32>, product: array<u32>, mod: array<u32>)
    requires rem.Length == 9 && mod.Length == LIMBS && product.Length == 16
    requires rem != mod && rem != product && Num(rem[..]) == 0 < Num(mod[..])
    modifies rem
    ensures Num(rem[..]) == Num(product[..]) % Num(mod[..])
  {
    ghost var s, m := product[..], Num(mod[..]);
    var bit := 512;
    while bit > 0
      invariant 0 <= bit <= 512
      invariant product[..] == s && Num(mod[..]) == m
      invariant Num(rem[..]) == Top(s, 32, 512, bit) % m
    {
      hide Num, Top, Bit;
      bit := bit - 1;
      var b := GetBit512(product, bit);
      TopUnfold(s, 32, 512, bit);
      ReduceStep(Top(s, 32, 512, bit + 1), b, m, Num(rem[..]));
      ReduceBit(rem, b, mod);
    }
    TopIsNum(s);
  }

  /** out := product mod mod; the ninth limb of the remainder ends up zero. */
  method ReduceProductMod(out: array<u32>, product: array<u32>, mod: array<u32>)
    requires out.Length == mod.Length == LIMBS && product.Length == 16
    requires out != mod && Num(mod[..]) > 0
    modifies out
    ensures Num(out[..]) == Num(old(product[..])) % Num(old(mod[..]))
  {
    var rem := new u32[9](_ => 0);
    ValZero(rem[..], BASE);
    ReduceBits(rem, product, mod);
    hide Num, R;
    NumBound(mod[..]);
    SplitRem(rem);
    ghost var low := rem[..8];
    for i := 0 to LIMBS
      invariant rem[..8] == low
      invariant out[..i] == low[..i]
    {
      out[i] := rem[i];
    }
    assert out[..] == out[..8] == low[..8] == low;
  }

  lemma TopIsNum(s: seq<u32>)
    requires |s| == 16
    ensures Top(s, 32, 512, 0) == Num(s)
  {
    Pow2Of32();
    TopIsVal(s, 32, 512);
  }
}
