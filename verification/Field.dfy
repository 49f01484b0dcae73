/** Field and scalar arithmetic of drivers/p256.c: the prime field of P-256 and
    the integers modulo the group order. */
module Field {
  import opened Numeral
  import opened Limbs
  import opened ModArith

  // FIPS 186-4 section D.1.2.3
  const P: int := 0xFFFFFFFF_00000001_00000000_00000000_00000000_FFFFFFFF_FFFFFFFF_FFFFFFFF
  const N: int := 0xFFFFFFFF_00000000_FFFFFFFF_FFFFFFFF_BCE6FAAD_A7179E84_F3B9CAC2_FC632551

  const P_LIMBS: seq<u32> :=
    [0xFFFFFFFF, 0xFFFFFFFF, 0xFFFFFFFF, 0x00000000, 0x00000000, 0x00000000, 0x00000001, 0xFFFFFFFF]

  const N_LIMBS: seq<u32> :=
    [0xFC632551, 0xF3B9CAC2, 0xA7179E84, 0xBCE6FAAD, 0xFFFFFFFF, 0xFFFFFFFF, 0x00000000, 0xFFFFFFFF]

  const P_MINUS_2_BE: seq<byte> := [
    0xFF, 0xFF, 0xFF, 0xFF, 0x00, 0x00, 0x00, 0x01,
    0x00, 0x00, 0x00, 0x00, 0x00, 0x00, 0x00, 0x00,
    0x00, 0x00, 0x00, 0x00, 0xFF, 0xFF, 0xFF, 0xFF,
    0xFF, 0xFF, 0xFF, 0xFF, 0xFF, 0xFF, 0xFF, 0xFD
  ]

  const N_MINUS_2_BE: seq<byte> := [
    0xFF, 0xFF, 0xFF, 0xFF, 0x00, 0x00, 0x00, 0x00,
    0xFF, 0xFF, 0xFF, 0xFF, 0xFF, 0xFF, 0xFF, 0xFF,
    0xBC, 0xE6, 0xFA, 0xAD, 0xA7, 0x17, 0x9E, 0x84,
    0xF3, 0xB9, 0xCA, 0xC2, 0xFC, 0x63, 0x25, 0x4F
  ]

  lemma NoLimbs(s: seq<u32>)
    ensures Val(s[..0], BASE) == 0
  {
  }

  lemma Num8(s: seq<u32>)
    requires |s| == 8
    ensures Num(s) == (s[0] as int) + (s[1] as int) * 0x1_0000_0000 + (s[2] as int) * 0x1_0000_0000_0000_0000
                      + (s[3] as int) * 0x1_00000000_00000000_00000000
                      + (s[4] as int) * 0x1_00000000_00000000_00000000_00000000
                      + (s[5] as int) * 0x1_00000000_00000000_00000000_00000000_00000000
                      + (s[6] as int) * 0x1_00000000_00000000_00000000_00000000_00000000_00000000
                      + (s[7] as int) * 0x1_00000000_00000000_00000000_00000000_00000000_00000000_00000000
  {
    hide Val, Pow, BASE;
    NoLimbs(s);
    ValSnoc(s, 0, BASE);
    ValSnoc(s, 1, BASE);
    ValSnoc(s, 2, BASE);
    ValSnoc(s, 3, BASE);
    ValSnoc(s, 4, BASE);
    ValSnoc(s, 5, BASE);
    ValSnoc(s, 6, BASE);
    ValSnoc(s, 7, BASE);
    assert s[..8] == s;
    Powers();
  }

  lemma Powers()
    ensures Pow(BASE, 0) == 1
    ensures Pow(BASE, 1) == 0x1_0000_0000
    ensures Pow(BASE, 2) == 0x1_0000_0000_0000_0000
    ensures Pow(BASE, 3) == 0x1_00000000_00000000_00000000
    ensures Pow(BASE, 4) == 0x1_00000000_00000000_00000000_00000000
    ensures Pow(BASE, 5) == 0x1_00000000_00000000_00000000_00000000_00000000
    ensures Pow(BASE, 6) == 0x1_00000000_00000000_00000000_00000000_00000000_00000000
    ensures Pow(BASE, 7) == 0x1_00000000_00000000_00000000_00000000_00000000_00000000_00000000
    ensures Pow(BASE, 8) == 0x1_00000000_00000000_00000000_00000000_00000000_00000000_00000000_00000000
  {
  }

  lemma ModulusValues()
    ensures Num(P_LIMBS) == P && Num(N_LIMBS) == N
  {
    Num8(P_LIMBS);
    Num8(N_LIMBS);
  }

  /** A fresh copy of a constant limb table. */
  method Copy(s: seq<u32>) returns (a: array<u32>)
    ensures fresh(a) && a[..] == s
  {
    a := new u32[|s|](i requires 0 <= i < |s| => s[i]);
  }

  method CopyInto(out: array<u32>, src: array<u32>)
    requires out.Length == src.Length == LIMBS
    modifies out
    ensures out[..] == old(src[..])
  {
    ghost var s := src[..];
    for i := 0 to LIMBS
      invariant out[..i] == s[..i]
      invariant forall k :: i <= k < LIMBS ==> src[k] == s[k]
    {
      out[i] := src[i];
    }
    assert out[..8] == out[..] && s[..8] == s;
  }

  // ----- addition and subtraction: one conditional correction -----------------

  const R256: int := 0x1_00000000_00000000_00000000_00000000_00000000_00000000_00000000_00000000

  lemma RadixValue()
    ensures R(8) == R256
  {
    Powers();
  }

  /** What p256_fe_add computes on any two 256-bit inputs, reduced or not. */
  function AddOnce(x: int, y: int): int {
    if x + y < P then x + y else (x + y - P) % R256
  }

  /** What p256_fe_sub computes on any two 256-bit inputs. */
  function SubOnce(x: int, y: int): int {
    if x >= y then x - y else (x - y + P) % R256
  }

  lemma OnceIsMod(x: int, y: int)
    requires 0 <= x < P && 0 <= y < P
    ensures AddOnce(x, y) == (x + y) % P && SubOnce(x, y) == (x - y) % P
  {
  }

  method ReduceOnce(out: array<u32>, carry: u32)
    requires out.Length == LIMBS && carry <= 1
    modifies out
    ensures Num(out[..]) == var n := Num(old(out[..])) + carry * R256; if n < P then n else (n - P) % R256
  {
    ghost var s := out[..];
    RadixValue();
    NumBound(s);
    ModulusValues();
    var p := Copy(P_LIMBS);
    var c := Cmp(out, p);
    if carry != 0 || c >= 0 {
      var tmp := new u32[LIMBS];
      var borrow := RawSub(tmp, out, p);
      NumBound(tmp[..]);
      CopyInto(out, tmp);
    }
  }

  method FeAdd(out: array<u32>, a: array<u32>, b: array<u32>)
    requires out.Length == a.Length == b.Length == LIMBS
    modifies out
    ensures Num(out[..]) == AddOnce(Num(old(a[..])), Num(old(b[..])))
  {
    var carry := RawAdd(out, a, b);
    RadixValue();
    ReduceOnce(out, carry);
  }

  method FeSub(out: array<u32>, a: array<u32>, b: array<u32>)
    requires out.Length == a.Length == b.Length == LIMBS
    modifies out
    ensures Num(out[..]) == SubOnce(Num(old(a[..])), Num(old(b[..])))
  {
    RadixValue();
    ModulusValues();
    NumBound(a[..]);
    NumBound(b[..]);
    var borrow := RawSub(out, a, b);
    NumBound(out[..]);
    if borrow != 0 {
      var p := Copy(P_LIMBS);
      var tmp := new u32[LIMBS];
      var carry := RawAdd(tmp, out, p);
      NumBound(tmp[..]);
      CopyInto(out, tmp);
    }
  }

  // ----- multiplication --------------------------------------------------------

  /** out := a * b mod `modulus` for all 256-bit inputs; `out` may be `a` or `b`. */
  method MulMod(out: array<u32>, a: array<u32>, b: array<u32>, modulus: seq<u32>)
    requires out.Length == a.Length == b.Length == |modulus| == LIMBS && Num(modulus) > 0
    modifies out
    ensures Num(out[..]) == Num(old(a[..])) * Num(old(b[..])) % Num(modulus)
  {
    var product := new u32[16](_ => 0);
    MulLimbs(product, a, b);
    var mod := Copy(modulus);
    ReduceProductMod(out, product, mod);
  }

  method FeMul(out: array<u32>, a: array<u32>, b: array<u32>)
    requires out.Length == a.Length == b.Length == LIMBS
    modifies out
    ensures Num(out[..]) == Num(old(a[..])) * Num(old(b[..])) % P
  {
    ModulusValues();
    MulMod(out, a, b, P_LIMBS);
  }

  method ScalarMul(out: array<u32>, a: array<u32>, b: array<u32>)
    requires out.Length == a.Length == b.Length == LIMBS
    modifies out
    ensures Num(out[..]) == Num(old(a[..])) * Num(old(b[..])) % N
  {
    ModulusValues();
    MulMod(out, a, b, N_LIMBS);
  }

  // ----- byte strings ----------------------------------------------------------

  lemma PowOf256(i: nat)
    ensures Pow(256, 4 * i) == R(i)
  {
    assert Pow(256, 4) == BASE;
    PowMul(256, 4, i);
  }

  /** Four bytes of a base-256 numeral weigh what one limb weighs. */
  lemma FourBytes(s: seq<int>, i: nat)
    requires 4 * i + 4 <= |s|
    ensures Val(s[..4 * i + 4], 256) == Val(s[..4 * i], 256)
              + (s[4 * i] + 256 * s[4 * i + 1] + 65536 * s[4 * i + 2] + 0x100_0000 * s[4 * i + 3]) * R(i)
  {
    var k := 4 * i;
    ValSnoc(s, k, 256);
    ValSnoc(s, k + 1, 256);
    ValSnoc(s, k + 2, 256);
    ValSnoc(s, k + 3, 256);
    PowOf256(i);
    assert Pow(256, k + 1) == 256 * Pow(256, k);
    assert Pow(256, k + 2) == 256 * Pow(256, k + 1);
    assert Pow(256, k + 3) == 256 * Pow(256, k + 2);
    hide *;
    FourTerms(s[k], s[k + 1], s[k + 2], s[k + 3], R(i));
  }

  lemma FourTerms(a: int, b: int, c: int, d: int, r: int)
    ensures a * r + b * (256 * r) + c * (256 * (256 * r)) + d * (256 * (256 * (256 * r)))
            == (a + 256 * b + 65536 * c + 0x100_0000 * d) * r
  {
  }

  function Be32(src: seq<byte>, k: nat): u32
    requires k + 4 <= |src|
  {
    (src[k] as int) * 0x100_0000 + (src[k + 1] as int) * 65536 + (src[k + 2] as int) * 256 + (src[k + 3] as int)
  }

  /** The first i limbs and the first 4 i bytes stand for the same number. */
  ghost predicate LimbsMatch(limbs: seq<u32>, le: seq<byte>, i: nat) {
    |limbs| == 8 && |le| == 32 && i <= 8 && Num(limbs[..i]) == Val(le[..4 * i], 256)
  }

  lemma NothingRead(limbs: seq<u32>, le: seq<byte>)
    requires |limbs| == 8 && |le| == 32
    ensures LimbsMatch(limbs, le, 0)
  {
  }

  lemma NextLimb(src: seq<byte>, limbs: seq<u32>, le: seq<byte>, i: nat)
    requires |src| == 32 && i < 8 && le == Reverse(src) && LimbsMatch(limbs, le, i) && limbs[i] == Be32(src, (7 - i) * 4)
    ensures LimbsMatch(limbs, le, i + 1)
  {
    hide Val, Pow;
    FourBytes(le, i);
    ValSnoc(limbs, i, BASE);
  }

  lemma BeValOfLimbs(src: seq<byte>, limbs: seq<u32>)
    requires |src| == 32 && |limbs| == 8
    requires forall i :: 0 <= i < 8 ==> limbs[i] == Be32(src, (7 - i) * 4)
    ensures BeVal(src) == Num(limbs)
  {
    var le := Reverse(src);
    NothingRead(limbs, le);
    var i := 0;
    while i < 8
      invariant 0 <= i <= 8
      invariant LimbsMatch(limbs, le, i)
    {
      NextLimb(src, limbs, le, i);
      i := i + 1;
    }
    assert limbs[..8] == limbs && le[..32] == le;
  }

  method FeFromBe32(out: array<u32>, src: seq<byte>)
    requires out.Length == LIMBS && |src| == 32
    modifies out
    ensures Num(out[..]) == BeVal(src)
  {
    hide Num, BeVal, Be32;
    for i := 0 to LIMBS
      invariant forall k :: 0 <= k < i ==> out[k] == Be32(src, (LIMBS - 1 - k) * 4)
    {
      out[i] := Be32(src, (LIMBS - 1 - i) * 4);
    }
    BeValOfLimbs(src, out[..]);
  }

  const P_MINUS_2_LIMBS: seq<u32> :=
    [0xFFFFFFFD, 0xFFFFFFFF, 0xFFFFFFFF, 0x00000000, 0x00000000, 0x00000000, 0x00000001, 0xFFFFFFFF]

  const N_MINUS_2_LIMBS: seq<u32> :=
    [0xFC63254F, 0xF3B9CAC2, 0xA7179E84, 0xBCE6FAAD, 0xFFFFFFFF, 0xFFFFFFFF, 0x00000000, 0xFFFFFFFF]

  /** Limb i of a big-endian table of 32 bytes. */
  ghost predicate LimbOf(table: seq<byte>, limbs: seq<u32>, i: nat) {
    |table| == 32 && |limbs| == 8 && i < 8 && limbs[i] == Be32(table, (7 - i) * 4)
  }

  lemma PTableLimbs()
    ensures LimbOf(P_MINUS_2_BE, P_MINUS_2_LIMBS, 0) && LimbOf(P_MINUS_2_BE, P_MINUS_2_LIMBS, 1)
    ensures LimbOf(P_MINUS_2_BE, P_MINUS_2_LIMBS, 2) && LimbOf(P_MINUS_2_BE, P_MINUS_2_LIMBS, 3)
    ensures LimbOf(P_MINUS_2_BE, P_MINUS_2_LIMBS, 4) && LimbOf(P_MINUS_2_BE, P_MINUS_2_LIMBS, 5)
    ensures LimbOf(P_MINUS_2_BE, P_MINUS_2_LIMBS, 6) && LimbOf(P_MINUS_2_BE, P_MINUS_2_LIMBS, 7)
  {
  }

  lemma NTableLimbs()
    ensures LimbOf(N_MINUS_2_BE, N_MINUS_2_LIMBS, 0) && LimbOf(N_MINUS_2_BE, N_MINUS_2_LIMBS, 1)
    ensures LimbOf(N_MINUS_2_BE, N_MINUS_2_LIMBS, 2) && LimbOf(N_MINUS_2_BE, N_MINUS_2_LIMBS, 3)
    ensures LimbOf(N_MINUS_2_BE, N_MINUS_2_LIMBS, 4) && LimbOf(N_MINUS_2_BE, N_MINUS_2_LIMBS, 5)
    ensures LimbOf(N_MINUS_2_BE, N_MINUS_2_LIMBS, 6) && LimbOf(N_MINUS_2_BE, N_MINUS_2_LIMBS, 7)
  {
  }

  lemma TableValue(table: seq<byte>, limbs: seq<u32>)
    requires LimbOf(table, limbs, 0) && LimbOf(table, limbs, 1) && LimbOf(table, limbs, 2) && LimbOf(table, limbs, 3)
    requires LimbOf(table, limbs, 4) && LimbOf(table, limbs, 5) && LimbOf(table, limbs, 6) && LimbOf(table, limbs, 7)
    ensures BeVal(table) == Num(limbs)
  {
    hide Be32, Num, BeVal;
    BeValOfLimbs(table, limbs);
  }

  lemma ExponentValues()
    ensures Num(P_MINUS_2_LIMBS) == P - 2 && Num(N_MINUS_2_LIMBS) == N - 2
  {
    hide Num;
    Num8(P_MINUS_2_LIMBS);
    Num8(N_MINUS_2_LIMBS);
  }

  lemma PExponent()
    ensures BeVal(P_MINUS_2_BE) == P - 2
  {
    hide *;
    PTableLimbs();
    TableValue(P_MINUS_2_BE, P_MINUS_2_LIMBS);
    ExponentValues();
  }

  lemma NExponent()
    ensures BeVal(N_MINUS_2_BE) == N - 2
  {
    hide *;
    NTableLimbs();
    TableValue(N_MINUS_2_BE, N_MINUS_2_LIMBS);
    ExponentValues();
  }

  // ----- exponentiation and inversion ------------------------------------------

  /** Bit `bit` of a big-endian byte table, counted from the least significant. */
  method TableBit(table: seq<byte>, bit: nat) returns (b: int)
    requires |table| == 32 && bit < 256
    ensures b == Bit(Reverse(table), 8, bit)
  {
    b := table[31 - bit / 8] / Pow2(bit % 8) % 2;
  }

  lemma SquareStep(a: int, e: nat, m: int, r: int)
    requires m > 0 && r == Pow(a, e) % m
    ensures r * r % m == Pow(a, 2 * e) % m
    ensures r * a % m == Pow(a, e + 1) % m
  {
    var w := Pow(a, e);
    PowAdd(a, e, e);
    assert Pow(a, e + 1) == a * w;
    hide *;
    CongMod(m, w);
    CongRefl(m, a);
    CongMul(m, r, w, r, w);
    CongMul(m, a, a, r, w);
    Commute(r, a);
    ModUnique(m, r * r, w * w);
    ModUnique(m, r * a, a * w);
  }

  lemma AllBits(table: seq<byte>)
    requires |table| == 32
    ensures Top(Reverse(table), 8, 256, 0) == BeVal(table)
  {
    assert Pow2(8) == 256;
    TopIsVal(Reverse(table), 8, 256);
  }

  method SetOne(out: array<u32>)
    requires out.Length == LIMBS
    modifies out
    ensures Num(out[..]) == 1
  {
    for i := 0 to LIMBS
      invariant forall k :: 0 <= k < i ==> out[k] == 0
    {
      out[i] := 0;
    }
    out[0] := 1;
    Num8(out[..]);
  }

  /** out := a^table mod modulus, by square and multiply over the table's bits. */
  method PowerOf(out: array<u32>, a: array<u32>, table: seq<byte>, modulus: seq<u32>)
    requires out.Length == a.Length == |modulus| == LIMBS && |table| == 32 && Num(modulus) > 1
    modifies out
    ensures Num(out[..]) == Pow(Num(old(a[..])), BeVal(table)) % Num(modulus)
  {
    var result := new u32[LIMBS];
    var base := new u32[LIMBS];
    CopyInto(base, a);
    SetOne(result);
    ghost var x, m, le := Num(a[..]), Num(modulus), Reverse(table);
    assert 1 % m == 1 by { DivModOf(m, 0, 1); }
    var bit := 256;
    while bit > 0
      invariant 0 <= bit <= 256
      invariant Num(base[..]) == x && a[..] == old(a[..])
      invariant Num(result[..]) == Pow(x, Top(le, 8, 256, bit)) % m
    {
      hide Num, Pow, Top, Bit, Pow2;
      bit := bit - 1;
      var b := TableBit(table, bit);
      ghost var e := Top(le, 8, 256, bit + 1);
      SquareStep(x, e, m, Num(result[..]));
      TopUnfold(le, 8, 256, bit);
      MulMod(result, result, result, modulus);
      if b != 0 {
        SquareStep(x, 2 * e, m, Num(result[..]));
        MulMod(result, result, base, modulus);
      }
    }
    AllBits(table);
    CopyInto(out, result);
  }

  method FeInv(out: array<u32>, a: array<u32>)
    requires out.Length == a.Length == LIMBS
    modifies out
    ensures Num(out[..]) == Pow(Num(old(a[..])), P - 2) % P
  {
    ModulusValues();
    PExponent();
    PowerOf(out, a, P_MINUS_2_BE, P_LIMBS);
  }

  method ScalarInv(out: array<u32>, a: array<u32>)
    requires out.Length == a.Length == LIMBS
    modifies out
    ensures Num(out[..]) == Pow(Num(old(a[..])), N - 2) % N
  {
    ModulusValues();
    NExponent();
    PowerOf(out, a, N_MINUS_2_BE, N_LIMBS);
  }

  /** For a prime modulus, what FeInv and ScalarInv return is the inverse. */
  lemma InverseIsInverse(m: int, a: int)
    requires IsPrime(m) && a % m != 0
    ensures a * (Pow(a, m - 2) % m) % m == 1
    ensures Pow(a, m - 2) % m != 0
  {
    var w := Pow(a, m - 2);
    FermatInverse(m, a);
    CongMod(m, w);
    CongRefl(m, a);
    CongMul(m, a, a, w % m, w);
    CongTrans(m, a * (w % m), a * w, 1);
    ModUnique(m, a * (w % m), 1);
    assert 1 % m == 1 by { DivModOf(m, 0, 1); }
  }

  // ----- scalars ---------------------------------------------------------------

  /** out := src mod N, by repeated subtraction. */
  method ScalarFromBe32(out: array<u32>, src: seq<byte>)
    requires out.Length == LIMBS && |src| == 32
    modifies out
    ensures Num(out[..]) == BeVal(src) % N
  {
    FeFromBe32(out, src);
    ScalarNormalize(out);
  }

  method ScalarNormalize(out: array<u32>)
    requires out.Length == LIMBS
    modifies out
    ensures Num(out[..]) == Num(old(out[..])) % N
  {
    ModulusValues();
    var n := Copy(N_LIMBS);
    ghost var start := Num(out[..]);
    var c := Cmp(out, n);
    NumBound(out[..]);
    while c >= 0
      invariant n[..] == N_LIMBS
      invariant Num(out[..]) >= 0 && Num(out[..]) % N == start % N
      invariant c >= 0 <==> Num(out[..]) >= N
      decreases Num(out[..])
    {
      hide Num;
      ghost var before := Num(out[..]);
      var borrow := RawSub(out, out, n);
      NumBound(out[..]);
      NoBorrow(Num(out[..]), borrow, before);
      c := Cmp(out, n);
    }
  }

  lemma NoBorrow(x: int, b: int, before: int)
    requires 0 <= x < R(8) && 0 <= b <= 1 && before >= N
    requires x - b * R(8) == before - N
    ensures x == before - N && x % N == before % N
  {
    RadixValue();
  }

  /** a + b, exactly, in nine limbs. */
  method WideSum(a: array<u32>, b: array<u32>) returns (sum: array<u32>)
    requires a.Length == b.Length == LIMBS
    ensures fresh(sum) && sum.Length == 9 && Num(sum[..]) == Num(a[..]) + Num(b[..])
  {
    ghost var A, B := a[..], b[..];
    sum := new u32[9];
    var carry: u32 := 0;
    for i := 0 to LIMBS
      invariant carry <= 1
      invariant a[..] == A && b[..] == B
      invariant Num(sum[..i]) + carry * R(i) == Num(A[..i]) + Num(B[..i])
    {
      var v: u64 := a[i] + b[i] + carry;
      ghost var before := sum[..i];
      CarryStep(R(i), A[i], B[i], carry, v);
      ValSnoc(A, i, BASE);
      ValSnoc(B, i, BASE);
      sum[i] := v % BASE;
      carry := v / BASE;
      assert sum[..i] == before;
      Extend(sum, i);
    }
    assert A[..8] == A && B[..8] == B;
    ghost var low := sum[..8];
    sum[8] := carry;
    assert sum[..8] == low;
    SplitRem(sum);
  }

  /** out := a + b, reduced by at most one subtraction of N. */
  method ScalarAdd(out: array<u32>, a: array<u32>, b: array<u32>)
    requires out.Length == a.Length == b.Length == LIMBS
    modifies out
    ensures var s := Num(old(a[..])) + Num(old(b[..])); Num(out[..]) == (if s >= N then s - N else s) % R256
  {
    hide Num, R, R256;
    var sum := WideSum(a, b);
    ModulusValues();
    var n := Copy(N_LIMBS);
    var c := RemCmpMod(sum, n);
    if c >= 0 {
      RemSubMod(sum, n);
    }
    SplitRem(sum);
    LowLimbs(Num(sum[..]), Num(sum[..8]), sum[8]);
    ghost var kept := sum[..8];
    for i := 0 to LIMBS
      invariant sum[..8] == kept && out[..i] == kept[..i]
    {
      out[i] := sum[i];
    }
    assert out[..] == out[..8] == kept[..8] == kept;
  }

  lemma LowLimbs(n: int, low: int, top: u32)
    requires 0 <= low < R(8) && n == low + top * R(8)
    ensures low == n % R256
  {
    RadixValue();
    DivModOf(R256, top, low);
  }

  lemma ScalarAddIsMod(x: int, y: int)
    requires 0 <= x < N && 0 <= y < N
    ensures (if x + y >= N then x + y - N else x + y) % R256 == (x + y) % N
  {
  }
}
