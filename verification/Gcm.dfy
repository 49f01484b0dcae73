/** AES-GCM as drivers/net.c computes it; the block cipher under the key is a parameter. */
module Gcm {
  import opened Bits
  import opened Gf128

  type Block = s: seq<byte> | |s| == 16 witness ZeroBlock()

  function ZeroBlock(): (s: seq<byte>)
    ensures |s| == 16 && forall i :: 0 <= i < 16 ==> s[i] == 0
  {
    seq(16, _ => 0)
  }

  // ----- bits and bytes ------------------------------------------------------------------

  /** The bit of weight 2^(7-k): bits count from the high end. */
  predicate HighBit(a: byte, k: nat)
    requires k < 8
  {
    BitOf(a, 7 - k)
  }

  function XorByte(a: byte, b: byte): byte {
    a ^ b
  }

  /** Bit i of a block, first byte first, high bit first. */
  predicate BitAt(s: Block, i: nat)
    requires i < 128
  {
    HighBit(s[i / 8], i % 8)
  }

  /** The block as a polynomial: bit i is the coefficient of x^i. */
  function ToPoly(s: Block): (p: Poly)
    ensures forall i :: i in p <==> i < 128 && BitAt(s, i)
  {
    set i: nat | i < 128 && BitAt(s, i)
  }

  lemma OneBitXor(a: byte, b: byte, m: byte)
    requires OneBit(m)
    ensures (a ^ b) & m != 0 <==> (a & m != 0) != (b & m != 0)
  {
  }

  lemma MaskXor(a: byte, b: byte, k: nat)
    requires k < 8
    ensures HighBit(XorByte(a, b), k) <==> HighBit(a, k) != HighBit(b, k)
  {
    hide Mask, OneBit;
    MaskIs(7 - k, 7 - k);
    OneBitXor(a, b, Mask(7 - k));
  }

  lemma ShiftedOut(a: byte)
    ensures (a >> 7) & 1 != 0 <==> a & 0x80 != 0
    ensures (a >> 6) & 1 != 0 <==> a & 0x40 != 0
    ensures (a >> 5) & 1 != 0 <==> a & 0x20 != 0
    ensures (a >> 4) & 1 != 0 <==> a & 0x10 != 0
    ensures (a >> 3) & 1 != 0 <==> a & 0x08 != 0
    ensures (a >> 2) & 1 != 0 <==> a & 0x04 != 0
    ensures (a >> 1) & 1 != 0 <==> a & 0x02 != 0
    ensures (a >> 0) & 1 != 0 <==> a & 0x01 != 0
  {
  }

  lemma MaskTest(a: byte, k: nat)
    requires k < 8
    ensures (a >> (7 - k)) & 1 != 0 <==> HighBit(a, k)
  {
    ShiftedOut(a);
  }

  /** A byte is its eight bits. */
  lemma MaskAll(a: byte, b: byte)
    requires forall k :: 0 <= k < 8 ==> (HighBit(a, k) <==> HighBit(b, k))
    ensures a == b
  {
    assert HighBit(a, 0) <==> HighBit(b, 0);
    assert HighBit(a, 1) <==> HighBit(b, 1);
    assert HighBit(a, 2) <==> HighBit(b, 2);
    assert HighBit(a, 3) <==> HighBit(b, 3);
    assert HighBit(a, 4) <==> HighBit(b, 4);
    assert HighBit(a, 5) <==> HighBit(b, 5);
    assert HighBit(a, 6) <==> HighBit(b, 6);
    assert HighBit(a, 7) <==> HighBit(b, 7);
  }

  /** Equal polynomials, equal blocks. */
  lemma PolyInjective(s: Block, t: Block)
    requires ToPoly(s) == ToPoly(t)
    ensures s == t
  {
    forall j | 0 <= j < 16
      ensures s[j] == t[j]
    {
      forall k | 0 <= k < 8
        ensures HighBit(s[j], k) <==> HighBit(t[j], k)
      {
        assert (8 * j + k) / 8 == j && (8 * j + k) % 8 == k;
        assert BitAt(s, 8 * j + k) <==> 8 * j + k in ToPoly(s);
        assert BitAt(t, 8 * j + k) <==> 8 * j + k in ToPoly(t);
      }
      MaskAll(s[j], t[j]);
    }
  }

  function Xor(s: Block, t: Block): (r: Block)
    ensures forall i :: 0 <= i < 16 ==> r[i] == XorByte(s[i], t[i])
  {
    seq(16, i requires 0 <= i < 16 => XorByte(s[i], t[i]))
  }

  lemma XorBit(s: Block, t: Block, i: nat)
    requires i < 128
    ensures BitAt(Xor(s, t), i) <==> BitAt(s, i) != BitAt(t, i)
  {
    hide XorByte, HighBit, Xor;
    MaskXor(s[i / 8], t[i / 8], i % 8);
  }

  lemma XorPoly(s: Block, t: Block)
    ensures ToPoly(Xor(s, t)) == Add(ToPoly(s), ToPoly(t))
  {
    hide BitAt, Xor, Add, ToPoly;
    forall i: nat
      ensures i in ToPoly(Xor(s, t)) <==> i in Add(ToPoly(s), ToPoly(t))
    {
      if i < 128 {
        XorBit(s, t, i);
      }
    }
  }

  // ----- multiplication ---------------------------------------------------------------------

  /** One byte of a block shifted right by a bit, the last bit of its neighbour coming in. */
  function ShiftedByte(a: byte, carry: bool): byte {
    (a >> 1) | (if carry then 0x80 else 0)
  }

  lemma HighestShifted(a: byte, carry: bool)
    ensures HighBit(ShiftedByte(a, carry), 0) <==> carry
  {
  }

  /** A mask m above the lowest bit sees after the shift what twice the mask saw before. */
  lemma MaskShifted(a: byte, carry: bool, m: byte, n: byte)
    requires (m == 0x40 && n == 0x80) || (m == 0x20 && n == 0x40) || (m == 0x10 && n == 0x20) || (m == 0x08 && n == 0x10)
             || (m == 0x04 && n == 0x08) || (m == 0x02 && n == 0x04) || (m == 0x01 && n == 0x02)
    ensures ShiftedByte(a, carry) & m != 0 <==> a & n != 0
  {
  }

  lemma ShiftedMask(a: byte, carry: bool, k: nat)
    requires k < 8
    ensures HighBit(ShiftedByte(a, carry), k) <==> if k == 0 then carry else HighBit(a, k - 1)
  {
    hide ShiftedByte;
    if k == 0 {
      HighestShifted(a, carry);
    } else {
      MaskShifted(a, carry, Mask(7 - k), Mask(8 - k));
    }
  }

  function LastBit(a: byte): bool {
    a & 1 != 0
  }

  lemma LastMask(a: byte)
    ensures LastBit(a) <==> HighBit(a, 7)
  {
  }

  /** The block one bit further right. */
  ghost predicate IsShifted(s: Block, t: Block) {
    forall j {:trigger t[j]} :: 0 <= j < 16 ==> t[j] == ShiftedByte(s[j], j > 0 && LastBit(s[j - 1]))
  }

  lemma ShiftedBit(s: Block, t: Block, i: nat)
    requires IsShifted(s, t) && i < 128
    ensures BitAt(t, i) <==> i > 0 && BitAt(s, i - 1)
  {
    hide HighBit, ShiftedByte, LastBit;
    var j, k := i / 8, i % 8;
    assert t[j] == ShiftedByte(s[j], j > 0 && LastBit(s[j - 1]));
    ShiftedMask(s[j], j > 0 && LastBit(s[j - 1]), k);
    if k > 0 {
      assert (i - 1) / 8 == j && (i - 1) % 8 == k - 1;
    } else if i > 0 {
      assert (i - 1) / 8 == j - 1 && (i - 1) % 8 == 7;
      LastMask(s[j - 1]);
    }
  }

  lemma ShiftedPoly(s: Block, t: Block)
    requires IsShifted(s, t)
    ensures ToPoly(t) == Shift(ToPoly(s) - {127}, 1)
  {
    hide BitAt, IsShifted, ToPoly, Shift;
    forall i: nat
      ensures i in ToPoly(t) <==> i in Shift(ToPoly(s) - {127}, 1)
    {
      if i < 128 {
        ShiftedBit(s, t, i);
      }
    }
  }

  /** gcm_shift_right: the whole block one bit to the right, in place. */
  method GcmShiftRight(v: array<byte>)
    requires v.Length == 16
    modifies v
    ensures ToPoly(v[..]) == Shift(ToPoly(old(v[..])) - {127}, 1)
  {
    hide ToPoly, Shift, BitAt, Mask;
    ghost var s := v[..];
    var carry := false;
    for i := 0 to 16
      invariant forall j :: i <= j < 16 ==> v[j] == s[j]
      invariant carry == (i > 0 && LastBit(s[i - 1]))
      invariant forall j {:trigger v[j]} :: 0 <= j < i ==> v[j] == ShiftedByte(s[j], j > 0 && LastBit(s[j - 1]))
    {
      var next := v[i] & 1 != 0;
      v[i] := (v[i] >> 1) | (if carry then 0x80 else 0);
      carry := next;
    }
    assert IsShifted(s, v[..]);
    ShiftedPoly(s, v[..]);
  }

  const R: Poly := {0, 1, 2, 7}

  lemma FeedbackPoly(s: Block, t: Block)
    requires t == s[0 := XorByte(s[0], 0xE1)]
    ensures ToPoly(t) == Add(ToPoly(s), R)
  {
    hide HighBit, XorByte;
    forall i: nat
      ensures i in ToPoly(t) <==> i in Add(ToPoly(s), R)
    {
      if i < 8 {
        assert i / 8 == 0 && i % 8 == i;
        FeedbackMask(s[0], i);
      } else if i < 128 {
        assert i / 8 > 0;
      }
    }
  }

  lemma FeedbackMask(a: byte, k: nat)
    requires k < 8
    ensures HighBit(XorByte(a, 0xE1), k) <==> HighBit(a, k) != (k == 0 || k == 1 || k == 2 || k == 7)
  {
  }

  lemma Overflow(v: Poly)
    requires Below(v, 128) && 127 in v
    ensures Add(Shift(v - {127}, 1), R) == Add(Shift(v, 1), P)
  {
    hide Add, Shift, Below;
    var a, b := Shift(v - {127}, 1), Shift(v, 1);
    forall e: nat
      ensures e in Add(a, R) <==> e in Add(b, P)
    {
      assert e in R <==> e == 0 || e == 1 || e == 2 || e == 7;
      assert e in P <==> e in R || e == 128;
      assert e in a <==> e >= 1 && e != 128 && e - 1 in v;
    }
  }

  /** Multiplying by x: a shift, and the feedback when x^127 overflows. */
  lemma TimesX(v: Poly, w: Poly)
    requires Below(v, 128) && w == Shift(v - {127}, 1)
    ensures Cong(if 127 in v then Add(w, R) else w, Shift(v, 1))
  {
    if 127 in v {
      hide Shift, Add, Cong;
      CongAddP(Shift(v, 1), 0);
      ShiftShift(P, 0, 0);
      Overflow(v);
    } else {
      CongSelf(w);
      assert v - {127} == v;
    }
  }

  /** z ^= v, byte by byte. */
  method XorInto(z: array<byte>, v: array<byte>)
    requires z.Length == 16 && v.Length == 16 && z != v
    modifies z
    ensures z[..] == Xor(old(z[..]), v[..])
  {
    hide Xor, XorByte;
    ghost var a, b := z[..], v[..];
    for j := 0 to 16
      invariant forall k :: 0 <= k < j ==> z[k] == XorByte(a[k], b[k])
      invariant forall k :: j <= k < 16 ==> z[k] == a[k]
    {
      z[j] := XorByte(z[j], v[j]);
    }
    assert z[..] == Xor(a, b);
  }

  /** After i bits: z is the sum so far, v is x^i h, both up to multiples of P. */
  ghost predicate Multiplying(x: Poly, h: Poly, i: nat, z: Poly, v: Poly) {
    Below(z, 128) && Below(v, 128) && Cong(z, MulBelow(x, h, i)) && Cong(v, Shift(h, i))
  }

  lemma MultiplyStarts(x: Poly, h: Poly)
    requires Below(h, 128)
    ensures Multiplying(x, h, 0, {}, h)
  {
    CongSelf({});
    CongSelf(h);
    ShiftShift(h, 0, 0);
  }

  lemma MultiplyStep(x: Poly, h: Poly, i: nat, z: Poly, v: Poly, z': Poly, v': Poly)
    requires Multiplying(x, h, i, z, v)
    requires z' == if i in x then Add(z, v) else z
    requires v' == if 127 in v then Add(Shift(v - {127}, 1), R) else Shift(v - {127}, 1)
    ensures Multiplying(x, h, i + 1, z', v')
  {
    MulStep(x, h, i);
    if i in x {
      CongAdd(z, MulBelow(x, h, i), v, Shift(h, i));
    }
    TimesX(v, Shift(v - {127}, 1));
    CongShift(v, Shift(h, i), 1);
    CongTrans(v', Shift(v, 1), Shift(Shift(h, i), 1));
    ShiftShift(h, i, 1);
    StepBelow(v, z);
    hide Cong, MulBelow, Shift, Add;
  }

  lemma StepBelow(v: Poly, z: Poly)
    requires Below(v, 128) && Below(z, 128)
    ensures Below(Add(z, v), 128) && Below(Shift(v - {127}, 1), 128) && Below(Add(Shift(v - {127}, 1), R), 128)
  {
  }

  lemma MultiplyEnds(x: Poly, h: Poly, z: Poly, v: Poly)
    requires Multiplying(x, h, 128, z, v) && Below(x, 128) && Below(h, 128)
    ensures z == Times(x, h)
  {
    hide Cong, MulBelow, Times;
    TimesIs(x, h, z);
  }

  /** One pass of the loop of gcm_mul. */
  method GcmMulStep(x: array<byte>, z: array<byte>, v: array<byte>, i: nat, ghost p: Poly, ghost h: Poly)
    requires x.Length == 16 && z.Length == 16 && v.Length == 16 && i < 128 && z != v && z != x && v != x
    requires p == ToPoly(x[..]) && Multiplying(p, h, i, ToPoly(z[..]), ToPoly(v[..]))
    modifies z, v
    ensures Multiplying(p, h, i + 1, ToPoly(z[..]), ToPoly(v[..]))
  {
    hide Multiplying, ToPoly, Shift, Add, BitOf, Xor, XorByte, HighBit;
    ghost var zs, vs := z[..], v[..];
    MaskTest(x[i / 8], i % 8);
    if (x[i / 8] >> (7 - i % 8)) & 1 != 0 {
      XorPoly(zs, vs);
      XorInto(z, v);
    }
    var lsb := v[15] & 1 != 0;
    LastMask(vs[15]);
    assert BitAt(vs, 127) <==> HighBit(vs[15], 7);
    GcmShiftRight(v);
    if lsb {
      FeedbackPoly(v[..], v[..][0 := XorByte(v[0], 0xE1)]);
      v[0] := XorByte(v[0], 0xE1);
    }
    MultiplyStep(p, h, i, ToPoly(zs), ToPoly(vs), ToPoly(z[..]), ToPoly(v[..]));
  }

  /** gcm_mul: x becomes the product of x and h in the field. */
  method GcmMul(x: array<byte>, h: array<byte>)
    requires x.Length == 16 && h.Length == 16
    modifies x
    ensures ToPoly(x[..]) == Times(ToPoly(old(x[..])), ToPoly(old(h[..])))
  {
    hide Multiplying, Times, ToPoly;
    var z, v := new byte[16](_ => 0), new byte[16];
    forall j | 0 <= j < 16 {
      v[j] := h[j];
    }
    ghost var p, q := ToPoly(x[..]), ToPoly(h[..]);
    assert v[..] == h[..];
    ZeroPoly(z[..]);
    MultiplyStarts(p, q);
    for i := 0 to 128
      invariant x[..] == old(x[..]) && Multiplying(p, q, i, ToPoly(z[..]), ToPoly(v[..]))
    {
      GcmMulStep(x, z, v, i, p, q);
    }
    ghost var product := z[..];
    MultiplyEnds(p, q, ToPoly(product), ToPoly(v[..]));
    forall j | 0 <= j < 16 {
      x[j] := z[j];
    }
    assert x[..] == product && p == ToPoly(old(x[..])) && q == ToPoly(old(h[..]));
  }

  lemma ZeroPoly(s: Block)
    requires forall j :: 0 <= j < 16 ==> s[j] == 0
    ensures ToPoly(s) == {}
  {
    forall i: nat
      ensures i !in ToPoly(s)
    {
      if i < 128 {
        ZeroBits(i % 8);
        assert s[i / 8] == 0;
      }
    }
  }

  lemma ZeroBits(k: nat)
    requires k < 8
    ensures !HighBit(0, k)
  {
  }

  // ----- GHASH --------------------------------------------------------------------------------

  /** GHASH: each block is added in, then all is multiplied by h. */
  function Ghash(h: Poly, blocks: seq<Block>): Poly {
    if blocks == [] then {}
    else Times(Add(Ghash(h, blocks[..|blocks| - 1]), ToPoly(blocks[|blocks| - 1])), h)
  }

  lemma GhashMore(h: Poly, blocks: seq<Block>, b: Block)
    ensures Ghash(h, blocks + [b]) == Times(Add(Ghash(h, blocks), ToPoly(b)), h)
  {
    hide Times, Add, ToPoly;
    assert (blocks + [b])[..|blocks|] == blocks;
  }

  method GhashBlock(y: array<byte>, h: array<byte>, block: array<byte>)
    requires y.Length == 16 && h.Length == 16 && block.Length == 16 && y != block && y != h
    modifies y
    ensures ToPoly(y[..]) == Times(Add(ToPoly(old(y[..])), ToPoly(block[..])), ToPoly(h[..]))
  {
    hide *;
    XorPoly(y[..], block[..]);
    XorInto(y, block);
    GcmMul(y, h);
  }

  // ----- counter mode --------------------------------------------------------------------------

  function Up(b: byte): byte {
    b + 1
  }

  function Number(b: byte): (n: nat)
    ensures n < 256
  {
    b as int
  }

  /** The counter block with its last bytes, down from i, incremented with carry. */
  function Bump(c: Block, i: int): Block
    requires 11 <= i < 16
    decreases i
  {
    if i < 12 then c
    else
      var c' := c[i := Up(c[i])];
      if c'[i] != 0 then c' else Bump(c', i - 1)
  }

  function Next(c: Block): Block {
    Bump(c, 15)
  }

  function Base256(a: nat, b: nat, c: nat, d: nat): nat {
    ((a * 256 + b) * 256 + c) * 256 + d
  }

  /** The last four bytes as a number, most significant first. */
  function Count(c: Block): nat {
    Base256(Number(c[12]), Number(c[13]), Number(c[14]), Number(c[15]))
  }

  lemma ByteUp(b: byte)
    ensures Number(Up(b)) == if Number(b) == 255 then 0 else Number(b) + 1
    ensures Up(b) == 0 <==> Number(b) == 255
  {
  }

  /** Which bytes the increment changes. */
  lemma NextBytes(c: Block)
    ensures var n := Next(c);
            && n[..12] == c[..12] && n[15] == Up(c[15])
            && n[14] == (if Up(c[15]) == 0 then Up(c[14]) else c[14])
            && n[13] == (if Up(c[15]) == 0 && Up(c[14]) == 0 then Up(c[13]) else c[13])
            && n[12] == (if Up(c[15]) == 0 && Up(c[14]) == 0 && Up(c[13]) == 0 then Up(c[12]) else c[12])
  {
    hide Up;
    var d := c[15 := Up(c[15])];
    if d[15] == 0 {
      var e := d[14 := Up(d[14])];
      assert Next(c) == Bump(d, 14);
      if e[14] == 0 {
        var f := e[13 := Up(e[13])];
        assert Next(c) == Bump(e, 13);
        if f[13] == 0 {
          assert Next(c) == Bump(f, 12) == f[12 := Up(f[12])];
        }
      }
    }
  }

  /** Adding one to a number in base 256. */
  lemma CountUp(a: nat, b: nat, c: nat, d: nat)
    requires a < 256 && b < 256 && c < 256 && d < 256
    ensures var d' := if d == 255 then 0 else d + 1;
            var c' := if d == 255 then (if c == 255 then 0 else c + 1) else c;
            var b' := if d == 255 && c == 255 then (if b == 255 then 0 else b + 1) else b;
            var a' := if d == 255 && c == 255 && b == 255 then (if a == 255 then 0 else a + 1) else a;
            Base256(a', b', c', d') == (Base256(a, b, c, d) + 1) % 0x1_0000_0000
  {
  }

  lemma NextNumbers(c: Block)
    ensures var n, d15, d14, d13 := Next(c), Number(c[15]) == 255, Number(c[14]) == 255, Number(c[13]) == 255;
            && n[..12] == c[..12]
            && Number(n[15]) == (if d15 then 0 else Number(c[15]) + 1)
            && Number(n[14]) == (if d15 then (if d14 then 0 else Number(c[14]) + 1) else Number(c[14]))
            && Number(n[13]) == (if d15 && d14 then (if d13 then 0 else Number(c[13]) + 1) else Number(c[13]))
            && Number(n[12]) == (if d15 && d14 && d13 then (if Number(c[12]) == 255 then 0 else Number(c[12]) + 1) else Number(c[12]))
  {
    hide Next, Up, Number;
    NextBytes(c);
    ByteUp(c[12]);
    ByteUp(c[13]);
    ByteUp(c[14]);
    ByteUp(c[15]);
  }

  /** The increment counts up by one, modulo 2^32, and leaves the nonce alone. */
  lemma NextCounts(c: Block)
    ensures Count(Next(c)) == (Count(c) + 1) % 0x1_0000_0000 && Next(c)[..12] == c[..12]
  {
    hide Next, Up, Number, Base256;
    NextNumbers(c);
    CountUp(Number(c[12]), Number(c[13]), Number(c[14]), Number(c[15]));
  }

  method IncrementCounter(ctr: array<byte>)
    requires ctr.Length == 16
    modifies ctr
    ensures ctr[..] == Next(old(ctr[..]))
  {
    var i := 15;
    while i >= 12
      invariant 11 <= i < 16 && Next(old(ctr[..])) == Bump(ctr[..], i)
    {
      ghost var c := ctr[..];
      ctr[i] := ctr[i] + 1;
      assert ctr[..] == c[i := Up(c[i])];
      if ctr[i] != 0 {
        break;
      }
      i := i - 1;
    }
  }
}
