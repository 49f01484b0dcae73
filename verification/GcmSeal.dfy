/** aes128_gcm_encrypt and aes128_gcm_decrypt of drivers/net.c, and their agreement. */
module GcmSeal {
  import opened Gf128
  import opened Bits
  import opened Products
  import opened Gcm

  // ----- what is authenticated, and the key stream -------------------------------------

  /** Up to sixteen bytes, filled with zeros. */
  function Pad(s: seq<byte>): Block
    requires |s| <= 16
  {
    s + ZeroBlock()[|s|..]
  }

  function ChunkLength(n: nat, k: nat): (c: nat)
    requires 16 * k <= n
    ensures c <= 16 && 16 * k + c <= n
  {
    if n - 16 * k > 16 then 16 else n - 16 * k
  }

  /** Block k of the text, the last one padded. */
  function Chunk(c: seq<byte>, k: nat): Block
    requires 16 * k <= |c|
  {
    Pad(c[16 * k..16 * k + ChunkLength(|c|, k)])
  }

  function Chunks(c: seq<byte>, n: nat): (r: seq<Block>)
    requires 16 * n <= |c| + 15
    ensures |r| == n
  {
    if n == 0 then [] else Chunks(c, n - 1) + [Chunk(c, n - 1)]
  }

  function Be32(n: nat): (s: seq<byte>)
    requires n < 0x1_0000_0000
    ensures |s| == 4
  {
    [(n / 0x100_0000) as byte, (n / 0x1_0000 % 256) as byte, (n / 0x100 % 256) as byte, (n % 256) as byte]
  }

  /** Lengths in bits: 13 bytes of associated data, n of text. */
  function LengthBlock(n: nat): Block
    requires n < 0x1_0000
  {
    Be32(0) + Be32(104) + Be32(0) + Be32(8 * n)
  }

  function BlockCount(n: nat): nat {
    (n + 15) / 16
  }

  /** The blocks that are hashed: the associated data, the ciphertext, the lengths. */
  function Authenticated(aad: seq<byte>, c: seq<byte>): seq<Block>
    requires |aad| == 13 && |c| < 0x1_0000
  {
    [Pad(aad)] + Chunks(c, BlockCount(|c|)) + [LengthBlock(|c|)]
  }

  /** Counter block n: the nonce and n. */
  function Counter(nonce: seq<byte>, n: nat): Block
    requires |nonce| == 12 && n > 0
  {
    if n == 1 then nonce + [0, 0, 0, 1] else Next(Counter(nonce, n - 1))
  }

  /** The text XORed with the key stream, which starts at counter 2. */
  function Ctr(aes: Block -> Block, nonce: seq<byte>, s: seq<byte>): (r: seq<byte>)
    requires |nonce| == 12
    ensures |r| == |s|
    ensures forall i :: 0 <= i < |s| ==> r[i] == XorByte(s[i], aes(Counter(nonce, i / 16 + 2))[i % 16])
  {
    seq(|s|, i requires 0 <= i < |s| => XorByte(s[i], aes(Counter(nonce, i / 16 + 2))[i % 16]))
  }

  /** t is the tag: XORed with the first counter's key stream it is the hash. */
  ghost predicate IsTag(aes: Block -> Block, nonce: seq<byte>, aad: seq<byte>, c: seq<byte>, t: Block)
    requires |nonce| == 12 && |aad| == 13 && |c| < 0x1_0000
  {
    ToPoly(Xor(aes(Counter(nonce, 1)), t)) == Ghash(ToPoly(aes(ZeroBlock())), Authenticated(aad, c))
  }

  lemma TagUnique(aes: Block -> Block, nonce: seq<byte>, aad: seq<byte>, c: seq<byte>, t: Block, u: Block)
    requires |nonce| == 12 && |aad| == 13 && |c| < 0x1_0000
    requires IsTag(aes, nonce, aad, c, t) && IsTag(aes, nonce, aad, c, u)
    ensures t == u
  {
    hide Ghash, Authenticated, ToPoly, Xor, XorByte;
    var e := aes(Counter(nonce, 1));
    PolyInjective(Xor(e, t), Xor(e, u));
    forall i | 0 <= i < 16
      ensures t[i] == u[i]
    {
      assert XorByte(e[i], t[i]) == Xor(e, t)[i] == Xor(e, u)[i] == XorByte(e[i], u[i]);
      XorCancel(e[i], t[i], u[i]);
    }
  }

  lemma XorCancel(e: byte, a: byte, b: byte)
    requires XorByte(e, a) == XorByte(e, b)
    ensures a == b
  {
  }

  lemma XorTwice(a: byte, e: byte)
    ensures XorByte(XorByte(a, e), e) == a && XorByte(a, e) == XorByte(e, a)
  {
  }

  /** Counter mode undoes itself. */
  lemma CtrTwice(aes: Block -> Block, nonce: seq<byte>, s: seq<byte>)
    requires |nonce| == 12
    ensures Ctr(aes, nonce, Ctr(aes, nonce, s)) == s
  {
    hide XorByte, Ctr, Counter;
    var c := Ctr(aes, nonce, s);
    forall i | 0 <= i < |s|
      ensures Ctr(aes, nonce, c)[i] == s[i]
    {
      XorTwice(s[i], aes(Counter(nonce, i / 16 + 2))[i % 16]);
    }
  }

  /** Counter block n counts n, for all n below 2^32, under the same nonce. */
  lemma {:induction false} CounterCounts(nonce: seq<byte>, n: nat)
    requires |nonce| == 12 && 0 < n < 0x1_0000_0000
    ensures Count(Counter(nonce, n)) == n && Counter(nonce, n)[..12] == nonce
  {
    hide *;
    if n == 1 {
      FirstCount(nonce);
    } else {
      CounterCounts(nonce, n - 1);
      CounterStep(nonce, n - 1);
      NextCounts(Counter(nonce, n - 1));
    }
  }

  lemma CounterStep(nonce: seq<byte>, n: nat)
    requires |nonce| == 12 && 0 < n
    ensures Counter(nonce, n + 1) == Next(Counter(nonce, n))
  {
  }

  lemma FirstCount(nonce: seq<byte>)
    requires |nonce| == 12
    ensures Count(Counter(nonce, 1)) == 1 && Counter(nonce, 1)[..12] == nonce
  {
    var c := Counter(nonce, 1);
    assert c[12] == 0 && c[13] == 0 && c[14] == 0 && c[15] == 1;
  }

  /** No two blocks of one message share their key stream's counter. */
  lemma CountersDiffer(nonce: seq<byte>, j: nat, k: nat)
    requires |nonce| == 12 && 0 < j < k < 0x1_0000_0000
    ensures Counter(nonce, j) != Counter(nonce, k)
  {
    CounterCounts(nonce, j);
    CounterCounts(nonce, k);
  }

  // ----- encryption ---------------------------------------------------------------------------

  /** XORs the key stream into one chunk and collects the padded result. */
  method XorChunk(input: seq<byte>, off: nat, chunk: nat, stream: Block, output: array<byte>, block: array<byte>)
    requires off + chunk <= |input| && chunk <= 16 && output.Length >= |input| && block.Length == 16 && output != block
    requires forall j :: 0 <= j < 16 ==> block[j] == 0
    modifies output, block
    ensures forall i :: 0 <= i < chunk ==> output[off + i] == XorByte(input[off + i], stream[i])
    ensures forall i :: 0 <= i < output.Length && !(off <= i < off + chunk) ==> output[i] == old(output[i])
    ensures block[..] == Pad(output[off..off + chunk])
  {
    hide XorByte;
    for i := 0 to chunk
      invariant forall j :: 0 <= j < i ==> output[off + j] == XorByte(input[off + j], stream[j]) && block[j] == output[off + j]
      invariant forall j :: 0 <= j < output.Length && !(off <= j < off + i) ==> output[j] == old(output[j])
      invariant forall j :: i <= j < 16 ==> block[j] == 0
    {
      output[off + i] := XorByte(input[off + i], stream[i]);
      block[i] := output[off + i];
    }
  }

  /** After k chunks: output, hash and counter. */
  ghost predicate Sealing(aes: Block -> Block, nonce: seq<byte>, aad: seq<byte>, plain: seq<byte>, k: nat,
                          output: seq<byte>, y: Poly, ctr: Block)
    requires |nonce| == 12 && |aad| == 13
  {
    var c := Ctr(aes, nonce, plain);
    && 16 * k <= |plain| + 15 && |output| >= |plain|
    && (forall i :: 0 <= i < 16 * k && i < |plain| ==> output[i] == c[i])
    && y == Ghash(ToPoly(aes(ZeroBlock())), [Pad(aad)] + Chunks(c, k))
    && ctr == Counter(nonce, k + 2)
  }

  lemma ChunkEnds(n: nat, k: nat)
    requires 16 * k < n
    ensures 16 * (k + 1) <= n + 15 && 16 * k + ChunkLength(n, k) == if n < 16 * (k + 1) then n else 16 * (k + 1)
  {
  }

  /** Byte i of chunk k. */
  lemma CtrAt(aes: Block -> Block, nonce: seq<byte>, s: seq<byte>, k: nat, i: nat)
    requires |nonce| == 12 && i < 16 && 16 * k + i < |s|
    ensures Ctr(aes, nonce, s)[16 * k + i] == XorByte(s[16 * k + i], aes(Counter(nonce, k + 2))[i])
  {
    assert (16 * k + i) / 16 == k && (16 * k + i) % 16 == i;
  }

  lemma SealStep(aes: Block -> Block, nonce: seq<byte>, aad: seq<byte>, plain: seq<byte>, k: nat,
                 output: seq<byte>, y: Poly, ctr: Block, output': seq<byte>, y': Poly, ctr': Block, block: Block)
    requires |nonce| == 12 && |aad| == 13 && Sealing(aes, nonce, aad, plain, k, output, y, ctr) && 16 * k < |plain|
    requires var n := ChunkLength(|plain|, k);
             && |output'| == |output|
             && (forall i :: 0 <= i < n ==> output'[16 * k + i] == XorByte(plain[16 * k + i], aes(ctr)[i]))
             && (forall i :: 0 <= i < |output| && !(16 * k <= i < 16 * k + n) ==> output'[i] == output[i])
             && block == Pad(output'[16 * k..16 * k + n])
    requires y' == Times(Add(y, ToPoly(block)), ToPoly(aes(ZeroBlock()))) && ctr' == Next(ctr)
    ensures Sealing(aes, nonce, aad, plain, k + 1, output', y', ctr')
  {
    hide Times, Add, ToPoly, Ghash, XorByte, Next, Counter, Ctr, Chunks, ChunkLength, Pad;
    var c, n := Ctr(aes, nonce, plain), ChunkLength(|plain|, k);
    ChunkEnds(|plain|, k);
    forall j | 16 * k <= j < 16 * k + n
      ensures output'[j] == c[j]
    {
      CtrAt(aes, nonce, plain, k, j - 16 * k);
      assert output'[16 * k + (j - 16 * k)] == XorByte(plain[16 * k + (j - 16 * k)], aes(ctr)[j - 16 * k]);
    }
    assert output'[16 * k..16 * k + n] == c[16 * k..16 * k + n];
    ChunksStep(aad, c, k);
    GhashMore(ToPoly(aes(ZeroBlock())), [Pad(aad)] + Chunks(c, k), block);
    CounterStep(nonce, k + 2);
  }

  lemma ChunksStep(aad: seq<byte>, c: seq<byte>, k: nat)
    requires |aad| == 13 && 16 * k < |c|
    ensures [Pad(aad)] + Chunks(c, k + 1) == [Pad(aad)] + Chunks(c, k) + [Chunk(c, k)]
  {
  }

  /** Chunks, their hash and the counter, one after another. */
  method SealChunk(aes: Block -> Block, plain: seq<byte>, off: nat, cipher: array<byte>, ctr: array<byte>, y: array<byte>,
                   h: array<byte>, ghost nonce: seq<byte>, ghost aad: seq<byte>, ghost k: nat)
    requires |nonce| == 12 && |aad| == 13 && ctr.Length == 16 && y.Length == 16 && h.Length == 16 && cipher.Length >= |plain|
    requires cipher != ctr && cipher != y && cipher != h && ctr != y && ctr != h && y != h
    requires off == 16 * k < |plain| && h[..] == aes(ZeroBlock())
    requires Sealing(aes, nonce, aad, plain, k, cipher[..], ToPoly(y[..]), ctr[..])
    modifies cipher, ctr, y
    ensures Sealing(aes, nonce, aad, plain, k + 1, cipher[..], ToPoly(y[..]), ctr[..])
    ensures cipher[|plain|..] == old(cipher[|plain|..])
  {
    hide Times, Add, ToPoly, Ghash, XorByte, Next, Counter, Ctr, Sealing, Pad;
    ghost var o0, y0, c0 := cipher[..], y[..], ctr[..];
    var chunk := |plain| - off;
    if chunk > 16 {
      chunk := 16;
    }
    var stream := aes(ctr[..]);
    var block := new byte[16](_ => 0);
    XorChunk(plain, off, chunk, stream, cipher, block);
    ghost var b := block[..];
    GhashBlock(y, h, block);
    IncrementCounter(ctr);
    SealStep(aes, nonce, aad, plain, k, o0, ToPoly(y0), c0, cipher[..], ToPoly(y[..]), ctr[..], b);
  }

  /** h and the hash of the padded associated data. */
  method StartHash(aes: Block -> Block, aad: seq<byte>, y: array<byte>, h: array<byte>)
    requires |aad| == 13 && y.Length == 16 && h.Length == 16 && y != h
    modifies y, h
    ensures h[..] == aes(ZeroBlock()) && ToPoly(y[..]) == Ghash(ToPoly(aes(ZeroBlock())), [Pad(aad)])
  {
    hide Times, Add, ToPoly, Ghash, Pad, ZeroBlock;
    var key: Block := aes(ZeroBlock());
    forall j | 0 <= j < 16 {
      h[j] := key[j];
    }
    forall j | 0 <= j < 16 {
      y[j] := 0;
    }
    assert h[..] == key;
    ghost var zero := y[..];
    ZeroPoly(zero);
    var block := new byte[16];
    var padded := Pad(aad);
    forall j | 0 <= j < 16 {
      block[j] := padded[j];
    }
    assert block[..] == padded && y[..] == zero && h[..] == key;
    GhashBlock(y, h, block);
    GhashOne(ToPoly(key), padded);
  }

  lemma GhashOne(h: Poly, b: Block)
    ensures Ghash(h, [b]) == Times(Add({}, ToPoly(b)), h)
  {
    hide Times, Add, ToPoly;
    var none: seq<Block> := [];
    GhashMore(h, none, b);
    assert none + [b] == [b];
  }

  /** The lengths, and the tag (or the tag expected) from the hash. */
  method FinishTag(aes: Block -> Block, nonce: seq<byte>, length: nat, y: array<byte>, h: array<byte>, tag: array<byte>,
                   ghost aad: seq<byte>, ghost c: seq<byte>)
    requires |nonce| == 12 && |aad| == 13 && |c| == length < 0x1_0000 && y.Length == 16 && h.Length == 16 && tag.Length == 16
    requires y != h && y != tag && h != tag && h[..] == aes(ZeroBlock())
    requires ToPoly(y[..]) == Ghash(ToPoly(aes(ZeroBlock())), [Pad(aad)] + Chunks(c, BlockCount(|c|)))
    modifies y, tag
    ensures IsTag(aes, nonce, aad, c, tag[..])
  {
    hide Times, Add, ToPoly, Ghash, Pad, Chunks, ZeroBlock, Counter, XorByte, LengthBlock, Xor;
    ghost var start, key := y[..], h[..];
    var block := new byte[16];
    var lengths := LengthBlock(length);
    forall j | 0 <= j < 16 {
      block[j] := lengths[j];
    }
    assert block[..] == lengths && y[..] == start && h[..] == key;
    GhashBlock(y, h, block);
    GhashMore(ToPoly(aes(ZeroBlock())), [Pad(aad)] + Chunks(c, BlockCount(|c|)), lengths);
    ghost var hash := y[..];
    var stream: Block := aes(Counter(nonce, 1));
    for i := 0 to 16
      invariant y[..] == hash
      invariant forall j :: 0 <= j < i ==> tag[j] == XorByte(stream[j], y[j])
    {
      tag[i] := XorByte(stream[i], y[i]);
    }
    UnXor(stream, tag[..], y[..]);
  }

  lemma UnXor(e: Block, t: Block, y: Block)
    requires forall j :: 0 <= j < 16 ==> t[j] == XorByte(e[j], y[j])
    ensures Xor(e, t) == y
  {
    hide XorByte, Xor;
    forall j | 0 <= j < 16
      ensures Xor(e, t)[j] == y[j]
    {
      XorTwice(y[j], e[j]);
      XorTwice(XorByte(e[j], y[j]), e[j]);
      assert XorByte(e[j], XorByte(e[j], y[j])) == y[j];
    }
  }

  lemma SealStarts(aes: Block -> Block, nonce: seq<byte>, aad: seq<byte>, plain: seq<byte>, output: seq<byte>, y: Poly, ctr: Block)
    requires |nonce| == 12 && |aad| == 13 && |output| >= |plain| && ctr == nonce + [0, 0, 0, 2]
    requires y == Ghash(ToPoly(aes(ZeroBlock())), [Pad(aad)])
    ensures Sealing(aes, nonce, aad, plain, 0, output, y, ctr)
  {
    hide Ghash, ToPoly, Pad, ZeroBlock, XorByte;
    assert [Pad(aad)] + Chunks(Ctr(aes, nonce, plain), 0) == [Pad(aad)];
    SecondCounter(nonce);
  }

  lemma SecondCounter(nonce: seq<byte>)
    requires |nonce| == 12
    ensures Counter(nonce, 2) == nonce + [0, 0, 0, 2]
  {
    var c := Counter(nonce, 1);
    assert c[15] == 1;
    assert Counter(nonce, 2) == Next(c) == c[15 := 2];
    assert c[15 := 2] == nonce + [0, 0, 0, 2];
  }

  lemma SealEnds(aes: Block -> Block, nonce: seq<byte>, aad: seq<byte>, plain: seq<byte>, k: nat, output: seq<byte>, y: Poly, ctr: Block)
    requires |nonce| == 12 && |aad| == 13 && Sealing(aes, nonce, aad, plain, k, output, y, ctr) && 16 * k >= |plain|
    ensures output[..|plain|] == Ctr(aes, nonce, plain) && k == BlockCount(|plain|)
    ensures y == Ghash(ToPoly(aes(ZeroBlock())), [Pad(aad)] + Chunks(Ctr(aes, nonce, plain), BlockCount(|plain|)))
  {
    hide Ghash, ToPoly, Pad, ZeroBlock, XorByte, Counter, Ctr;
  }

  /** aes128_gcm_encrypt: counter-mode ciphertext, hashed as it is produced, and its tag. */
  method Encrypt(aes: Block -> Block, nonce: seq<byte>, aad: seq<byte>, plain: seq<byte>, cipher: array<byte>, tag: array<byte>)
    requires |nonce| == 12 && |aad| == 13 && |plain| <= 65520 && cipher.Length >= |plain| && tag.Length == 16 && cipher != tag
    modifies cipher, tag
    ensures cipher[..|plain|] == Ctr(aes, nonce, plain) && cipher[|plain|..] == old(cipher[|plain|..])
    ensures IsTag(aes, nonce, aad, Ctr(aes, nonce, plain), tag[..])
  {
    hide Times, Add, ToPoly, Ghash, Pad, Chunks, ZeroBlock, Counter, XorByte, LengthBlock, BlockCount, Ctr, Sealing, IsTag;
    var y, h, ctr := new byte[16], new byte[16], new byte[16];
    StartHash(aes, aad, y, h);
    var first: Block := nonce + [0, 0, 0, 2];
    forall j | 0 <= j < 16 {
      ctr[j] := first[j];
    }
    assert ctr[..] == first;
    SealStarts(aes, nonce, aad, plain, cipher[..], ToPoly(y[..]), ctr[..]);
    var off := 0;
    ghost var k := 0;
    while off < |plain|
      invariant off == 16 * k <= 65520
      invariant h[..] == aes(ZeroBlock())
      invariant Sealing(aes, nonce, aad, plain, k, cipher[..], ToPoly(y[..]), ctr[..])
      invariant cipher[|plain|..] == old(cipher[|plain|..])
      decreases |plain| - off
    {
      SealChunk(aes, plain, off, cipher, ctr, y, h, nonce, aad, k);
      off := (off + 16) % 0x1_0000;
      k := k + 1;
    }
    SealEnds(aes, nonce, aad, plain, k, cipher[..], ToPoly(y[..]), ctr[..]);
    FinishTag(aes, nonce, |plain|, y, h, tag, aad, Ctr(aes, nonce, plain));
  }

  // ----- decryption -----------------------------------------------------------------------------

  /** Hashes the ciphertext's chunks. */
  method HashChunks(cipher: seq<byte>, y: array<byte>, h: array<byte>, ghost aad: seq<byte>, ghost key: Poly)
    requires |aad| == 13 && |cipher| <= 65520 && y.Length == 16 && h.Length == 16 && y != h
    requires key == ToPoly(h[..]) && ToPoly(y[..]) == Ghash(key, [Pad(aad)])
    modifies y
    ensures h[..] == old(h[..]) && ToPoly(y[..]) == Ghash(key, [Pad(aad)] + Chunks(cipher, BlockCount(|cipher|)))
  {
    hide Times, Add, ToPoly, Ghash, Pad;
    var off := 0;
    ghost var k := 0;
    assert [Pad(aad)] + Chunks(cipher, 0) == [Pad(aad)];
    while off < |cipher|
      invariant off == 16 * k <= 65520 && 16 * k <= |cipher| + 15 && h[..] == old(h[..])
      invariant ToPoly(y[..]) == Ghash(key, [Pad(aad)] + Chunks(cipher, k))
      decreases |cipher| - off
    {
      var chunk := |cipher| - off;
      if chunk > 16 {
        chunk := 16;
      }
      ghost var before := y[..];
      var block := new byte[16];
      var padded := Pad(cipher[off..off + chunk]);
      forall j | 0 <= j < 16 {
        block[j] := padded[j];
      }
      assert block[..] == padded == Chunk(cipher, k) && y[..] == before;
      GhashBlock(y, h, block);
      GhashMore(key, [Pad(aad)] + Chunks(cipher, k), padded);
      ChunksStep(aad, cipher, k);
      off := (off + 16) % 0x1_0000;
      k := k + 1;
    }
  }

  /** The comparison that looks at every byte: no difference, the same tag. */
  method SameTag(calculated: array<byte>, tag: Block) returns (same: bool)
    requires calculated.Length == 16
    ensures same <==> calculated[..] == tag
  {
    var diff: byte := 0;
    for i := 0 to 16
      invariant diff == 0 <==> forall j :: 0 <= j < i ==> calculated[j] == tag[j]
    {
      OrXor(diff, calculated[i], tag[i]);
      diff := diff | (calculated[i] ^ tag[i]);
    }
    same := diff == 0;
  }

  lemma OrXor(d: byte, a: byte, b: byte)
    ensures d | (a ^ b) == 0 <==> d == 0 && a == b
  {
  }

  /** The counter-mode pass of decryption. */
  method Uncover(aes: Block -> Block, nonce: seq<byte>, cipher: seq<byte>, plain: array<byte>)
    requires |nonce| == 12 && |cipher| <= 65520 && plain.Length >= |cipher|
    modifies plain
    ensures plain[..|cipher|] == Ctr(aes, nonce, cipher) && plain[|cipher|..] == old(plain[|cipher|..])
  {
    hide XorByte, Counter, Next, Ctr;
    ghost var p := Ctr(aes, nonce, cipher);
    var ctr := new byte[16];
    var first: Block := nonce + [0, 0, 0, 2];
    forall j | 0 <= j < 16 {
      ctr[j] := first[j];
    }
    assert ctr[..] == first;
    SecondCounter(nonce);
    var off := 0;
    ghost var k := 0;
    while off < |cipher|
      invariant off == 16 * k <= 65520 && 16 * k <= |cipher| + 15 && ctr[..] == Counter(nonce, k + 2)
      invariant forall i :: 0 <= i < 16 * k && i < |cipher| ==> plain[i] == p[i]
      invariant plain[|cipher|..] == old(plain[|cipher|..])
      decreases |cipher| - off
    {
      var chunk := |cipher| - off;
      if chunk > 16 {
        chunk := 16;
      }
      var stream: Block := aes(ctr[..]);
      UncoverChunk(cipher, off, chunk, stream, plain, p);
      CounterStep(nonce, k + 2);
      IncrementCounter(ctr);
      off := (off + 16) % 0x1_0000;
      k := k + 1;
    }
  }

  method UncoverChunk(cipher: seq<byte>, off: nat, chunk: nat, stream: Block, plain: array<byte>, ghost p: seq<byte>)
    requires off + chunk <= |cipher| == |p| <= plain.Length && chunk <= 16
    requires forall i {:trigger p[i]} :: off <= i < off + chunk ==> p[i] == XorByte(cipher[i], stream[i - off])
    modifies plain
    ensures forall i :: off <= i < off + chunk ==> plain[i] == p[i]
    ensures forall i :: 0 <= i < plain.Length && !(off <= i < off + chunk) ==> plain[i] == old(plain[i])
  {
    hide XorByte;
    for i := 0 to chunk
      invariant forall j :: off <= j < off + i ==> plain[j] == p[j]
      invariant forall j :: 0 <= j < plain.Length && !(off <= j < off + i) ==> plain[j] == old(plain[j])
    {
      assert p[off + i] == XorByte(cipher[off + i], stream[i]);
      plain[off + i] := XorByte(cipher[off + i], stream[i]);
    }
  }

  /** aes128_gcm_decrypt: hash first, compare tags, and only then uncover the text. */
  method Decrypt(aes: Block -> Block, nonce: seq<byte>, aad: seq<byte>, cipher: seq<byte>, tag: Block, plain: array<byte>)
    returns (ok: bool)
    requires |nonce| == 12 && |aad| == 13 && |cipher| <= 65520 && plain.Length >= |cipher|
    modifies plain
    ensures ok <==> IsTag(aes, nonce, aad, cipher, tag)
    ensures ok ==> plain[..|cipher|] == Ctr(aes, nonce, cipher)
    ensures !ok ==> plain[..] == old(plain[..])
  {
    hide Times, Add, ToPoly, Ghash, Pad, Chunks, ZeroBlock, Counter, XorByte, BlockCount, Ctr, IsTag;
    var y, h, calculated := new byte[16], new byte[16], new byte[16];
    StartHash(aes, aad, y, h);
    HashChunks(cipher, y, h, aad, ToPoly(h[..]));
    FinishTag(aes, nonce, |cipher|, y, h, calculated, aad, cipher);
    ok := SameTag(calculated, tag);
    if IsTag(aes, nonce, aad, cipher, tag) {
      TagUnique(aes, nonce, aad, cipher, calculated[..], tag);
    }
    if !ok {
      return;
    }
    Uncover(aes, nonce, cipher, plain);
  }

  // ----- agreement -----------------------------------------------------------------------------------

  /** Decrypting what encrypting made, under the same key, nonce and associated data,
      accepts the tag and gives the plaintext back. */
  method RoundTrip(aes: Block -> Block, nonce: seq<byte>, aad: seq<byte>, plain: seq<byte>) returns (ok: bool, back: seq<byte>)
    requires |nonce| == 12 && |aad| == 13 && |plain| <= 65520
    ensures ok && back == plain
  {
    hide Times, Add, ToPoly, Ghash, Pad, Chunks, ZeroBlock, Counter, XorByte, BlockCount, Ctr, IsTag;
    var cipher, tag := new byte[|plain|], new byte[16];
    Encrypt(aes, nonce, aad, plain, cipher, tag);
    assert cipher[..] == cipher[..|plain|];
    CtrTwice(aes, nonce, plain);
    var sent, mark: Block := cipher[..], tag[..];
    var output := new byte[|plain|];
    ok := Decrypt(aes, nonce, aad, sent, mark, output);
    back := output[..];
    assert back == output[..|plain|];
  }

  /** The 16-bit offset reaches the length, and the loops end, exactly up to 65520 bytes. */
  lemma LoopEnds(length: nat)
    requires length < 0x1_0000
    ensures (exists k: nat :: 16 * k % 0x1_0000 >= length) <==> length <= 65520
  {
    if length <= 65520 {
      assert 16 * 4095 % 0x1_0000 >= length;
    } else {
      forall k: nat
        ensures 16 * k % 0x1_0000 < length
      {
        OffsetBound(k);
      }
    }
  }

  lemma OffsetBound(k: nat)
    ensures 16 * k % 0x1_0000 <= 65520
  {
    var q, r := k / 4096, k % 4096;
    QuotientIs(16 * k, 0x1_0000, q, 16 * r);
  }
}
