/** The streaming SHA-256 of drivers/sha256.c; the compression function is a parameter. */
module Sha256 {

  type byte = x: int | 0 <= x < 256
  type u32 = x: int | 0 <= x < 0x1_0000_0000
  type Words = seq<u32>
  /** Eight words and a block of 64 bytes to eight words. */
  type Compression = (Words, seq<byte>) -> Words

  const INITIAL: Words := [0x6A09E667, 0xBB67AE85, 0x3C6EF372, 0xA54FF53A, 0x510E527F, 0x9B05688C, 0x1F83D9AB, 0x5BE0CD19]

  // ----- the definition ------------------------------------------------------------------

  function Zeros(n: nat): (s: seq<byte>)
    ensures |s| == n && forall i :: 0 <= i < n ==> s[i] == 0
  {
    seq(n, _ => 0)
  }

  function Be32(v: u32): (t: seq<byte>)
    ensures |t| == 4
  {
    [v / 0x100_0000, v / 0x1_0000 % 256, v / 0x100 % 256, v % 256]
  }

  /** v in n bytes, most significant first, modulo 256^n. */
  function Be(v: nat, n: nat): (t: seq<byte>)
    ensures |t| == n
  {
    if n == 0 then [] else Be(v / 256, n - 1) + [v % 256]
  }

  /** The zero bytes that make message, mark, zeros and length fill whole blocks. */
  function Filler(length: nat): nat {
    if length % 64 < 56 then 55 - length % 64 else 119 - length % 64
  }

  const LENGTH_RANGE: int := 0x1_0000_0000_0000_0000

  /** Section 5.1.1 of FIPS 180-4, which asks for fewer than 2^64 bits. */
  function Padded(m: seq<byte>): (p: seq<byte>)
    ensures |p| == |m| + 9 + Filler(|m|)
  {
    m + [0x80] + Zeros(Filler(|m|)) + Be(8 * |m| % LENGTH_RANGE, 8)
  }

  function BlockCount(length: nat): nat {
    length / 64 + if length % 64 < 56 then 1 else 2
  }

  /** The last bytes of the message, short of a block, and the mark. */
  function Rest(m: seq<byte>): (r: seq<byte>)
    ensures |r| == |m| % 64 + 1
  {
    m[|m| - |m| % 64..] + [0x80]
  }

  /** The last block when the length fits behind the mark. */
  function ShortBlock(m: seq<byte>): seq<byte>
    requires |m| % 64 < 56
  {
    Rest(m) + Zeros(55 - |m| % 64) + Be(8 * |m| % LENGTH_RANGE, 8)
  }

  /** The last two blocks when it does not. */
  function LongBlock(m: seq<byte>): seq<byte> {
    Rest(m) + Zeros(63 - |m| % 64)
  }

  function LengthBlock(m: seq<byte>): seq<byte> {
    Zeros(56) + Be(8 * |m| % LENGTH_RANGE, 8)
  }

  lemma PaddedBlocks(n: nat)
    ensures n + 9 + Filler(n) == 64 * BlockCount(n)
  {
    assert n == 64 * (n / 64) + n % 64;
  }

  /** The compression function folded over the first n blocks. */
  function Fold(f: Compression, m: seq<byte>, n: nat): Words
    requires 64 * n <= |m|
  {
    if n == 0 then INITIAL else f(Fold(f, m, n - 1), m[64 * (n - 1)..64 * n])
  }

  function Bytes(s: Words): (t: seq<byte>)
    ensures |t| == 4 * |s|
  {
    if s == [] then [] else Bytes(s[..|s| - 1]) + Be32(s[|s| - 1])
  }

  /** Section 6.2.2 of FIPS 180-4: the message digest. */
  function Digest(f: Compression, m: seq<byte>): seq<byte> {
    PaddedBlocks(|m|);
    Bytes(Fold(f, Padded(m), BlockCount(|m|)))
  }

  lemma {:induction false} FoldPrefix(f: Compression, m: seq<byte>, m': seq<byte>, n: nat)
    requires 64 * n <= |m| && 64 * n <= |m'| && m[..64 * n] == m'[..64 * n]
    ensures Fold(f, m, n) == Fold(f, m', n)
  {
    if n > 0 {
      assert m[..64 * (n - 1)] == m[..64 * n][..64 * (n - 1)] == m'[..64 * (n - 1)];
      FoldPrefix(f, m, m', n - 1);
      assert m[64 * (n - 1)..64 * n] == m[..64 * n][64 * (n - 1)..] == m'[64 * (n - 1)..64 * n];
    }
  }

  // ----- the context ------------------------------------------------------------------------

  class Context {
    const f: Compression
    var state: Words
    var bitLen: nat
    var buffer: array<byte>
    var bufferLen: nat

    /** The context has taken in exactly the message m. */
    ghost predicate Absorbed(m: seq<byte>)
      reads this, buffer
    {
      && buffer.Length == 64 && bufferLen == |m| % 64 && bitLen == 8 * |m| % LENGTH_RANGE
      && state == Fold(f, m, |m| / 64) && buffer[..bufferLen] == m[|m| - bufferLen..]
    }

    /** sha256_init. */
    constructor (f: Compression)
      ensures Absorbed([]) && fresh(buffer) && this.f == f
    {
      this.f := f;
      state, bitLen, bufferLen := INITIAL, 0, 0;
      buffer := new byte[64];
    }

    /** sha256_transform on the buffer. */
    method Transform()
      requires buffer.Length == 64
      modifies this`state
      ensures state == f(old(state), buffer[..])
    {
      state := f(state, buffer[..]);
    }

    /** One pass of the loop of sha256_update. */
    method Take(b: byte, ghost m: seq<byte>)
      requires Absorbed(m)
      modifies this, buffer
      ensures Absorbed(m + [b]) && buffer == old(buffer)
    {
      hide Fold;
      AbsorbOne(f, m, b, state, buffer[..]);
      ghost var was := buffer[..];
      buffer[bufferLen] := b;
      bufferLen := bufferLen + 1;
      bitLen := (bitLen + 8) % LENGTH_RANGE;
      assert buffer[..] == was[bufferLen - 1 := b];
      assert buffer[..bufferLen] == buffer[..][..bufferLen];
      if bufferLen == 64 {
        Transform();
        bufferLen := 0;
      }
    }

    /** sha256_update: the message grows by the data. */
    method Update(data: seq<byte>, ghost m: seq<byte>)
      requires Absorbed(m)
      modifies this, buffer
      ensures Absorbed(m + data) && buffer == old(buffer)
    {
      assert m + data[..0] == m;
      for i := 0 to |data|
        invariant Absorbed(m + data[..i]) && buffer == old(buffer)
      {
        assert m + data[..i] + [data[i]] == m + data[..i + 1];
        Take(data[i], m + data[..i]);
      }
      assert data[..|data|] == data;
    }

    /** store_be64 at the end of the buffer. */
    method StoreLength()
      requires buffer.Length == 64 && bitLen < LENGTH_RANGE
      modifies buffer
      ensures buffer[..56] == old(buffer[..56]) && buffer[56..] == Be(bitLen, 8)
    {
      hide Be;
      var value, i := bitLen, 7;
      assert buffer[64..] == [];
      while i >= 0
        invariant -1 <= i < 8 && value >= 0 && buffer[..56] == old(buffer[..56])
        invariant Be(bitLen, 8) == Be(value, i + 1) + buffer[56 + i + 1..]
      {
        BeStep(value, i + 1);
        ghost var rest := buffer[56 + i + 1..];
        buffer[56 + i] := value % 256;
        assert buffer[56 + i..] == [value % 256] + rest;
        value := value / 256;
        i := i - 1;
      }
      BeStep(value, 0);
    }

    /** Zeros up to the given end. */
    method Fill(start: nat, end: nat)
      requires buffer.Length == 64 && start <= end <= 64
      modifies buffer
      ensures buffer[..start] == old(buffer[..start]) && buffer[start..end] == Zeros(end - start)
      ensures buffer[end..] == old(buffer[end..])
    {
      var i := start;
      while i < end
        invariant start <= i <= end && buffer[..start] == old(buffer[..start]) && buffer[end..] == old(buffer[end..])
        invariant forall j :: start <= j < i ==> buffer[j] == 0
      {
        buffer[i] := 0;
        i := i + 1;
      }
    }

    /** The message's rest and the mark are in the buffer, ending at i. */
    ghost predicate Marked(m: seq<byte>, i: nat)
      reads this, buffer
    {
      && buffer.Length == 64 && i == |m| % 64 + 1 && bitLen == 8 * |m| % LENGTH_RANGE
      && state == Fold(f, m, |m| / 64) && buffer[..i] == Rest(m)
    }

    /** Zeros from i, the length at the end, and the last transform. */
    method CloseBlock(i: nat)
      requires buffer.Length == 64 && i <= 56 && bitLen < LENGTH_RANGE
      modifies this`state, buffer
      ensures state == f(old(state), old(buffer[..i]) + Zeros(56 - i) + Be(bitLen, 8))
    {
      hide Zeros, Be;
      Fill(i, 56);
      ghost var start := buffer[..56];
      assert start == buffer[..i] + buffer[i..56];
      StoreLength();
      assert buffer[..] == buffer[..56] + buffer[56..];
      Transform();
    }

    /** No room for the length: the block is filled up and transformed by itself. */
    method CloseLong(i: nat, ghost m: seq<byte>)
      requires Marked(m, i) && i > 56
      modifies this`state, buffer
      ensures state == f(Fold(f, m, |m| / 64), LongBlock(m))
    {
      hide Fold, Zeros, Rest;
      Fill(i, 64);
      assert buffer[..] == buffer[..i] + buffer[i..64];
      Transform();
    }

    /** sha256_final: padding in one block or two, and the digest. */
    method Final(ghost m: seq<byte>) returns (out: seq<byte>)
      requires Absorbed(m)
      modifies this, buffer
      ensures out == Digest(f, m)
    {
      hide Fold, Be, Zeros, Bytes, Padded, Filler, BlockCount;
      var i := bufferLen;
      buffer[i] := 0x80;
      i := i + 1;
      assert buffer[..i] == Rest(m);
      if i > 56 {
        CloseLong(i, m);
        CloseBlock(0);
        EmptyFirst(Be(bitLen, 8));
        DigestLong(f, m);
      } else {
        CloseBlock(i);
        DigestShort(f, m);
      }
      out := Bytes(state);
    }
  }

  /** One byte more in the buffer, on values: the rest grows, or is the next block. */
  lemma AbsorbOne(f: Compression, m: seq<byte>, b: byte, state: Words, buf: seq<byte>)
    requires |buf| == 64 && state == Fold(f, m, |m| / 64) && buf[..|m| % 64] == m[|m| - |m| % 64..]
    ensures (8 * |m| % LENGTH_RANGE + 8) % LENGTH_RANGE == 8 * |m + [b]| % LENGTH_RANGE
    ensures var n, buf' := |m| % 64 + 1, buf[|m| % 64 := b];
            if n == 64 then |m + [b]| % 64 == 0 && f(state, buf') == Fold(f, m + [b], |m + [b]| / 64)
            else |m + [b]| % 64 == n && state == Fold(f, m + [b], |m + [b]| / 64) && buf'[..n] == (m + [b])[|m + [b]| - n..]
  {
    hide Fold, LENGTH_RANGE;
    TakeLengths(|m|);
    AbsorbAt(f, m, b, state, buf, |m| / 64, |m| % 64);
  }

  lemma AbsorbAt(f: Compression, m: seq<byte>, b: byte, state: Words, buf: seq<byte>, k: nat, r: nat)
    requires |buf| == 64 && |m| == 64 * k + r && r < 64 && state == Fold(f, m, k) && buf[..r] == m[|m| - r..]
    ensures var m', buf' := m + [b], buf[r := b];
            state == Fold(f, m', k) && buf'[..r + 1] == m'[64 * k..] && (r == 63 ==> f(state, buf') == Fold(f, m', k + 1))
  {
    hide Fold;
    var m', buf' := m + [b], buf[r := b];
    FoldPrefix(f, m, m', k);
    assert buf'[..r + 1] == buf[..r] + [b] == m'[64 * k..];
    if r == 63 {
      FoldNext(f, m', k);
      assert buf' == buf'[..64] && m'[64 * k..] == m'[64 * k..64 * (k + 1)];
    }
  }

  lemma FoldNext(f: Compression, m: seq<byte>, n: nat)
    requires 64 * (n + 1) <= |m|
    ensures Fold(f, m, n + 1) == f(Fold(f, m, n), m[64 * n..64 * (n + 1)])
  {
  }

  lemma TakeLengths(n: nat)
    ensures n == 64 * (n / 64) + n % 64
    ensures (8 * n % LENGTH_RANGE + 8) % LENGTH_RANGE == 8 * (n + 1) % LENGTH_RANGE
    ensures if n % 64 == 63 then (n + 1) / 64 == n / 64 + 1 && (n + 1) % 64 == 0
            else (n + 1) / 64 == n / 64 && (n + 1) % 64 == n % 64 + 1
  {
  }

  lemma BeStep(v: nat, n: nat)
    ensures n > 0 ==> Be(v, n) == Be(v / 256, n - 1) + [v % 256]
    ensures n == 0 ==> Be(v, n) == []
  {
  }

  lemma FoldStep(f: Compression, m: seq<byte>, n: nat)
    requires 64 * (n + 1) <= |m|
    ensures Fold(f, m, n + 1) == f(Fold(f, m, n), m[64 * n..64 * (n + 1)])
  {
  }

  lemma FoldTwice(f: Compression, m: seq<byte>, n: nat, s: Words, a: seq<byte>, b: seq<byte>, count: nat)
    requires 64 * (n + 2) <= |m| && count == n + 2 && Fold(f, m, n) == s
    requires m[64 * n..64 * (n + 1)] == a && m[64 * (n + 1)..64 * (n + 2)] == b
    ensures Fold(f, m, count) == f(f(s, a), b)
  {
    FoldStep(f, m, n);
    FoldStep(f, m, n + 1);
  }

  /** The whole blocks of the message come first in the padded message. */
  lemma PadPrefix(f: Compression, m: seq<byte>)
    ensures 64 * (|m| / 64) <= |Padded(m)| && Fold(f, Padded(m), |m| / 64) == Fold(f, m, |m| / 64)
  {
    var n := |m| / 64;
    assert Padded(m)[..|m|] == m;
    assert Padded(m)[..64 * n] == Padded(m)[..|m|][..64 * n];
    FoldPrefix(f, Padded(m), m, n);
  }

  /** With room for mark and length the last block is the only one. */
  lemma PadShort(m: seq<byte>)
    requires |m| % 64 < 56
    ensures var n := |m| / 64;
            && 64 * (n + 1) == |Padded(m)|
            && Padded(m)[64 * n..64 * (n + 1)] == ShortBlock(m)
  {
    hide Be, Zeros;
    PaddedBlocks(|m|);
    assert |m| == 64 * (|m| / 64) + |m| % 64;
  }

  /** Without, the mark is filled up with zeros and the length gets a block of its own. */
  lemma PadLong(m: seq<byte>)
    requires |m| % 64 >= 56
    ensures var n := |m| / 64;
            && 64 * (n + 2) == |Padded(m)|
            && Padded(m)[64 * n..64 * (n + 1)] == LongBlock(m)
            && Padded(m)[64 * (n + 1)..64 * (n + 2)] == LengthBlock(m)
  {
    hide Be;
    PaddedBlocks(|m|);
    assert |m| == 64 * (|m| / 64) + |m| % 64;
    assert Zeros(Filler(|m|)) == Zeros(63 - |m| % 64) + Zeros(56);
  }

  lemma EmptyFirst(length: seq<byte>)
    ensures forall b: seq<byte> :: |b| == 0 ==> b + Zeros(56) + length == Zeros(56) + length
  {
  }

  lemma DigestIs(f: Compression, m: seq<byte>)
    ensures 64 * BlockCount(|m|) <= |Padded(m)|
    ensures BlockCount(|m|) == |m| / 64 + if |m| % 64 < 56 then 1 else 2
    ensures Digest(f, m) == Bytes(Fold(f, Padded(m), BlockCount(|m|)))
  {
    hide Fold, Bytes, Zeros, Be, Filler;
    PaddedBlocks(|m|);
  }

  lemma DigestShort(f: Compression, m: seq<byte>)
    requires |m| % 64 < 56
    ensures Digest(f, m) == Bytes(f(Fold(f, m, |m| / 64), ShortBlock(m)))
  {
    hide *;
    DigestIs(f, m);
    PadPrefix(f, m);
    PadShort(m);
    FoldStep(f, Padded(m), |m| / 64);
  }

  lemma DigestLong(f: Compression, m: seq<byte>)
    requires |m| % 64 >= 56
    ensures Digest(f, m) == Bytes(f(f(Fold(f, m, |m| / 64), LongBlock(m)), LengthBlock(m)))
  {
    hide *;
    DigestIs(f, m);
    PadPrefix(f, m);
    PadLong(m);
    FoldTwice(f, Padded(m), |m| / 64, Fold(f, m, |m| / 64), LongBlock(m), LengthBlock(m), BlockCount(|m|));
  }

  /** sha256_hash is the digest of its input, whatever its length. */
  method Hash(f: Compression, data: seq<byte>) returns (out: seq<byte>)
    ensures out == Digest(f, data)
  {
    var ctx := new Context(f);
    ctx.Update(data, []);
    assert [] + data == data;
    out := ctx.Final(data);
  }

  function Flat(pieces: seq<seq<byte>>): seq<byte> {
    if pieces == [] then [] else Flat(pieces[..|pieces| - 1]) + pieces[|pieces| - 1]
  }

  lemma FlatStart(pieces: seq<seq<byte>>)
    ensures Flat(pieces[..0]) == []
  {
  }

  lemma FlatStep(pieces: seq<seq<byte>>, i: nat)
    requires i < |pieces|
    ensures Flat(pieces[..i + 1]) == Flat(pieces[..i]) + pieces[i]
  {
    assert pieces[..i + 1][..i] == pieces[..i];
  }

  /** Updates over consecutive pieces hash their concatenation. */
  method HashPieces(f: Compression, pieces: seq<seq<byte>>) returns (out: seq<byte>)
    ensures out == Digest(f, Flat(pieces))
  {
    hide *;
    var ctx := new Context(f);
    FlatStart(pieces);
    for i := 0 to |pieces|
      invariant ctx.Absorbed(Flat(pieces[..i])) && fresh(ctx) && fresh(ctx.buffer) && ctx.f == f
    {
      FlatStep(pieces, i);
      ctx.Update(pieces[i], Flat(pieces[..i]));
    }
    assert pieces[..|pieces|] == pieces;
    out := ctx.Final(Flat(pieces));
  }

  /** What the context holds is determined by the message alone. */
  lemma AbsorbedUnique(a: Context, b: Context, m: seq<byte>)
    requires a.Absorbed(m) && b.Absorbed(m) && a.f == b.f
    ensures a.state == b.state && a.bitLen == b.bitLen && a.bufferLen == b.bufferLen
    ensures a.buffer[..a.bufferLen] == b.buffer[..b.bufferLen]
  {
  }
}
