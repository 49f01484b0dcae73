/** fs_open, fs_read and fs_read_file. */
module FatRead {
  import opened FatBytes
  import opened FatTheory
  import opened FatDisk
  import opened FileMaps
  import opened FatView
  import opened ShortNames
  import opened FatSearch
  import opened FatFs
  import opened FatOps
  import opened FatWrite
  import opened FatAppend

  // ----- where a byte of a file lies ----------------------------------------------------

  lemma LastCluster(g: Geo, r: seq<Sector>, ch: seq<nat>)
    requires ch != []
    ensures ChainBytes(g, r, ch) == ChainBytes(g, r, ch[..|ch| - 1]) + ClusterBytes(g, r, ch[|ch| - 1])
    ensures |ChainBytes(g, r, ch[..|ch| - 1])| == Bytes(g, |ch| - 1)
  {
  }

  lemma {:induction false} ClusterOfChain(g: Geo, r: seq<Sector>, ch: seq<nat>, j: nat)
    requires j < |ch|
    ensures Bytes(g, j) + g.BytesPerCluster() <= Bytes(g, |ch|) == |ChainBytes(g, r, ch)|
    ensures ChainBytes(g, r, ch)[Bytes(g, j)..Bytes(g, j) + g.BytesPerCluster()] == ClusterBytes(g, r, ch[j])
  {
    hide *;
    BytesBefore(g, j, |ch|);
    BytesStep(g, |ch| - 1);
    LastCluster(g, r, ch);
    var n := |ch| - 1;
    var init, last, b, w := ChainBytes(g, r, ch[..n]), ClusterBytes(g, r, ch[n]), Bytes(g, j), g.BytesPerCluster();
    if j < n {
      BytesBefore(g, j, n);
      ClusterOfChain(g, r, ch[..n], j);
      SliceOfPrefix(init, last, b, b + w);
    } else {
      assert (init + last)[|init|..|init| + |last|] == last;
    }
  }

  lemma SliceOfSlice(b: seq<byte>, p: nat, w: nat, o: nat, n: nat)
    requires p + w <= |b| && o + n <= w
    ensures b[p..p + w][o..o + n] == b[p + o..p + o + n]
  {
    var x, y := b[p..p + w], b[p + o..p + o + n];
    forall i | 0 <= i < n
      ensures x[o..o + n][i] == y[i]
    {
      assert x[o..o + n][i] == x[o + i] == b[p + o + i];
    }
  }

  /** The bytes in one sector of cluster j of the chain, as bytes of the file. */
  lemma SectorOfFile(g: Geo, d: seq<Sector>, ch: seq<nat>, text: seq<byte>, j: nat, s: nat, o: nat, n: nat)
    requires Fits(g, d) && j < |ch| && 2 <= ch[j] < g.MaxCluster() && s < g.spc && Holds(g, Rest(g, d), ch, text)
    requires o + n <= SECTOR_SIZE && Bytes(g, j) + SECTOR_SIZE * s + o + n <= |text|
    ensures g.ClusterToLba(ch[j]) + s < |d| && g.ClusterToLba(ch[j]) + s < 0x1000_0000
    ensures var p := Bytes(g, j) + SECTOR_SIZE * s + o;
            d[g.ClusterToLba(ch[j]) + s][o..o + n] == text[p..p + n]
  {
    hide ChainBytes, ClusterBytes, Rest, Fits, Geo.ClusterToLba, Geo.MaxCluster, Bytes, Geo.BytesPerCluster;
    SectorBytes(g, d, ch[j], s);
    ClusterOfChain(g, Rest(g, d), ch, j);
    SpotFits(g, s, 0, d[g.ClusterToLba(ch[j]) + s]);
    TextSlice(ChainBytes(g, Rest(g, d), ch), text, Bytes(g, j), g.BytesPerCluster(), SECTOR_SIZE * s, SECTOR_SIZE, o, n);
  }

  lemma TextSlice(whole: seq<byte>, text: seq<byte>, a: nat, w: nat, b: nat, v: nat, o: nat, n: nat)
    requires |text| <= |whole| && whole[..|text|] == text && a + w <= |whole| && b + v <= w && o + n <= v
    requires a + b + o + n <= |text|
    ensures whole[a..a + w][b..b + v][o..o + n] == text[a + b + o..a + b + o + n]
  {
    SliceOfSlice(whole, a, w, b, v);
    SliceOfSlice(whole, a + b, v, o, n);
    SliceOfSlice(whole, 0, |text|, a + b + o, n);
    assert whole[0..|text|] == text;
  }

  // ----- the file handle ----------------------------------------------------------------------

  class FileHandle {
    var first: u32
    var size: u32
    var position: u32
    var open: bool

    constructor ()
      ensures !open
    {
      first, size, position, open := 0, 0, 0, false;
    }
  }

  /** The name is in use by something other than a directory. */
  ghost predicate Openable(g: Geo, d: seq<Sector>, m: Meta, n: seq<byte>)
    requires Fits(g, d)
  {
    n in Files(g, d, m) && !DirectoryNamed(g, d, m, n)
  }

  /** An open handle's cluster and size are those of the entry named n. */
  ghost predicate HandleOf(g: Geo, d: seq<Sector>, m: Meta, n: seq<byte>, first: nat, size: nat) {
    exists k: nat :: EntryAt(g, d, m, n, k) && HandleOfSlot(g, d, m, k, first, size)
  }

  ghost predicate HandleOfSlot(g: Geo, d: seq<Sector>, m: Meta, k: nat, first: nat, size: nat) {
    Fits(g, d) && k < |Dir(g, d, m)| && first == FirstOf(Dir(g, d, m)[k]) && size == SizeOf(Dir(g, d, m)[k])
  }

  lemma Opened(g: Geo, d: seq<Sector>, m: Meta, n: seq<byte>, k: nat, e: Slot)
    requires EntryAt(g, d, m, n, k) && k < |Dir(g, d, m)| && e == Dir(g, d, m)[k]
    ensures Fits(g, d) && HandleOf(g, d, m, n, FirstOf(e), SizeOf(e)) && (Openable(g, d, m, n) <==> !IsDirectory(e))
  {
    EntryFacts(g, d, m, n, k);
    hide EntryAt, Dir, FirstOf, SizeOf, IsDirectory, DirectoryNamed, Files;
    assert HandleOfSlot(g, d, m, k, FirstOf(e), SizeOf(e));
  }

  /** What a handle reads from: nothing, or a chain that starts with the file's bytes. */
  ghost predicate Source(g: Geo, d: seq<Sector>, ch: seq<nat>, first: nat, text: seq<byte>) {
    && Fits(g, d) && ch != [] && first == ch[0] && Holds(g, Rest(g, d), ch, text) && |Fat(g, d)| == g.MaxCluster() <= EOC
    && (forall i :: 0 <= i < |ch| ==> 2 <= ch[i] < g.MaxCluster())
    && (forall i {:trigger Fat(g, d)[ch[i]]} :: 0 <= i < |ch| ==>
          if i + 1 < |ch| then Fat(g, d)[ch[i]] == ch[i + 1] else Fat(g, d)[ch[i]] >= EOC)
  }

  lemma ChainedText(g: Geo, d: seq<Sector>, m: Meta, n: seq<byte>, k: nat) returns (text: seq<byte>)
    requires EntryAt(g, d, m, n, k) && k in m.chains
    ensures Fits(g, d) && n in Files(g, d, m) && text == Files(g, d, m)[n] && k < |Dir(g, d, m)|
    ensures |text| == SizeOf(Dir(g, d, m)[k]) && Source(g, d, m.chains[k], FirstOf(Dir(g, d, m)[k]), text)
  {
    EntryFacts(g, d, m, n, k);
    ClusterLimit(g);
    ChainFacts(Fat(g, d), m, {}, k);
    text := ChainBytes(g, Rest(g, d), m.chains[k])[..SizeOf(Dir(g, d, m)[k])];
    hide Dir, DirWf, ChainBytes, Files, Listing, Rest, FirstOf, SizeOf;
  }

  lemma HandleReads(g: Geo, d: seq<Sector>, m: Meta, n: seq<byte>, first: nat, size: nat) returns (ch: seq<nat>, text: seq<byte>)
    requires HandleOf(g, d, m, n, first, size)
    ensures Fits(g, d) && n in Files(g, d, m) && text == Files(g, d, m)[n] && |text| == size
    ensures size > 0 ==> Source(g, d, ch, first, text)
  {
    var k: nat :| EntryAt(g, d, m, n, k) && HandleOfSlot(g, d, m, k, first, size);
    if k in m.chains {
      ch := m.chains[k];
      text := ChainedText(g, d, m, n, k);
    } else {
      EntryFacts(g, d, m, n, k);
      ch, text := [], [];
    }
  }

  // ----- fs_open, fs_read, fs_read_file --------------------------------------------------------

  method FsOpen(v: Volume, name: seq<byte>, file: FileHandle) returns (ok: bool)
    requires HealthyDisk(v.g, v.disk, v.meta)
    modifies v`sector, file
    ensures Fits(v.g, v.disk) && (ok <==> Openable(v.g, v.disk, v.meta, ShortName(name)))
    ensures ok ==> file.open && file.position == 0 && HandleOf(v.g, v.disk, v.meta, ShortName(name), file.first, file.size)
    ensures !ok ==> unchanged(file)
  {
    hide *;
    var e, lba, index;
    ghost var k;
    ok, e, lba, index, k := FindEntry(v, name);
    NotOpenable(v.g, v.disk, v.meta, ShortName(name));
    if !ok {
      return;
    }
    SlotInDir(v.g, v.disk, v.meta, ShortName(name), k);
    Opened(v.g, v.disk, v.meta, ShortName(name), k, e);
    if IsDirectory(e) {
      return false;
    }
    file.first, file.size, file.position, file.open := FirstOf(e), SizeOf(e), 0, true;
  }

  lemma NotOpenable(g: Geo, d: seq<Sector>, m: Meta, n: seq<byte>)
    requires HealthyDisk(g, d, m)
    ensures Fits(g, d) && (Openable(g, d, m, n) ==> n in Files(g, d, m))
  {
  }

  lemma SlotInDir(g: Geo, d: seq<Sector>, m: Meta, n: seq<byte>, k: nat)
    requires EntryAt(g, d, m, n, k)
    ensures Fits(g, d) && k < |Dir(g, d, m)|
  {
  }

  /** Reading has reached byte `at` of cluster j: pos + |out| bytes into the text. */
  ghost predicate Reading(text: seq<byte>, pos: nat, count: nat, out: seq<byte>) {
    |out| <= count && pos + count <= |text| && out == text[pos..pos + |out|]
  }

  lemma ReadMore(text: seq<byte>, pos: nat, count: nat, out: seq<byte>, n: nat)
    requires Reading(text, pos, count, out) && |out| + n <= count
    ensures Reading(text, pos, count, out + text[pos + |out|..pos + |out| + n])
  {
  }

  /** The sectors of one cluster, from the given place on. */
  method ReadCluster(v: Volume, cluster: nat, sectorIndex: nat, byteOffset: nat, count: nat, start: seq<byte>,
                     ghost ch: seq<nat>, ghost first: nat, ghost j: nat, ghost text: seq<byte>, ghost pos: nat)
    returns (ok: bool, out: seq<byte>)
    requires Source(v.g, v.disk, ch, first, text) && j < |ch| && cluster == ch[j] && Reading(text, pos, count, start)
    requires sectorIndex < v.g.spc && byteOffset < SECTOR_SIZE && |start| < count
    requires pos + |start| == Bytes(v.g, j) + SECTOR_SIZE * sectorIndex + byteOffset
    modifies v`sector
    ensures ok && Reading(text, pos, count, out)
    ensures |out| < count ==> pos + |out| == Bytes(v.g, j) + v.g.BytesPerCluster()
  {
    hide *;
    var s, offset := sectorIndex, byteOffset;
    out := start;
    SizeOfCluster(v.g);
    while s < v.g.spc && |out| < count
      invariant s <= v.g.spc && Reading(text, pos, count, out) && 0 <= offset < SECTOR_SIZE
      invariant |out| < count ==> pos + |out| == Bytes(v.g, j) + SECTOR_SIZE * s + offset
      invariant s == v.g.spc ==> offset == 0
    {
      var part;
      ReadingBound(text, pos, count, out);
      ok, part := ReadSector(v, cluster, s, offset, count - |out|, ch, first, j, text);
      if !ok {
        return;
      }
      ReadMore(text, pos, count, out, |part|);
      out := out + part;
      s, offset := s + 1, 0;
    }
    ok := true;
  }

  lemma SizeOfCluster(g: Geo)
    ensures g.BytesPerCluster() == SECTOR_SIZE * g.spc && SECTOR_SIZE == 512
  {
  }

  lemma ReadingBound(text: seq<byte>, pos: nat, count: nat, out: seq<byte>)
    requires Reading(text, pos, count, out)
    ensures |out| <= count && pos + count <= |text|
  {
  }

  /** One sector read and the wanted part of it. */
  method ReadSector(v: Volume, cluster: nat, s: nat, offset: nat, wanted: nat, ghost ch: seq<nat>, ghost first: nat,
                    ghost j: nat, ghost text: seq<byte>) returns (ok: bool, part: seq<byte>)
    requires Source(v.g, v.disk, ch, first, text) && j < |ch| && cluster == ch[j] && s < v.g.spc && offset < SECTOR_SIZE
    requires 0 < wanted && Bytes(v.g, j) + SECTOR_SIZE * s + offset + wanted <= |text|
    modifies v`sector
    ensures ok && |part| == if SECTOR_SIZE - offset < wanted then SECTOR_SIZE - offset else wanted
    ensures var p := Bytes(v.g, j) + SECTOR_SIZE * s + offset; p + |part| <= |text| && part == text[p..p + |part|]
  {
    hide Bytes, Fat, Rest, Holds, Fits, Geo.ClusterToLba, Geo.MaxCluster;
    var available := SECTOR_SIZE - offset;
    var toCopy := if available < wanted then available else wanted;
    SectorOfFile(v.g, v.disk, ch, text, j, s, offset, toCopy);
    ok := v.AtaRead(v.g.ClusterToLba(cluster) + s);
    part := v.sector[offset..offset + toCopy];
  }

  /** The skipping and copying loops of fs_read. */
  method ReadChain(v: Volume, first: nat, position: nat, count: nat, ghost ch: seq<nat>, ghost text: seq<byte>)
    returns (ok: bool, out: seq<byte>)
    requires Source(v.g, v.disk, ch, first, text) && position + count <= |text| && 0 < count
    modifies v`sector
    ensures ok && out == text[position..position + count]
  {
    hide *;
    var cluster, skip := first, position;
    ghost var j := 0;
    SourceFacts(v.g, v.disk, ch, first, text);
    SizeOfCluster(v.g);
    while skip >= v.g.BytesPerCluster() && cluster < EOC
      invariant 0 <= j < |ch| && cluster == ch[j] && position == Bytes(v.g, j) + skip && skip >= 0
      decreases skip
    {
      SourceAt(v.g, v.disk, ch, first, text, j);
      BytesStep(v.g, j);
      cluster := v.NextCluster(cluster);
      skip := skip - v.g.BytesPerCluster();
      InChain(v.g, j + 1, |ch|, position + 1, skip);
      j := j + 1;
    }
    SourceAt(v.g, v.disk, ch, first, text, j);
    out := [];
    Begin(text, position, count);
    while |out| < count && cluster < EOC
      invariant Reading(text, position, count, out) && 0 <= j <= |ch| && 0 <= skip < v.g.BytesPerCluster()
      invariant if j < |ch| then cluster == ch[j] < EOC else cluster >= EOC
      invariant |out| < count ==> position + |out| == Bytes(v.g, j) + skip
      decreases |ch| - j
    {
      SourceAt(v.g, v.disk, ch, first, text, j);
      BytesStep(v.g, j);
      SkipSplit(v.g, skip);
      ok, out := ReadCluster(v, cluster, skip / SECTOR_SIZE, skip % SECTOR_SIZE, count, out, ch, first, j, text, position);
      if !ok {
        return;
      }
      skip := 0;
      cluster := v.NextCluster(cluster);
      j := j + 1;
      if j < |ch| {
        SourceAt(v.g, v.disk, ch, first, text, j);
      }
    }
    AllRead(v.g, text, position, count, out, j, |ch|, skip);
    ok := true;
  }

  lemma Begin(text: seq<byte>, pos: nat, count: nat)
    requires pos + count <= |text|
    ensures Reading(text, pos, count, [])
  {
  }

  lemma AllRead(g: Geo, text: seq<byte>, pos: nat, count: nat, out: seq<byte>, j: nat, n: nat, skip: nat)
    requires Reading(text, pos, count, out) && |text| <= Bytes(g, n) && j <= n
    requires |out| < count ==> j == n && pos + |out| == Bytes(g, j) + skip
    ensures out == text[pos..pos + count]
  {
    hide Bytes;
  }

  lemma SkipSplit(g: Geo, skip: nat)
    requires skip < g.BytesPerCluster()
    ensures skip / SECTOR_SIZE < g.spc && skip == SECTOR_SIZE * (skip / SECTOR_SIZE) + skip % SECTOR_SIZE
  {
  }

  /** A position inside the file is inside its chain. */
  lemma InChain(g: Geo, i: nat, n: nat, size: nat, skip: nat)
    requires size == Bytes(g, i) + skip + 1 && size <= Bytes(g, n)
    ensures i < n
  {
    if n <= i {
      BytesMonotone(g, n, i);
    }
  }

  lemma SourceFacts(g: Geo, d: seq<Sector>, ch: seq<nat>, first: nat, text: seq<byte>)
    requires Source(g, d, ch, first, text)
    ensures ch != [] && first == ch[0] && Bytes(g, 0) == 0 && Fits(g, d) && g.BytesPerCluster() > 0 && |text| <= Bytes(g, |ch|)
  {
  }

  lemma SourceAt(g: Geo, d: seq<Sector>, ch: seq<nat>, first: nat, text: seq<byte>, j: nat)
    requires Source(g, d, ch, first, text) && j < |ch|
    ensures Fits(g, d) && ch[j] < |Fat(g, d)| == g.MaxCluster() && ch[j] < EOC
    ensures if j + 1 < |ch| then Fat(g, d)[ch[j]] == ch[j + 1] else Fat(g, d)[ch[j]] >= EOC
  {
  }

  function Min(a: nat, b: nat): nat {
    if a < b then a else b
  }

  /** The next `count` bytes of the text from `pos`, or what is left of it. */
  function Piece(text: Text, pos: nat, count: nat): (p: Text)
    ensures |p| == if pos < |text| then Min(count, |text| - pos) else 0
  {
    if pos < |text| then text[pos..pos + Min(count, |text| - pos)] else []
  }

  /** The handle is closed, or stands for the file n as it is on this disk. */
  ghost predicate Current(g: Geo, d: seq<Sector>, m: Meta, n: seq<byte>, first: nat, size: nat, open: bool) {
    Fits(g, d) && n in Files(g, d, m) && open && HandleOf(g, d, m, n, first, size)
  }

  method FsRead(v: Volume, file: FileHandle, count: u32, ghost n: seq<byte>) returns (read: nat, out: seq<byte>)
    requires HealthyDisk(v.g, v.disk, v.meta)
    requires file.open ==> Current(v.g, v.disk, v.meta, n, file.first, file.size, file.open)
    modifies v`sector, file`position
    ensures read == |out| && (!old(file.open) ==> out == [])
    ensures old(file.open) ==> Fits(v.g, v.disk) && n in Files(v.g, v.disk, v.meta)
    ensures old(file.open) ==> out == Piece(Files(v.g, v.disk, v.meta)[n], old(file.position), count)
    ensures file.position == old(file.position) + read
  {
    hide *;
    if !file.open || count == 0 {
      if file.open {
        CurrentFacts(v.g, v.disk, v.meta, n, file.first, file.size);
        PieceEmpty(Files(v.g, v.disk, v.meta)[n], file.position, count);
      }
      return 0, [];
    }
    ghost var ch, text := HandleText(v.g, v.disk, v.meta, n, file.first, file.size);
    if file.position >= file.size {
      PieceEmpty(text, file.position, count);
      return 0, [];
    }
    var remaining := file.size - file.position;
    var wanted := if count > remaining then remaining else count;
    PieceIs(text, file.position, count, wanted);
    var ok;
    ok, out := ReadChain(v, file.first, file.position, wanted, ch, text);
    read := |out|;
    file.position := file.position + read;
  }

  lemma CurrentFacts(g: Geo, d: seq<Sector>, m: Meta, n: seq<byte>, first: nat, size: nat)
    requires Current(g, d, m, n, first, size, true)
    ensures Fits(g, d) && n in Files(g, d, m)
  {
  }

  lemma HandleText(g: Geo, d: seq<Sector>, m: Meta, n: seq<byte>, first: nat, size: nat) returns (ch: seq<nat>, text: seq<byte>)
    requires Current(g, d, m, n, first, size, true)
    ensures Fits(g, d) && n in Files(g, d, m) && text == Files(g, d, m)[n] && |text| == size
    ensures size > 0 ==> Source(g, d, ch, first, text)
  {
    hide Files, HandleOf, Fits;
    ch, text := HandleReads(g, d, m, n, first, size);
  }

  lemma PieceEmpty(text: Text, pos: nat, count: nat)
    requires count == 0 || pos >= |text|
    ensures Piece(text, pos, count) == []
  {
  }

  lemma PieceIs(text: Text, pos: nat, count: nat, wanted: nat)
    requires pos < |text| && wanted == if count > |text| - pos then |text| - pos else count
    ensures pos + wanted <= |text| && Piece(text, pos, count) == text[pos..pos + wanted]
  {
  }

  /** The start of the file, as much as the buffer takes; success if that is all of it. */
  ghost predicate ReadResult(g: Geo, d: seq<Sector>, m: Meta, n: seq<byte>, bufferSize: nat, ok: bool, out: seq<byte>) {
    && Fits(g, d) && n in Files(g, d, m) && out == Piece(Files(g, d, m)[n], 0, bufferSize)
    && (ok <==> |Files(g, d, m)[n]| <= bufferSize)
  }

  method FsReadFile(v: Volume, name: seq<byte>, bufferSize: u32) returns (ok: bool, out: seq<byte>)
    requires HealthyDisk(v.g, v.disk, v.meta)
    modifies v`sector
    ensures Fits(v.g, v.disk)
    ensures if Openable(v.g, v.disk, v.meta, ShortName(name))
            then ReadResult(v.g, v.disk, v.meta, ShortName(name), bufferSize, ok, out)
            else !ok && out == []
  {
    hide *;
    var file := new FileHandle();
    FitsDisk(v.g, v.disk, v.meta);
    ok := FsOpen(v, name, file);
    if !ok {
      return false, [];
    }
    var size, read := file.size, 0;
    OpenedIs(v.g, v.disk, v.meta, ShortName(name), file.first, file.size);
    read, out := FsRead(v, file, bufferSize, ShortName(name));
    ReadEnds(v.g, v.disk, v.meta, ShortName(name), bufferSize, out);
    ok := read == size;
  }

  lemma FitsDisk(g: Geo, d: seq<Sector>, m: Meta)
    requires HealthyDisk(g, d, m)
    ensures Fits(g, d)
  {
  }

  lemma ReadEnds(g: Geo, d: seq<Sector>, m: Meta, n: seq<byte>, bufferSize: nat, out: seq<byte>)
    requires Fits(g, d) && n in Files(g, d, m) && out == Piece(Files(g, d, m)[n], 0, bufferSize)
    ensures ReadResult(g, d, m, n, bufferSize, |out| == |Files(g, d, m)[n]|, out)
  {
    hide Files, Fits;
  }

  lemma OpenedIs(g: Geo, d: seq<Sector>, m: Meta, n: seq<byte>, first: nat, size: nat)
    requires HandleOf(g, d, m, n, first, size)
    ensures Current(g, d, m, n, first, size, true) && Fits(g, d) && n in Files(g, d, m) && |Files(g, d, m)[n]| == size
  {
    hide HandleOf, Files, Fits;
    var ch, text := HandleReads(g, d, m, n, first, size);
  }

  // ----- any number of reads -------------------------------------------------------------------

  function Total(counts: seq<u32>): nat {
    if counts == [] then 0 else Total(counts[..|counts| - 1]) + counts[|counts| - 1]
  }

  lemma PieceSplit(text: Text, pos: nat, a: nat, b: nat)
    ensures Piece(text, pos, a) + Piece(text, pos + |Piece(text, pos, a)|, b) == Piece(text, pos, a + b)
  {
  }

  /** Reads with any counts, one after another, deliver the next bytes of the file in order. */
  method ReadInPieces(v: Volume, file: FileHandle, counts: seq<u32>, ghost n: seq<byte>) returns (out: seq<byte>)
    requires HealthyDisk(v.g, v.disk, v.meta)
    requires Current(v.g, v.disk, v.meta, n, file.first, file.size, file.open)
    modifies v`sector, file`position
    ensures Fits(v.g, v.disk) && n in Files(v.g, v.disk, v.meta)
    ensures out == Piece(Files(v.g, v.disk, v.meta)[n], old(file.position), Total(counts))
    ensures file.position == old(file.position) + |out|
  {
    hide *;
    ghost var d, start := v.disk, file.position as nat;
    IsOpen(v.g, d, v.meta, n, file.first, file.size, file.open);
    ghost var text := Files(v.g, d, v.meta)[n];
    TotalStart(counts);
    PieceEmpty(text, start, 0);
    out := [];
    for i := 0 to |counts|
      invariant HealthyDisk(v.g, d, v.meta) && file.open && Current(v.g, d, v.meta, n, file.first, file.size, true)
      invariant out == Piece(text, start, Total(counts[..i])) && file.position == start + |out|
    {
      var read, part := FsRead(v, file, counts[i], n);
      PieceSplit(text, start, Total(counts[..i]), counts[i]);
      TotalNext(counts, i);
      out := out + part;
    }
    assert counts[..|counts|] == counts;
  }

  lemma IsOpen(g: Geo, d: seq<Sector>, m: Meta, n: seq<byte>, first: nat, size: nat, open: bool)
    requires Current(g, d, m, n, first, size, open)
    ensures open && Fits(g, d) && n in Files(g, d, m)
  {
  }

  lemma TotalStart(counts: seq<u32>)
    ensures Total(counts[..0]) == 0
  {
  }

  lemma TotalNext(counts: seq<u32>, i: nat)
    requires i < |counts|
    ensures Total(counts[..i + 1]) == Total(counts[..i]) + counts[i]
  {
    assert counts[..i + 1][..i] == counts[..i];
  }
}
