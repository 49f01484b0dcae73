/** write_buffer_to_cluster and fs_write_file. */
module FatWrite {
  import opened FatBytes
  import opened FatTheory
  import opened FatDisk
  import opened FileMaps
  import opened FatView
  import opened ShortNames
  import opened FatSearch
  import opened FatFs
  import opened FatOps

  // ----- writes inside one cluster -----------------------------------------------------

  /** Disk d' differs from disk d at most in the sectors of cluster c. */
  ghost predicate DataOnly(g: Geo, d: seq<Sector>, d': seq<Sector>, c: nat) {
    && Fits(g, d) && Fits(g, d') && Fat(g, d') == Fat(g, d) && (CopiesAgree(g, d) ==> CopiesAgree(g, d'))
    && SameOutside(g, Rest(g, d), Rest(g, d'), c)
  }

  ghost predicate SnapData(g: Geo, s: Snap, d: seq<Sector>, c: nat, m: Meta, leak: set<nat>) {
    s.meta == m && s.leak == leak && DataOnly(g, d, s.disk, c)
  }

  /** The log kept its old entries, and every new one differs from d in cluster c only. */
  ghost predicate LogData(g: Geo, was: seq<Snap>, log: seq<Snap>, d: seq<Sector>, c: nat, m: Meta, leak: set<nat>) {
    |log| >= |was| && log[..|was|] == was && forall i :: |was| <= i < |log| ==> SnapData(g, log[i], d, c, m, leak)
  }

  lemma LogDataStep(g: Geo, was: seq<Snap>, log: seq<Snap>, d: seq<Sector>, d': seq<Sector>, c: nat, m: Meta, leak: set<nat>)
    requires LogData(g, was, log, d, c, m, leak) && DataOnly(g, d, d', c)
    ensures LogData(g, was, log + [Snap(d', m, leak)], d, c, m, leak)
  {
    hide DataOnly;
  }

  lemma DataWrite(g: Geo, d0: seq<Sector>, d: seq<Sector>, c: nat, s: nat, sec: Sector)
    requires DataOnly(g, d0, d, c) && 2 <= c < g.MaxCluster() && s < g.spc
    ensures g.ClusterToLba(c) + s < |d| && g.ClusterToLba(c) + s < 0x1000_0000
    ensures DataOnly(g, d0, d[g.ClusterToLba(c) + s := sec], c)
    ensures ClusterBytes(g, Rest(g, d[g.ClusterToLba(c) + s := sec]), c)
         == Splice(ClusterBytes(g, Rest(g, d), c), SECTOR_SIZE * s, sec)
  {
    hide Fat, CopiesAgree, Rest, Geo.Base, Geo.MaxCluster, Geo.DataStart, ClusterBytes, Splice;
    var lba := g.ClusterToLba(c) + s;
    ClusterInRange(g, c);
    assert lba == g.DataStart() + (g.Base(c) + s) && lba < g.total;
    RestWrite(g, d, lba, sec);
    SameCluster(g, Rest(g, d), c, s, sec);
  }

  /** b cut or zero-filled to n bytes. */
  function Padded(b: seq<byte>, n: nat): (r: seq<byte>)
    ensures |r| == n
  {
    (b + Zeros(n))[..n]
  }

  lemma Chunk(b: seq<byte>, written: nat, s: nat, n: nat)
    requires s < n && written == if SECTOR_SIZE * s < |b| then SECTOR_SIZE * s else |b|
    ensures var copied := if |b| - written > SECTOR_SIZE then SECTOR_SIZE else |b| - written;
            && Splice(Zeros(512), 0, b[written..written + copied])
               == Padded(b, n * SECTOR_SIZE)[SECTOR_SIZE * s..SECTOR_SIZE * (s + 1)]
            && written + copied == if SECTOR_SIZE * (s + 1) < |b| then SECTOR_SIZE * (s + 1) else |b|
  {
    var copied := if |b| - written > SECTOR_SIZE then SECTOR_SIZE else |b| - written;
    var l, p := Splice(Zeros(512), 0, b[written..written + copied]), Padded(b, n * SECTOR_SIZE);
    var r := p[SECTOR_SIZE * s..SECTOR_SIZE * (s + 1)];
    forall i | 0 <= i < SECTOR_SIZE
      ensures l[i] == r[i]
    {
      assert r[i] == p[SECTOR_SIZE * s + i] == (b + Zeros(n * SECTOR_SIZE))[SECTOR_SIZE * s + i];
    }
  }

  /** The first s sectors of cluster c hold the start of p. */
  ghost predicate Filled(g: Geo, d: seq<Sector>, c: nat, s: nat, p: seq<byte>)
    requires Fits(g, d)
  {
    s <= g.spc && |p| == g.BytesPerCluster() && ClusterBytes(g, Rest(g, d), c)[..SECTOR_SIZE * s] == p[..SECTOR_SIZE * s]
  }

  lemma FilledStep(g: Geo, d0: seq<Sector>, d: seq<Sector>, c: nat, s: nat, sec: Sector, p: seq<byte>)
    requires DataOnly(g, d0, d, c) && 2 <= c < g.MaxCluster() && s < g.spc && Filled(g, d, c, s, p)
    requires sec == p[SECTOR_SIZE * s..SECTOR_SIZE * (s + 1)]
    ensures g.ClusterToLba(c) + s < |d| && g.ClusterToLba(c) + s < 0x1000_0000
    ensures DataOnly(g, d0, d[g.ClusterToLba(c) + s := sec], c)
    ensures Filled(g, d[g.ClusterToLba(c) + s := sec], c, s + 1, p)
  {
    DataWrite(g, d0, d, c, s, sec);
    var b, b' := ClusterBytes(g, Rest(g, d), c), ClusterBytes(g, Rest(g, d[g.ClusterToLba(c) + s := sec]), c);
    hide DataOnly, Fits, ClusterBytes, Rest, Geo.ClusterToLba, Geo.MaxCluster;
    assert b'[..SECTOR_SIZE * (s + 1)] == b[..SECTOR_SIZE * s] + sec;
    assert p[..SECTOR_SIZE * (s + 1)] == p[..SECTOR_SIZE * s] + sec;
  }

  lemma FilledAll(g: Geo, d: seq<Sector>, c: nat, p: seq<byte>)
    requires Fits(g, d) && Filled(g, d, c, g.spc, p)
    ensures ClusterBytes(g, Rest(g, d), c) == p
  {
    var b := ClusterBytes(g, Rest(g, d), c);
    hide ClusterBytes, Rest;
    assert b == b[..SECTOR_SIZE * g.spc] && p == p[..SECTOR_SIZE * g.spc];
  }

  lemma DataOnlySelf(g: Geo, d: seq<Sector>, c: nat)
    requires Fits(g, d)
    ensures DataOnly(g, d, d, c)
  {
  }

  /** The zeroed sector buffer takes the next bytes, at most one sector of them. */
  method FillSector(v: Volume, buffer: seq<byte>, written: nat, ghost s: nat, ghost n: nat) returns (next: nat)
    requires s < n && written == if SECTOR_SIZE * s < |buffer| then SECTOR_SIZE * s else |buffer|
    modifies v`sector
    ensures v.sector == Padded(buffer, n * SECTOR_SIZE)[SECTOR_SIZE * s..SECTOR_SIZE * (s + 1)]
    ensures next == if SECTOR_SIZE * (s + 1) < |buffer| then SECTOR_SIZE * (s + 1) else |buffer|
  {
    Chunk(buffer, written, s, n);
    v.sector, next := Zeros(512), written;
    var remaining := |buffer| - written;
    var toCopy := if remaining > SECTOR_SIZE then SECTOR_SIZE else remaining;
    if toCopy > 0 {
      v.sector := Splice(v.sector, 0, buffer[written..written + toCopy]);
      next := written + toCopy;
    }
  }

  /** The first s sectors of cluster c are written, each logged. */
  ghost predicate Filling(g: Geo, d0: seq<Sector>, d: seq<Sector>, c: nat, s: nat, p: seq<byte>,
                          log0: seq<Snap>, log: seq<Snap>, m: Meta, leak: set<nat>) {
    DataOnly(g, d0, d, c) && Filled(g, d, c, s, p) && LogData(g, log0, log, d0, c, m, leak)
  }

  method WriteClusterSector(v: Volume, cluster: nat, s: nat, ghost d0: seq<Sector>, ghost p: seq<byte>,
                            ghost log0: seq<Snap>, ghost m: Meta, ghost leak: set<nat>) returns (ok: bool)
    requires s < v.g.spc && 2 <= cluster < v.g.MaxCluster()
    requires Filling(v.g, d0, v.disk, cluster, s, p, log0, v.log, m, leak)
    requires v.sector == p[SECTOR_SIZE * s..SECTOR_SIZE * (s + 1)]
    modifies v`disk, v`log
    ensures ok && Filling(v.g, d0, v.disk, cluster, s + 1, p, log0, v.log, m, leak)
  {
    ghost var d, log := v.disk, v.log;
    FilledStep(v.g, d0, d, cluster, s, v.sector, p);
    hide Geo.MaxCluster, Geo.ClusterToLba, DataOnly, LogData, Filled;
    ok := v.AtaWrite(v.g.ClusterToLba(cluster) + s, m, leak);
    LogDataStep(v.g, log0, log, d0, v.disk, cluster, m, leak);
  }

  lemma FillingStarts(g: Geo, d: seq<Sector>, c: nat, p: seq<byte>, log: seq<Snap>, m: Meta, leak: set<nat>)
    requires Fits(g, d) && 2 <= c < g.MaxCluster() && |p| == g.BytesPerCluster()
    ensures Filling(g, d, d, c, 0, p, log, log, m, leak)
  {
    DataOnlySelf(g, d, c);
  }

  /** Fills a whole cluster with the buffer, cut or zero-padded to its size. */
  method WriteBufferToCluster(v: Volume, cluster: nat, buffer: seq<byte>, ghost m: Meta, ghost leak: set<nat>) returns (ok: bool)
    requires Fits(v.g, v.disk) && 2 <= cluster < v.g.MaxCluster()
    modifies v`disk, v`sector, v`log
    ensures ok && DataOnly(v.g, old(v.disk), v.disk, cluster)
    ensures ClusterBytes(v.g, Rest(v.g, v.disk), cluster) == Padded(buffer, v.g.BytesPerCluster())
    ensures LogData(v.g, old(v.log), v.log, old(v.disk), cluster, m, leak)
  {
    hide Geo.MaxCluster, Geo.DataStart, Padded, DataOnly, LogData, Filled, ClusterBytes, Rest, Filling;
    ghost var d0, log0, p := v.disk, v.log, Padded(buffer, v.g.BytesPerCluster());
    var written, s := 0, 0;
    FillingStarts(v.g, d0, cluster, p, log0, m, leak);
    while s < v.g.spc
      invariant s <= v.g.spc && Filling(v.g, d0, v.disk, cluster, s, p, log0, v.log, m, leak)
      invariant written == if SECTOR_SIZE * s < |buffer| then SECTOR_SIZE * s else |buffer|
    {
      written := FillSector(v, buffer, written, s, v.g.spc);
      ok := WriteClusterSector(v, cluster, s, d0, p, log0, m, leak);
      if !ok {
        return;
      }
      s := s + 1;
    }
    FillingDone(v.g, d0, v.disk, cluster, p, log0, v.log, m, leak);
    ok := true;
  }

  lemma FillingDone(g: Geo, d0: seq<Sector>, d: seq<Sector>, c: nat, p: seq<byte>,
                    log0: seq<Snap>, log: seq<Snap>, m: Meta, leak: set<nat>)
    requires Filling(g, d0, d, c, g.spc, p, log0, log, m, leak)
    ensures Fits(g, d) && DataOnly(g, d0, d, c) && LogData(g, log0, log, d0, c, m, leak) && ClusterBytes(g, Rest(g, d), c) == p
  {
    FilledAll(g, d, c, p);
  }

  // ----- what these writes do to the view -------------------------------------------------

  ghost predicate SameItemsBut(a: seq<Item>, b: seq<Item>, k: int) {
    |a| == |b| && forall j :: 0 <= j < |a| && j != k ==> b[j] == a[j]
  }

  ghost predicate OnlyOn(m: Meta, c: nat, k: int) {
    forall j :: j in m.chains && j != k ==> c !in m.chains[j]
  }

  /** Rewriting a cluster that is on no chain but k, if on any, shows in item k at most. */
  lemma DataWritten(g: Geo, d: seq<Sector>, d1: seq<Sector>, m: Meta, leak: set<nat>, c: nat, k: int)
    requires Sound(g, d, m, leak) && DataOnly(g, d, d1, c) && c >= 2 && k != ROOT && OnlyOn(m, c, k)
    ensures Sound(g, d1, m, leak) && Dir(g, d1, m) == Dir(g, d, m)
    ensures SameItemsBut(Listing(g, d, m), Listing(g, d1, m), k)
  {
    hide ChainBytes, ChainsWf, DirWf, SameOutside, CopiesAgree, Fat, DirSlots, DirIndex;
    RootFacts(g, d, m, leak);
    var r, r', a, b := Rest(g, d), Rest(g, d1), Listing(g, d, m), Listing(g, d1, m);
    assert ROOT in m.chains && ChainsWf(Fat(g, d), m, leak);
    forall j | j in m.chains && j != k
      ensures ChainBytes(g, r', m.chains[j]) == ChainBytes(g, r, m.chains[j])
    {
      ChainAtLeast2(Fat(g, d), m, leak, j);
      ChainUntouched(g, r, r', c, m.chains[j]);
    }
    DirFrame(g, r, r', RootChain(m), c);
    hide Dir, Rest, RootChain;
    forall j | 0 <= j < |a| && j != k
      ensures b[j] == a[j]
    {
    }
  }

  lemma FreeIsOff(fat: seq<nat>, m: Meta, c: nat)
    requires ChainsWf(fat, m, {}) && 2 <= c < |fat| && fat[c] == 0
    ensures m.own[c] == Free && forall k :: OnlyOn(m, c, k)
  {
    assert CensusAt(fat, m, {}, c);
    forall j | j in m.chains
      ensures c !in m.chains[j]
    {
      OwnedIsMember(fat, m, {}, j, c);
    }
  }

  /** Marking a free cluster leaks it and changes nothing else. */
  lemma Marked(g: Geo, d: seq<Sector>, d1: seq<Sector>, m: Meta, n: nat)
    requires Sound(g, d, m, {}) && Fits(g, d1) && Rest(g, d1) == Rest(g, d)
    requires 2 <= n < g.MaxCluster() && Fat(g, d)[n] == 0 && Fat(g, d1) == Fat(g, d)[n := EOC_MARK]
    ensures Sound(g, d1, m, {n}) && Dir(g, d1, m) == Dir(g, d, m) && Listing(g, d1, m) == Listing(g, d, m)
    ensures m.own[n] == Free
  {
    MarkFree(Fat(g, d), m, n);
    SameRest(g, d, d1, m);
    hide ChainsWf, DirWf, Dir, Rest, Fat;
  }

  lemma ExtentFits(g: Geo, d: seq<Sector>, m: Meta, m': Meta, n: seq<byte>, k: nat, first: u32, size: u32)
    requires EntryAt(g, d, m, n, k) && k in m'.chains && m'.chains[k] == [first] && first >= 2
    requires size <= g.BytesPerCluster()
    ensures SlotFits(g, Dir(g, d, m), m', k, WithExtent(Dir(g, d, m)[k], first, size))
    ensures Live(WithExtent(Dir(g, d, m)[k], first, size)) && NameOf(WithExtent(Dir(g, d, m)[k], first, size)) == n
    ensures Listing(g, d, m)[k].File? && Listing(g, d, m)[k].name == n
  {
    hide Dir, DirWf, ChainsWf, CopiesAgree, Rest, Fat, ForeignIs, ChainBytes, Unique, FileMap;
    hide Geo.MaxCluster, Geo.DataStart, Geo.BytesPerCluster;
    EntryFacts(g, d, m, n, k);
    OthersNamed(g, d, m, k, n);
    var e := Dir(g, d, m)[k];
    assert Live(WithExtent(e, first, size)) && e[0] != 0;
  }

  lemma ExtentItem(g: Geo, r: seq<Sector>, chains: map<int, seq<nat>>, k: int, e: Slot, first: nat, buf: seq<byte>)
    requires k in chains && chains[k] == [first] && Live(e) && SizeOf(e) == |buf| <= g.BytesPerCluster()
    requires ClusterBytes(g, r, first)[..|buf|] == buf
    ensures ItemAt(g, r, chains, k, e) == File(NameOf(e), buf)
  {
    var ch: seq<nat> := [];
    ChainSnoc(g, r, ch, first);
    assert ch + [first] == [first] && ChainBytes(g, r, ch) == [];
    hide ClusterBytes, Live, SizeOf, NameOf, ChainBytes;
    assert ChainBytes(g, r, chains[k]) == ClusterBytes(g, r, first);
  }

  lemma StoredReady(g: Geo, d0: seq<Sector>, d: seq<Sector>, d': seq<Sector>, m: Meta, leak: set<nat>, m': Meta,
                    n: seq<byte>, k: nat, first: u32, buf: seq<byte>, c: nat)
    requires EntryAt(g, d0, m, n, k) && |buf| < 0x1_0000_0000
    requires Sound(g, d, m, leak) && CopiesAgree(g, d) && Dir(g, d, m) == Dir(g, d0, m)
    requires ChainsWf(Fat(g, d), m', {})
    requires k in m'.chains && m'.chains[k] == [first] && first >= 2 && first !in RootChain(m)
    requires |buf| <= g.BytesPerCluster() && ClusterBytes(g, Rest(g, d), first)[..|buf|] == buf
    requires SlotPut(g, m, d, d', k, Extent(first, |buf|), c)
    ensures Fits(g, d0) && Fits(g, d) && Fits(g, d') && k < |Dir(g, d, m)| == |Listing(g, d, m)|
    ensures var e := WithExtent(Dir(g, d, m)[k], first, |buf|);
            && CopiesAgree(g, d') && ChainsWf(Fat(g, d'), m', {}) && g.root == Head(RootChain(m))
            && Dir(g, d', m) == Dir(g, d, m)[k := e] && SlotFits(g, Dir(g, d, m), m', k, e)
            && c in RootChain(m) && SameOutside(g, Rest(g, d), Rest(g, d'), c)
            && ItemAt(g, Rest(g, d'), m'.chains, k, e) == File(n, buf)
            && k < |Listing(g, d0, m)| && Listing(g, d0, m)[k].File? && Listing(g, d0, m)[k].name == n && Unique(Listing(g, d0, m))
            && Files(g, d0, m) == FileMap(Listing(g, d0, m)) && Files(g, d', m') == FileMap(Listing(g, d', m'))
  {
    hide CopiesAgree, DirWf, Live, NameOf, SizeOf, FirstOf, ChainBytes, SameOutside, SlotFits, ItemAt, WithExtent, Dir, Fat, Rest, ClusterBytes;
    var e := WithExtent(Dir(g, d, m)[k], first, |buf|);
    RootFacts(g, d, m, leak);
    EntryFacts(g, d0, m, n, k);
    ExtentFits(g, d0, m, m', n, k, first, |buf|);
    assert c >= 2 && first != c;
    OtherCluster(g, Rest(g, d), Rest(g, d'), c, first);
    SizeOfExtent(Dir(g, d, m)[k], first, |buf|);
    ExtentItem(g, Rest(g, d'), m'.chains, k, e, first, buf);
  }

  lemma SizeOfExtent(e: Slot, first: u32, size: u32)
    ensures SizeOf(WithExtent(e, first, size)) == size
  {
  }

  /** With one cluster holding the buffer, storing its extent stores the file. */
  lemma Stored(g: Geo, d0: seq<Sector>, d: seq<Sector>, d': seq<Sector>, m: Meta, leak: set<nat>, m': Meta,
               n: seq<byte>, k: nat, first: u32, buf: seq<byte>, c: nat)
    requires EntryAt(g, d0, m, n, k) && |buf| < 0x1_0000_0000
    requires Sound(g, d, m, leak) && CopiesAgree(g, d) && Dir(g, d, m) == Dir(g, d0, m)
    requires SameItemsBut(Listing(g, d0, m), Listing(g, d, m), k)
    requires ChainsWf(Fat(g, d), m', {}) && SameButAt(m.chains, m'.chains, k) && ForeignIs(g, m'.own)
    requires k in m'.chains && m'.chains[k] == [first] && first >= 2 && first !in RootChain(m)
    requires |buf| <= g.BytesPerCluster() && ClusterBytes(g, Rest(g, d), first)[..|buf|] == buf
    requires SlotPut(g, m, d, d', k, Extent(first, |buf|), c)
    ensures HealthyDisk(g, d', m') && Files(g, d', m') == Files(g, d0, m)[n := buf]
  {
    hide *;
    StoredReady(g, d0, d, d', m, leak, m', n, k, first, buf, c);
    var items, e := Listing(g, d0, m), WithExtent(Dir(g, d, m)[k], first, |buf|);
    Committed(g, d, d', m, m', leak, k, e, c);
    SameButItem(items, Listing(g, d, m), k, File(n, buf));
    SetItem(items, k, n, buf);
  }

  lemma SameButItem(a: seq<Item>, b: seq<Item>, k: nat, i: Item)
    requires SameItemsBut(a, b, k) && k < |b|
    ensures k < |a| && b[k := i] == a[k := i]
  {
  }

  // ----- crash states ------------------------------------------------------------------------

  /** A disk on which every file still reads as in `files`, with at most one cluster leaked. */
  ghost predicate Safe(g: Geo, s: Snap, files: map<Text, Text>) {
    Sound(g, s.disk, s.meta, s.leak) && |s.leak| <= 1 && Files(g, s.disk, s.meta) == files
  }

  /** The log kept its old entries, and every new one is safe. */
  ghost predicate AllSafe(g: Geo, was: seq<Snap>, log: seq<Snap>, files: map<Text, Text>) {
    |log| >= |was| && log[..|was|] == was && forall i :: |was| <= i < |log| ==> Safe(g, log[i], files)
  }

  /** All new log entries but the last are safe, and the last is the disk d. */
  ghost predicate SafeUntilLast(g: Geo, was: seq<Snap>, log: seq<Snap>, files: map<Text, Text>, d: seq<Sector>) {
    |log| > 0 && AllSafe(g, was, log[..|log| - 1], files) && log[|log| - 1].disk == d
  }

  lemma NoneYet(g: Geo, was: seq<Snap>, files: map<Text, Text>)
    ensures AllSafe(g, was, was, files)
  {
  }

  lemma SafeData(g: Geo, was: seq<Snap>, log0: seq<Snap>, log: seq<Snap>, d: seq<Sector>, c: nat, m: Meta, files: map<Text, Text>)
    requires AllSafe(g, was, log0, files) && LogData(g, log0, log, d, c, m, {}) && c >= 2
    requires Sound(g, d, m, {}) && Files(g, d, m) == files && OnlyOn(m, c, -2)
    ensures AllSafe(g, was, log, files)
  {
    hide Sound, Files, SnapData;
    forall i | |log0| <= i < |log|
      ensures Safe(g, log[i], files)
    {
      SafeDataSnap(g, log[i], d, c, m, files);
    }
    assert log[..|log0|][..|was|] == log[..|was|];
    forall i | |was| <= i < |log0|
      ensures log[i] == log0[i]
    {
      assert log[..|log0|][i] == log[i];
    }
    hide Safe;
  }

  lemma SafeDataSnap(g: Geo, s: Snap, d: seq<Sector>, c: nat, m: Meta, files: map<Text, Text>)
    requires SnapData(g, s, d, c, m, {}) && c >= 2
    requires Sound(g, d, m, {}) && Files(g, d, m) == files && OnlyOn(m, c, -2)
    ensures Safe(g, s, files)
  {
    DataWritten(g, d, s.disk, m, {}, c, -2);
    hide DataOnly, Files, ChainsWf, DirWf, Dir;
    SameFiles(g, d, s.disk, m);
  }

  lemma SameFiles(g: Geo, d: seq<Sector>, d1: seq<Sector>, m: Meta)
    requires Fits(g, d) && Fits(g, d1) && SameItemsBut(Listing(g, d, m), Listing(g, d1, m), -2)
    ensures Listing(g, d1, m) == Listing(g, d, m) && Files(g, d1, m) == Files(g, d, m)
  {
    var a, b := Listing(g, d, m), Listing(g, d1, m);
    hide Listing;
    assert a == b;
  }

  lemma SafeView(g: Geo, was: seq<Snap>, log0: seq<Snap>, log: seq<Snap>, d: seq<Sector>, m: Meta, leak: set<nat>, files: map<Text, Text>)
    requires AllSafe(g, was, log0, files) && LogGrew(g, log0, log, d, m, leak)
    requires Sound(g, d, m, leak) && Files(g, d, m) == files && |leak| <= 1
    ensures AllSafe(g, was, log, files)
  {
    forall i | |log0| <= i < |log|
      ensures Safe(g, log[i], files)
    {
      assert SnapIs(g, log[i], d, m, leak);
      hide ChainsWf, DirWf, Items, DirSlots, DirIndex, Fat, Rest;
    }
    hide Safe, Sound, Files;
    assert log[..|log0|][..|was|] == log[..|was|];
    forall i | |was| <= i < |log0|
      ensures log[i] == log0[i]
    {
      assert log[..|log0|][i] == log[i];
    }
  }

  lemma ThenLast(g: Geo, was: seq<Snap>, log: seq<Snap>, files: map<Text, Text>, s: Snap)
    requires AllSafe(g, was, log, files)
    ensures SafeUntilLast(g, was, log + [s], files, s.disk)
  {
    assert (log + [s])[..|log|] == log;
  }

  // ----- taking a free cluster ------------------------------------------------------------------

  /** Disk d' is disk d with free cluster c filled and marked, but on no chain yet. */
  ghost predicate Taken(g: Geo, d: seq<Sector>, d': seq<Sector>, m: Meta, c: nat, buffer: seq<byte>) {
    && Fits(g, d) && 2 <= c < g.MaxCluster() && Fat(g, d)[c] == 0
    && Sound(g, d', m, {c}) && CopiesAgree(g, d') && Fat(g, d') == Fat(g, d)[c := EOC_MARK]
    && Dir(g, d', m) == Dir(g, d, m) && Listing(g, d', m) == Listing(g, d, m)
    && m.own[c] == Free && (forall k :: OnlyOn(m, c, k)) && SameOutside(g, Rest(g, d), Rest(g, d'), c)
    && ClusterBytes(g, Rest(g, d'), c) == Padded(buffer, g.BytesPerCluster())
  }

  lemma TakenFiles(g: Geo, d: seq<Sector>, d': seq<Sector>, m: Meta, c: nat, buffer: seq<byte>)
    requires Taken(g, d, d', m, c, buffer)
    ensures Sound(g, d', m, {c}) && Files(g, d', m) == Files(g, d, m)
  {
  }

  lemma TakenIs(g: Geo, d: seq<Sector>, d1: seq<Sector>, d2: seq<Sector>, m: Meta, c: nat, buffer: seq<byte>)
    requires Sound(g, d, m, {}) && CopiesAgree(g, d) && 2 <= c < g.MaxCluster() && Fat(g, d)[c] == 0
    requires DataOnly(g, d, d1, c) && ClusterBytes(g, Rest(g, d1), c) == Padded(buffer, g.BytesPerCluster())
    requires Fits(g, d2) && Fat(g, d2) == Fat(g, d1)[c := EOC_MARK] && Rest(g, d2) == Rest(g, d1) && CopiesAgree(g, d2)
    ensures Taken(g, d, d2, m, c, buffer) && OnlyOn(m, c, -2)
    ensures Sound(g, d1, m, {}) && Files(g, d1, m) == Files(g, d, m) && Files(g, d2, m) == Files(g, d, m)
  {
    FreeIsOff(Fat(g, d), m, c);
    assert OnlyOn(m, c, -2);
    DataWritten(g, d, d1, m, {}, c, -2);
    SameFiles(g, d, d1, m);
    Marked(g, d1, d2, m, c);
    hide Dir, Listing, Fat, Rest, ChainsWf, DirWf, CopiesAgree, ClusterBytes, Padded;
  }

  method FillFreeCluster(v: Volume, buffer: seq<byte>) returns (ok: bool, c: nat)
    requires Sound(v.g, v.disk, v.meta, {}) && CopiesAgree(v.g, v.disk)
    modifies v`disk, v`sector, v`log
    ensures Fits(v.g, old(v.disk)) && (ok <==> HasFree(v.g, old(v.disk)))
    ensures !ok ==> v.disk == old(v.disk) && v.log == old(v.log)
    ensures ok ==> Taken(v.g, old(v.disk), v.disk, v.meta, c, buffer)
    ensures ok ==> AllSafe(v.g, old(v.log), v.log, Files(v.g, old(v.disk), v.meta))
  {
    hide Taken, Fat, CopiesAgree, Rest, Files, ChainsWf, DirWf, ForeignIs, Dir, DataOnly, LogData, LogGrew, Padded, AllSafe, ClusterBytes, OnlyOn;
    hide Geo.BytesPerCluster, Geo.MaxCluster, Geo.DataStart;
    ghost var d, files := v.disk, Files(v.g, v.disk, v.meta);
    assert Fits(v.g, d);
    ok, c := FindFreeCluster(v);
    assert ok <==> HasFree(v.g, d);
    if !ok {
      return;
    }
    assert EOC_MARK < MASK28;
    ok := WriteBufferToCluster(v, c, buffer, v.meta, {});
    if !ok {
      return;
    }
    ghost var d1, log1 := v.disk, v.log;
    DataFits(v.g, d, d1, c);
    ok := v.WriteFatEntry(c, EOC_MARK, v.meta, {c});
    StillFits(v.g, d1, v.disk);
    TakenIs(v.g, d, d1, v.disk, v.meta, c, buffer);
    NoneYet(v.g, old(v.log), files);
    SafeData(v.g, old(v.log), old(v.log), log1, d, c, v.meta, files);
    TakenFiles(v.g, d, v.disk, v.meta, c, buffer);
    SafeView(v.g, old(v.log), log1, v.log, v.disk, v.meta, {c}, files);
  }

  lemma DataFits(g: Geo, d: seq<Sector>, d': seq<Sector>, c: nat)
    requires DataOnly(g, d, d', c)
    ensures Fits(g, d')
    ensures Fat(g, d') == Fat(g, d) && (CopiesAgree(g, d) ==> CopiesAgree(g, d'))
  {
  }

  lemma StillFits(g: Geo, d: seq<Sector>, d': seq<Sector>)
    requires Fits(g, d) && |d'| == |d|
    ensures Fits(g, d')
  {
  }

  // ----- fs_write_file ----------------------------------------------------------------------------

  ghost function Started(m: Meta, k: int, c: nat): Meta
    requires c < |m.own|
  {
    Meta(m.chains[k := [c]], m.own[c := Link(k, 0)])
  }

  lemma PaddedStart(b: seq<byte>, n: nat)
    requires |b| <= n
    ensures Padded(b, n)[..|b|] == b
  {
  }

  lemma FirstReady(g: Geo, d: seq<Sector>, d1: seq<Sector>, m: Meta, n: seq<byte>, k: nat, c: nat, buf: seq<byte>)
    requires EntryAt(g, d, m, n, k) && k !in m.chains && Taken(g, d, d1, m, c, buf) && |buf| <= g.BytesPerCluster()
    ensures c < |m.own| && c < 0x1000_0000
    ensures ChainsWf(Fat(g, d1), Started(m, k, c), {}) && SameButAt(m.chains, Started(m, k, c).chains, k)
    ensures ForeignIs(g, Started(m, k, c).own)
    ensures c !in RootChain(m) && ClusterBytes(g, Rest(g, d1), c)[..|buf|] == buf
    ensures SameItemsBut(Listing(g, d, m), Listing(g, d1, m), k)
  {
    hide DirWf, Fat, Rest, Dir, Listing, CopiesAgree, Padded, ClusterBytes, HealthyDisk, Hits, ChainOk, CensusAt;
    hide Geo.MaxCluster, Geo.DataStart, Geo.BytesPerCluster;
    ClusterLimit(g);
    assert OnlyOn(m, c, -2) && ChainsWf(Fat(g, d1), m, {c}) && c < |m.own|;
    PaddedStart(buf, g.BytesPerCluster());
    StartChain(Fat(g, d1), m, k, c);
  }

  /** The first cluster of an empty file. */
  method WriteFirst(v: Volume, buffer: seq<byte>, lba: nat, index: nat, ghost n: seq<byte>, ghost k: nat) returns (ok: bool)
    requires EntryAt(v.g, v.disk, v.meta, n, k) && k !in v.meta.chains
    requires Located(v.g, v.disk, v.meta, lba, k) && index == k % SLOTS
    requires |buffer| <= v.g.BytesPerCluster() && |buffer| < 0x1_0000_0000
    modifies v
    ensures Fits(v.g, old(v.disk)) && HealthyDisk(v.g, v.disk, v.meta)
    ensures ok <==> HasFree(v.g, old(v.disk))
    ensures ok ==> Files(v.g, v.disk, v.meta) == Files(v.g, old(v.disk), old(v.meta))[n := buffer]
    ensures ok ==> SafeUntilLast(v.g, old(v.log), v.log, Files(v.g, old(v.disk), old(v.meta)), v.disk)
    ensures !ok ==> v.disk == old(v.disk) && v.meta == old(v.meta)
  {
    hide Located, Files, HasFree, Taken, AllSafe, SafeUntilLast, RootOk, SlotPut, CopiesAgree, ChainsWf, DirWf, Dir, Fat, ForeignIs, At, Hits, Listing;
    hide Geo.BytesPerCluster, Geo.MaxCluster, Geo.DataStart;
    ghost var d, m, files := v.disk, v.meta, Files(v.g, v.disk, v.meta);
    assert HealthyDisk(v.g, d, m) && Fits(v.g, d);
    SoundRoot(v.g, d, m, {});
    var c;
    ok, c := FillFreeCluster(v, buffer);
    if !ok {
      return;
    }
    ghost var d1, log1, c0 := v.disk, v.log, 0;
    FirstReady(v.g, d, d1, m, n, k, c, buffer);
    TakenFacts(v.g, d, d1, m, c, buffer, lba, k);
    ok, c0 := StoreSlot(v, lba, index, Extent(c, |buffer|), k, Started(m, k, c), {});
    v.meta := Started(m, k, c);
    Stored(v.g, d, d1, v.disk, m, {c}, v.meta, n, k, c, buffer, c0);
    ThenLast(v.g, old(v.log), log1, files, Snap(v.disk, v.meta, {}));
  }

  lemma TakenFacts(g: Geo, d: seq<Sector>, d1: seq<Sector>, m: Meta, c: nat, buf: seq<byte>, lba: nat, k: nat)
    requires Taken(g, d, d1, m, c, buf) && Located(g, d, m, lba, k)
    ensures Sound(g, d1, m, {c}) && Fits(g, d1) && CopiesAgree(g, d1) && Dir(g, d1, m) == Dir(g, d, m) && c >= 2
    ensures Located(g, d1, m, lba, k)
  {
    hide ChainsWf, DirWf, Fat, Rest, Dir, CopiesAgree;
  }

  method ClusterIsSingle(v: Volume, cluster: nat) returns (r: bool)
    requires Fits(v.g, v.disk) && cluster < v.g.MaxCluster()
    modifies v`sector
    ensures r <==> cluster >= 2 && Fat(v.g, v.disk)[cluster] >= EOC
  {
    if cluster < 2 {
      return false;
    }
    var ok, next := v.ReadFatEntry(cluster);
    r := ok && next >= EOC;
  }

  lemma SingleIs(g: Geo, d: seq<Sector>, m: Meta, n: seq<byte>, k: nat)
    requires EntryAt(g, d, m, n, k) && k in m.chains
    ensures var first := FirstOf(Dir(g, d, m)[k]);
            && 2 <= first < g.MaxCluster() && first in m.chains[k] && OnlyOn(m, first, k) && first !in RootChain(m)
            && (Fat(g, d)[first] >= EOC <==> |m.chains[k]| == 1) && (|m.chains[k]| == 1 ==> m.chains[k] == [first])
  {
    EntryFacts(g, d, m, n, k);
    ClusterLimit(g);
    ChainFacts(Fat(g, d), m, {}, k);
    var ch := m.chains[k];
    assert ROOT in m.chains && RootChain(m) == m.chains[ROOT];
    forall j | j in m.chains && j != k
      ensures ch[0] !in m.chains[j]
    {
      OffChain(Fat(g, d), m, {}, j, k, ch[0]);
    }
  }

  /** A file of one cluster, rewritten in place. */
  method Overwrite(v: Volume, buffer: seq<byte>, first: u32, lba: nat, index: nat, ghost n: seq<byte>, ghost k: nat) returns (ok: bool)
    requires EntryAt(v.g, v.disk, v.meta, n, k) && k in v.meta.chains && first == FirstOf(Dir(v.g, v.disk, v.meta)[k])
    requires Located(v.g, v.disk, v.meta, lba, k) && index == k % SLOTS
    requires |buffer| <= v.g.BytesPerCluster() && |buffer| < 0x1_0000_0000
    modifies v
    ensures Fits(v.g, old(v.disk)) && HealthyDisk(v.g, v.disk, v.meta)
    ensures ok <==> |old(v.meta).chains[k]| == 1
    ensures ok ==> Files(v.g, v.disk, v.meta) == Files(v.g, old(v.disk), old(v.meta))[n := buffer]
    ensures !ok ==> v.disk == old(v.disk) && v.meta == old(v.meta)
  {
    hide Located, Files, RootOk, SlotPut, CopiesAgree, ChainsWf, DirWf, Dir, Fat, ForeignIs, OnlyOn, LogData, DataOnly, Padded, Rest, ClusterBytes;
    hide Geo.MaxCluster, Geo.DataStart, Geo.BytesPerCluster;
    ghost var d, m := v.disk, v.meta;
    SoundRoot(v.g, d, m, {});
    SingleIs(v.g, d, m, n, k);
    PaddedStart(buffer, v.g.BytesPerCluster());
    ok := ClusterIsSingle(v, first);
    if !ok {
      return;
    }
    ok := WriteBufferToCluster(v, first, buffer, m, {});
    if !ok {
      return;
    }
    ghost var d1, c := v.disk, 0;
    DataFits(v.g, d, d1, first);
    DataWritten(v.g, d, d1, m, {}, first, k);
    LocatedAlso(v.g, d, d1, m, lba, k);
    ok, c := StoreSlot(v, lba, index, Extent(first, |buffer|), k, m, {});
    Stored(v.g, d, d1, v.disk, m, {}, m, n, k, first, buffer, c);
  }

  lemma LocatedAlso(g: Geo, d: seq<Sector>, d1: seq<Sector>, m: Meta, lba: nat, k: nat)
    requires Located(g, d, m, lba, k) && Fits(g, d1)
    ensures Located(g, d1, m, lba, k)
  {
  }

  ghost predicate Writable(g: Geo, d: seq<Sector>, m: Meta, n: seq<byte>)
    requires Fits(g, d)
  {
    forall k :: EntryAt(g, d, m, n, k) ==> if k in m.chains then |m.chains[k]| == 1 else HasFree(g, d)
  }

  /** Whole-file write of at most one cluster; zero bytes leave the file as it is. */
  method FsWriteFile(v: Volume, name: seq<byte>, buffer: seq<byte>) returns (ok: bool)
    requires HealthyDisk(v.g, v.disk, v.meta) && |buffer| < 0x1_0000_0000
    modifies v
    ensures HealthyDisk(v.g, v.disk, v.meta) && Fits(v.g, old(v.disk))
    ensures ok <==> FileNamed(v.g, old(v.disk), old(v.meta), name) && |buffer| <= v.g.BytesPerCluster()
                    && (buffer == [] || Writable(v.g, old(v.disk), old(v.meta), ShortName(name)))
    ensures ok ==> Files(v.g, v.disk, v.meta) ==
                   if buffer == [] then Files(v.g, old(v.disk), old(v.meta))
                   else Files(v.g, old(v.disk), old(v.meta))[ShortName(name) := buffer]
    ensures ok && buffer != [] && !HasChain(v.g, old(v.disk), old(v.meta), ShortName(name)) ==>
              SafeUntilLast(v.g, old(v.log), v.log, Files(v.g, old(v.disk), old(v.meta)), v.disk)
    ensures !ok || buffer == [] ==> v.disk == old(v.disk) && v.meta == old(v.meta)
  {
    hide CopiesAgree, ChainsWf, DirWf, ForeignIs, Dir, Located, ShortName, Files, EntryAt, FileNamed, SafeUntilLast, Fat, HasFree;
    hide Geo.BytesPerCluster, Geo.MaxCluster, Geo.DataStart;
    ghost var d, m, n := v.disk, v.meta, ShortName(name);
    assert Fits(v.g, d);
    if |buffer| > v.g.BytesPerCluster() {
      return false;
    }
    var e, lba, index;
    ghost var k;
    ok, e, lba, index, k := FindFile(v, name);
    if !ok {
      return;
    }
    if |buffer| == 0 {
      return;
    }
    EntryFacts(v.g, d, m, n, k);
    OneEntry(v.g, d, m, n, k);
    var target := FirstOf(e);
    if target == 0 {
      ok := SizeOf(e) == 0;
      if ok {
        ok := WriteFirst(v, buffer, lba, index, n, k);
      }
    } else {
      ok := Overwrite(v, buffer, target, lba, index, n, k);
    }
  }
}
