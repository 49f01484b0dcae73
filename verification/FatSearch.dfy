/** Walks over the root directory and the FAT: name lookup, free-cluster search. */
module FatSearch {
  import opened FatBytes
  import opened FatTheory
  import opened FatDisk
  import opened FileMaps
  import opened FatView
  import opened ShortNames

  ghost predicate HealthyDisk(g: Geo, d: seq<Sector>, m: Meta) {
    Sound(g, d, m, {}) && CopiesAgree(g, d) && g.root == Head(RootChain(m))
  }

  /** What a walk over the directory looks for: a name, or a slot to create in. */
  datatype Query = ByName(target: seq<byte>) | Unused

  predicate Hits(q: Query, e: Slot) {
    match q
    case ByName(t) => Live(e) && NameOf(e) == t
    case Unused => e[0] == 0x00 || e[0] == 0xE5
  }

  /** A name search gives up at the first never-used slot. */
  predicate Ends(q: Query, e: Slot) {
    q.ByName? && e[0] == 0
  }

  /** The first n slots neither end the walk nor answer it. */
  ghost predicate Passed(dir: seq<Slot>, n: int, q: Query) {
    forall k :: 0 <= k < n && k < |dir| ==> !Ends(q, dir[k]) && !Hits(q, dir[k])
  }

  datatype Scan = Miss | End | Hit(index: nat)

  /** The sector holds slots base, base + 1, ... of the directory. */
  ghost predicate HoldsSlots(dir: seq<Slot>, base: nat, sec: Sector) {
    base + SLOTS <= |dir| && forall t :: 0 <= t < SLOTS ==> dir[base + t] == SlotIn(sec, t)
  }

  /** The sixteen slots of one directory sector, up to a zero slot or a match. */
  method ScanSector(sec: Sector, q: Query, ghost dir: seq<Slot>, ghost base: nat) returns (r: Scan, ghost k: nat)
    requires HoldsSlots(dir, base, sec) && Passed(dir, base, q)
    ensures r.Miss? ==> Passed(dir, base + SLOTS, q)
    ensures r.End? ==> k < |dir| && Ends(q, dir[k]) && Passed(dir, k, q)
    ensures r.Hit? ==> r.index < SLOTS && k == base + r.index && dir[k] == SlotIn(sec, r.index)
    ensures r.Hit? ==> Hits(q, dir[k]) && Passed(dir, k, q)
  {
    for i := 0 to SLOTS
      invariant Passed(dir, base + i, q)
    {
      var e := SlotIn(sec, i);
      assert e == dir[base + i];
      k := base + i;
      if Ends(q, e) {
        return End, k;
      }
      if Hits(q, e) {
        return Hit(i), k;
      }
    }
    r, k := Miss, 0;
  }

  /** The root chain as the walking loops meet it. */
  lemma RootFacts(g: Geo, d: seq<Sector>, m: Meta, leak: set<nat>)
    requires Sound(g, d, m, leak)
    ensures var root := RootChain(m);
            && |root| > 0 && Distinct(root)
            && (forall j :: 0 <= j < |root| ==> 2 <= root[j] < g.MaxCluster() && InRest(g, Rest(g, d), root[j]))
            && (forall j {:trigger Fat(g, d)[root[j]]} :: 0 <= j < |root| ==>
                  if j + 1 < |root| then Fat(g, d)[root[j]] == root[j + 1] else Fat(g, d)[root[j]] >= EOC)
  {
    var root := RootChain(m);
    assert ChainOk(Fat(g, d), m.own, ROOT, root);
    forall j | 0 <= j < |root|
      ensures 2 <= root[j] < g.MaxCluster() && InRest(g, Rest(g, d), root[j])
    {
      ClusterInRange(g, root[j]);
    }
    forall a, b | 0 <= a < b < |root|
      ensures root[a] != root[b]
    {
      assert m.own[root[a]] == Link(ROOT, a) && m.own[root[b]] == Link(ROOT, b);
    }
    forall j {:trigger Fat(g, d)[root[j]]} | 0 <= j < |root|
      ensures if j + 1 < |root| then Fat(g, d)[root[j]] == root[j + 1] else Fat(g, d)[root[j]] >= EOC
    {
      assert m.own[root[j]] == Link(ROOT, j);
    }
  }

  /** Slot k of the directory lies in the sector at `lba`, as its slot k % 16. */
  ghost predicate Located(g: Geo, d: seq<Sector>, m: Meta, lba: nat, k: nat) {
    var idx := DirIndex(g, RootChain(m));
    && Fits(g, d) && g.DataStart() <= lba < g.total
    && k / SLOTS < |idx| && lba == g.DataStart() + idx[k / SLOTS]
  }

  /** Number of directory sectors in the first j root clusters. */
  function Before(g: Geo, j: nat): nat {
    j * g.spc
  }

  lemma SectorPlace(g: Geo, d: seq<Sector>, m: Meta, j: nat, s: nat, n: nat, lba: nat)
    requires HealthyDisk(g, d, m) && j < |RootChain(m)| && s < g.spc && n == Before(g, j) + s
    requires RootChain(m)[j] >= 2 && lba == g.ClusterToLba(RootChain(m)[j]) + s
    ensures n < |DirIndex(g, RootChain(m))| && lba == g.DataStart() + DirIndex(g, RootChain(m))[n]
    ensures lba < g.total <= |d| && d[lba] == Rest(g, d)[lba - g.DataStart()]
  {
    hide Dir, ChainsWf, DirWf, CopiesAgree, DirIndex, ForeignIs, Geo.MaxCluster, Geo.Base;
    RootFacts(g, d, m, {});
    ClusterInRange(g, RootChain(m)[j]);
    DirIndexAt(g, RootChain(m), j, s);
  }

  lemma SectorHolds(rest: seq<Sector>, idx: seq<nat>, n: nat)
    requires n < |idx| && idx[n] < |rest|
    ensures HoldsSlots(DirSlots(rest, idx), SLOTS * n, rest[idx[n]])
  {
    hide DirSlots, SlotIn;
    forall t | 0 <= t < SLOTS
      ensures DirSlots(rest, idx)[SLOTS * n + t] == SlotIn(rest[idx[n]], t)
    {
      SlotOfSector(rest, idx, n, t);
    }
  }

  /** Directory sector n = j spc + s, read from the disk, holds slots 16 n and on. */
  lemma SectorHere(g: Geo, d: seq<Sector>, m: Meta, j: nat, s: nat, n: nat, lba: nat)
    requires HealthyDisk(g, d, m) && j < |RootChain(m)| && s < g.spc && n == Before(g, j) + s
    requires RootChain(m)[j] >= 2 && lba == g.ClusterToLba(RootChain(m)[j]) + s
    ensures lba < g.total <= |d| && HoldsSlots(Dir(g, d, m), SLOTS * n, d[lba])
    ensures forall k :: SLOTS * n <= k < SLOTS * n + SLOTS ==> Located(g, d, m, lba, k)
  {
    hide DirSlots, DirIndex, HoldsSlots, Rest, CopiesAgree, ChainsWf, DirWf, Fat, ForeignIs, Geo.DataStart, Geo.MaxCluster, Geo.ClusterToLba;
    SectorPlace(g, d, m, j, s, n, lba);
    SectorHolds(Rest(g, d), DirIndex(g, RootChain(m)), n);
    forall k | SLOTS * n <= k < SLOTS * n + SLOTS
      ensures Located(g, d, m, lba, k)
    {
      assert k / SLOTS == n;
    }
  }

  /** A walk that stopped: at the end of the used slots, or at an answering slot k,
      which is slot `index` of the sector at `lba`, now in the buffer. */
  ghost predicate Stopped(g: Geo, d: seq<Sector>, m: Meta, q: Query, r: Scan, lba: nat, k: nat, buffer: Sector) {
    && Fits(g, d) && k < |Dir(g, d, m)| && Passed(Dir(g, d, m), k, q)
    && match r
       case Miss => false
       case End => Ends(q, Dir(g, d, m)[k])
       case Hit(index) => Hits(q, Dir(g, d, m)[k]) && Located(g, d, m, lba, k) && index == k % SLOTS
                          && Dir(g, d, m)[k] == SlotIn(buffer, index) && buffer == d[lba]
  }

  lemma StoppedIs(g: Geo, d: seq<Sector>, m: Meta, q: Query, r: Scan, lba: nat, n: nat, k: nat, buffer: Sector)
    requires Fits(g, d) && k < |Dir(g, d, m)| && Passed(Dir(g, d, m), k, q)
    requires r.End? ==> Ends(q, Dir(g, d, m)[k])
    requires r.Hit? ==> r.index < SLOTS && k == SLOTS * n + r.index && Located(g, d, m, lba, k)
                        && Hits(q, Dir(g, d, m)[k]) && Dir(g, d, m)[k] == SlotIn(buffer, r.index)
    requires !r.Miss? && lba < |d| && buffer == d[lba]
    ensures Stopped(g, d, m, q, r, lba, k, buffer)
  {
    hide Dir, Located, Passed, Hits, Ends;
    if r.Hit? {
      SlotIndex(n, r.index);
    }
  }

  /** Reads directory sector n and scans it. */
  method ScanAt(v: Volume, lba: nat, q: Query, ghost n: nat) returns (r: Scan, ghost k: nat)
    requires Fits(v.g, v.disk) && lba < v.g.total && HoldsSlots(Dir(v.g, v.disk, v.meta), SLOTS * n, v.disk[lba])
    requires forall i :: SLOTS * n <= i < SLOTS * n + SLOTS ==> Located(v.g, v.disk, v.meta, lba, i)
    requires Passed(Dir(v.g, v.disk, v.meta), SLOTS * n, q)
    modifies v`sector
    ensures r.Miss? ==> Passed(Dir(v.g, v.disk, v.meta), SLOTS * (n + 1), q)
    ensures !r.Miss? ==> Stopped(v.g, v.disk, v.meta, q, r, lba, k, v.sector)
  {
    ghost var dir := Dir(v.g, v.disk, v.meta);
    assert lba < 0x1000_0000 && lba < |v.disk|;
    hide Hits, Ends, Passed, HoldsSlots, SlotIn, Dir, Located, Live, NameOf, Fits, Stopped;
    var ok := v.AtaRead(lba);
    r, k := ScanSector(v.sector, q, dir, SLOTS * n);
    if !r.Miss? {
      StoppedIs(v.g, v.disk, v.meta, q, r, lba, n, k, v.sector);
    }
  }

  lemma DiskFits(g: Geo, d: seq<Sector>, m: Meta)
    requires HealthyDisk(g, d, m)
    ensures Fits(g, d)
  {
  }

  /** The sectors of one root cluster, from directory sector n on. */
  method ScanCluster(v: Volume, cluster: nat, q: Query, ghost j: nat, ghost n: nat)
    returns (r: Scan, lba: nat, ghost k: nat)
    requires HealthyDisk(v.g, v.disk, v.meta) && j < |RootChain(v.meta)| && cluster == RootChain(v.meta)[j] >= 2
    requires n == Before(v.g, j) && Passed(Dir(v.g, v.disk, v.meta), SLOTS * n, q)
    modifies v`sector
    ensures r.Miss? ==> Passed(Dir(v.g, v.disk, v.meta), SLOTS * (n + v.g.spc), q)
    ensures !r.Miss? ==> Stopped(v.g, v.disk, v.meta, q, r, lba, k, v.sector)
  {
    hide *;
    DiskFits(v.g, v.disk, v.meta);
    for s := 0 to v.g.spc
      invariant Passed(Dir(v.g, v.disk, v.meta), SLOTS * (n + s), q)
    {
      lba := v.g.ClusterToLba(cluster) + s;
      SectorHere(v.g, v.disk, v.meta, j, s, n + s, lba);
      r, k := ScanAt(v, lba, q, n + s);
      if !r.Miss? {
        return;
      }
    }
    r, lba, k := Miss, 0, 0;
  }

  lemma LastDirSlot(g: Geo, d: seq<Sector>, m: Meta)
    requires Fits(g, d)
    ensures |Dir(g, d, m)| == SLOTS * Before(g, |RootChain(m)|)
  {
  }

  lemma BeforeStep(g: Geo, j: nat)
    ensures Before(g, j + 1) == Before(g, j) + g.spc
  {
    assert (j + 1) * g.spc == j * g.spc + g.spc;
  }

  lemma NextRoot(g: Geo, d: seq<Sector>, m: Meta, j: nat)
    requires HealthyDisk(g, d, m) && j < |RootChain(m)|
    ensures 2 <= RootChain(m)[j] < g.MaxCluster() <= EOC
    ensures if j + 1 < |RootChain(m)| then Fat(g, d)[RootChain(m)[j]] == RootChain(m)[j + 1]
            else Fat(g, d)[RootChain(m)[j]] >= EOC
  {
    RootFacts(g, d, m, {});
    ClusterLimit(g);
  }

  /** The triple loop of the directory walks: along the root chain, sector by
      sector, slot by slot, stopping at the first slot that answers or ends it. */
  method WalkRoot(v: Volume, q: Query) returns (r: Scan, lba: nat, ghost k: nat)
    requires HealthyDisk(v.g, v.disk, v.meta)
    modifies v`sector
    ensures r.Miss? ==> Passed(Dir(v.g, v.disk, v.meta), |Dir(v.g, v.disk, v.meta)|, q)
    ensures !r.Miss? ==> Stopped(v.g, v.disk, v.meta, q, r, lba, k, v.sector)
  {
    hide *;
    ghost var root, j := RootChain(v.meta), 0;
    var cluster := v.g.root;
    WalkStarts(v.g, v.disk, v.meta, q);
    while cluster < EOC
      invariant j <= |root|
      invariant if j < |root| then cluster == root[j] < EOC else cluster >= EOC
      invariant Passed(Dir(v.g, v.disk, v.meta), SLOTS * Before(v.g, j), q)
      decreases |root| - j
    {
      NextRoot(v.g, v.disk, v.meta, j);
      r, lba, k := ScanCluster(v, cluster, q, j, Before(v.g, j));
      if !r.Miss? {
        return;
      }
      cluster := v.NextCluster(cluster);
      BeforeStep(v.g, j);
      j := j + 1;
      if j < |root| {
        NextRoot(v.g, v.disk, v.meta, j);
      }
    }
    LastDirSlot(v.g, v.disk, v.meta);
    r, lba, k := Miss, 0, 0;
  }

  lemma WalkStarts(g: Geo, d: seq<Sector>, m: Meta, q: Query)
    requires HealthyDisk(g, d, m)
    ensures Fits(g, d) && |RootChain(m)| > 0 && g.root == RootChain(m)[0] < EOC
    ensures Passed(Dir(g, d, m), SLOTS * Before(g, 0), q)
  {
    RootFacts(g, d, m, {});
    NextRoot(g, d, m, 0);
  }
}
