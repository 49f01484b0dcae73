/** The disk as sectors, the shared sector buffer, and the primitive reads and
    writes of fs/fat32.c. */
module FatDisk {
  import opened Products
  import opened FatBytes
  import opened FatTheory

  // ----- where the FAT lives ----------------------------------------------------

  ghost predicate Fits(g: Geo, d: seq<Sector>) {
    g.Valid() && g.total <= |d|
  }

  function FatSector(g: Geo, copy: nat, c: nat): nat {
    g.fatStart + copy * g.fatSize + c / 128
  }

  lemma FatSectorInRange(g: Geo, copy: nat, c: nat)
    requires g.Valid() && copy < g.fatCount && c < 128 * g.fatSize
    ensures FatSector(g, copy, c) < g.DataStart()
    ensures c / 128 < g.fatSize
  {
    StepFits(copy, g.fatCount, g.fatSize);
  }

  lemma FatSectorsDistinct(g: Geo, a: nat, c: nat, b: nat, d: nat)
    requires c / 128 < g.fatSize && d / 128 < g.fatSize
    requires FatSector(g, a, c) == FatSector(g, b, d)
    ensures a == b && c / 128 == d / 128
  {
    if a < b {
      StepFits(a, b, g.fatSize);
    } else if b < a {
      StepFits(b, a, g.fatSize);
    }
  }

  /** Entry c of FAT copy `copy`. */
  function Entry(g: Geo, d: seq<Sector>, copy: int, c: int): nat {
    if 0 <= copy && 0 <= c && FatSector(g, copy, c) < |d| then FatEntry(d[FatSector(g, copy, c)], c % 128) else 0
  }

  ghost predicate CopiesAgree(g: Geo, d: seq<Sector>) {
    g.spc > 0 && forall b, e :: 0 <= b < g.fatCount && 0 <= e < g.MaxCluster() ==> Entry(g, d, b, e) == Entry(g, d, 0, e)
  }

  ghost function Fat(g: Geo, d: seq<Sector>): (f: seq<nat>)
    requires g.spc > 0
    ensures |f| == g.MaxCluster()
    ensures forall c :: 0 <= c < |f| ==> f[c] == Entry(g, d, 0, c)
  {
    seq(g.MaxCluster(), c => Entry(g, d, 0, c))
  }

  ghost function Rest(g: Geo, d: seq<Sector>): (r: seq<Sector>)
    requires Fits(g, d)
    ensures |r| == g.total - g.DataStart()
  {
    d[g.DataStart()..g.total]
  }

  ghost function PutEntry(g: Geo, d: seq<Sector>, copy: nat, c: nat, v: nat): seq<Sector>
    requires FatSector(g, copy, c) < |d| && v < MASK28
  {
    var l := FatSector(g, copy, c);
    d[l := Splice(d[l], 4 * (c % 128), Le32(v))]
  }

  lemma PutEntryAt(g: Geo, d: seq<Sector>, copy: nat, c: nat, v: nat, b: nat, e: nat)
    requires Fits(g, d) && copy < g.fatCount && c < g.MaxCluster() && v < MASK28
    requires b < g.fatCount && e < g.MaxCluster() && FatSector(g, copy, c) < |d|
    ensures Entry(g, PutEntry(g, d, copy, c, v), b, e) == if b == copy && e == c then v else Entry(g, d, b, e)
  {
    FatSectorInRange(g, copy, c);
    FatSectorInRange(g, b, e);
    var l := FatSector(g, copy, c);
    FatEntryUpdate(d[l], c % 128, v);
    hide FatEntry, Splice, Le32;
    if FatSector(g, b, e) == l {
      FatSectorsDistinct(g, b, e, copy, c);
      assert e == 128 * (e / 128) + e % 128 && c == 128 * (c / 128) + c % 128;
    }
  }

  /** Rewriting one entry of one copy changes nothing else in any FAT copy or in the data area. */
  lemma PutEntryEffect(g: Geo, d: seq<Sector>, copy: nat, c: nat, v: nat)
    requires Fits(g, d) && copy < g.fatCount && c < g.MaxCluster() && v < MASK28
    ensures FatSector(g, copy, c) < |d|
    ensures var d' := PutEntry(g, d, copy, c, v);
            && |d'| == |d| && Rest(g, d') == Rest(g, d)
            && forall b, e :: 0 <= b < g.fatCount && 0 <= e < g.MaxCluster() ==>
                 Entry(g, d', b, e) == if b == copy && e == c then v else Entry(g, d, b, e)
  {
    FatSectorInRange(g, copy, c);
    var d' := PutEntry(g, d, copy, c, v);
    assert Rest(g, d') == Rest(g, d);
    hide Entry, PutEntry;
    forall b, e | 0 <= b < g.fatCount && 0 <= e < g.MaxCluster()
      ensures Entry(g, d', b, e) == if b == copy && e == c then v else Entry(g, d, b, e)
    {
      PutEntryAt(g, d, copy, c, v, b, e);
    }
  }

  // ----- the mounted volume --------------------------------------------------------

  /** What the disk looked like right after one sector write, with the owner map
      that makes sense of it and the clusters marked but not yet owned. */
  datatype Snap = Snap(disk: seq<Sector>, meta: Meta, leak: set<nat>)

  ghost predicate SameView(g: Geo, d: seq<Sector>, e: seq<Sector>) {
    Fits(g, d) && Fits(g, e) && Fat(g, d) == Fat(g, e) && Rest(g, d) == Rest(g, e)
  }

  class Volume {
    const g: Geo
    var disk: seq<Sector>
    var sector: Sector
    ghost var meta: Meta
    ghost var log: seq<Snap>

    constructor (g: Geo, disk: seq<Sector>, ghost meta: Meta)
      ensures this.g == g && this.disk == disk && this.meta == meta && log == []
    {
      this.g := g;
      this.disk := disk;
      this.meta := meta;
      sector := Zeros(512);
      log := [];
    }

    method AtaRead(lba: nat) returns (ok: bool)
      modifies `sector
      ensures ok <==> lba < |disk| && lba < 0x1000_0000
      ensures sector == if ok then disk[lba] else old(sector)
    {
      ok := lba < |disk| && lba < 0x1000_0000;
      if ok {
        sector := disk[lba];
      }
    }

    method AtaWrite(lba: nat, ghost m: Meta, ghost leak: set<nat>) returns (ok: bool)
      modifies `disk, `log
      ensures ok <==> lba < |old(disk)| && lba < 0x1000_0000
      ensures disk == if ok then old(disk)[lba := sector] else old(disk)
      ensures log == if ok then old(log) + [Snap(disk, m, leak)] else old(log)
    {
      ok := lba < |disk| && lba < 0x1000_0000;
      if ok {
        disk := disk[lba := sector];
        log := log + [Snap(disk, m, leak)];
      }
    }

    // ----- FAT entries -----------------------------------------------------------------

    method ReadFatEntry(c: nat) returns (ok: bool, v: nat)
      requires Fits(g, disk) && c < g.MaxCluster()
      modifies `sector
      ensures ok && v == Fat(g, disk)[c] && v < MASK28
    {
      FatOffset(g, 0, c);
      ok := AtaRead(g.fatStart + c * 4 / SECTOR_SIZE);
      v := Rd32(sector, c * 4 % SECTOR_SIZE) % MASK28;
    }

    method NextCluster(c: nat) returns (v: nat)
      requires Fits(g, disk) && c < g.MaxCluster()
      modifies `sector
      ensures v == Fat(g, disk)[c] && v < MASK28
    {
      FatOffset(g, 0, c);
      var ok := AtaRead(g.fatStart + c * 4 / SECTOR_SIZE);
      if !ok {
        return EOC;
      }
      v := Rd32(sector, c * 4 % SECTOR_SIZE) % MASK28;
    }

    method WriteFatCopy(fat: nat, c: nat, v: nat, ghost m: Meta, ghost leak: set<nat>) returns (ok: bool)
      requires Fits(g, disk) && fat < g.fatCount && c < g.MaxCluster() && v < MASK28
      modifies `disk, `sector, `log
      ensures ok && FatSector(g, fat, c) < |old(disk)| && disk == PutEntry(g, old(disk), fat, c, v)
      ensures log == old(log) + [Snap(disk, m, leak)]
    {
      FatOffset(g, fat, c);
      var lba := g.fatStart + fat * g.fatSize + c * 4 / SECTOR_SIZE;
      ok := AtaRead(lba);
      if !ok {
        return;
      }
      sector := Splice(sector, c * 4 % SECTOR_SIZE, Le32(v));
      ok := AtaWrite(lba, m, leak);
    }

    /** Writes entry c in every FAT copy, the first copy first. */
    method WriteFatEntry(c: nat, v: nat, ghost m: Meta, ghost leak: set<nat>) returns (ok: bool)
      requires Fits(g, disk) && c < g.MaxCluster() && v < MASK28
      modifies `disk, `sector, `log
      ensures ok && |disk| == |old(disk)|
      ensures Fat(g, disk) == Fat(g, old(disk))[c := v] && Rest(g, disk) == Rest(g, old(disk))
      ensures CopiesAgree(g, old(disk)) ==> CopiesAgree(g, disk)
      ensures LogGrew(g, old(log), log, disk, m, leak)
    {
      ghost var d0, log0 := disk, log;
      var fat := 0;
      while fat < g.fatCount
        invariant 0 <= fat <= g.fatCount
        invariant EntriesPut(g, d0, disk, fat, c, v)
        invariant fat == 0 ==> log == log0
        invariant LogGrew(g, log0, log, disk, m, leak)
      {
        hide *;
        ghost var before, logBefore := disk, log;
        EntriesPutStep(g, d0, disk, fat, c, v);
        ok := WriteFatCopy(fat, c, v, m, leak);
        if !ok {
          return false;
        }
        if fat > 0 {
          SecondCopyUnseen(g, d0, before, disk, fat, c, v);
        }
        LogStep(g, log0, logBefore, before, disk, m, leak);
        fat := fat + 1;
      }
      EntriesPutView(g, d0, disk, fat, c, v);
      ok := true;
    }
  }

  /** The log kept its old entries, and every new one looks like d. */
  ghost predicate LogGrew(g: Geo, was: seq<Snap>, log: seq<Snap>, d: seq<Sector>, m: Meta, leak: set<nat>) {
    |log| >= |was| && log[..|was|] == was && forall i :: |was| <= i < |log| ==> SnapIs(g, log[i], d, m, leak)
  }

  lemma LogStep(g: Geo, log0: seq<Snap>, log: seq<Snap>, d: seq<Sector>, d': seq<Sector>, m: Meta, leak: set<nat>)
    requires LogGrew(g, log0, log, d, m, leak) && (log == log0 || SameView(g, d, d')) && Fits(g, d')
    ensures LogGrew(g, log0, log + [Snap(d', m, leak)], d', m, leak)
  {
  }

  lemma FatOffset(g: Geo, copy: nat, c: nat)
    requires g.Valid() && copy < g.fatCount && c < g.MaxCluster()
    ensures c * 4 % SECTOR_SIZE == 4 * (c % 128)
    ensures g.fatStart + copy * g.fatSize + c * 4 / SECTOR_SIZE == FatSector(g, copy, c) < g.DataStart()
    ensures copy == 0 ==> g.fatStart + c * 4 / SECTOR_SIZE == FatSector(g, copy, c)
  {
    FatSectorInRange(g, copy, c);
    assert c * 4 / SECTOR_SIZE == c / 128;
  }

  ghost predicate SnapIs(g: Geo, s: Snap, d: seq<Sector>, m: Meta, leak: set<nat>) {
    s.meta == m && s.leak == leak && SameView(g, s.disk, d)
  }

  /** The first n FAT copies have entry c set to v; nothing else differs. */
  ghost predicate EntriesPut(g: Geo, d0: seq<Sector>, d: seq<Sector>, n: nat, c: nat, v: nat) {
    && Fits(g, d0) && Fits(g, d) && |d| == |d0| && Rest(g, d) == Rest(g, d0)
    && forall b, e :: 0 <= b < g.fatCount && 0 <= e < g.MaxCluster() ==>
         Entry(g, d, b, e) == if b < n && e == c then v else Entry(g, d0, b, e)
  }

  lemma EntriesPutStep(g: Geo, d0: seq<Sector>, d: seq<Sector>, n: nat, c: nat, v: nat)
    requires EntriesPut(g, d0, d, n, c, v) && n < g.fatCount && c < g.MaxCluster() && v < MASK28
    ensures FatSector(g, n, c) < |d| && EntriesPut(g, d0, PutEntry(g, d, n, c, v), n + 1, c, v)
  {
    PutEntryEffect(g, d, n, c, v);
    hide Entry, FatSector, PutEntry, Rest;
  }

  lemma SecondCopyUnseen(g: Geo, d0: seq<Sector>, d: seq<Sector>, d': seq<Sector>, n: nat, c: nat, v: nat)
    requires EntriesPut(g, d0, d, n, c, v) && EntriesPut(g, d0, d', n + 1, c, v) && 0 < n < g.fatCount
    ensures SameView(g, d, d')
  {
    hide Entry, Rest;
    assert Fat(g, d) == Fat(g, d');
  }

  lemma EntriesPutView(g: Geo, d0: seq<Sector>, d: seq<Sector>, n: nat, c: nat, v: nat)
    requires EntriesPut(g, d0, d, n, c, v) && n == g.fatCount && c < g.MaxCluster()
    ensures Fat(g, d) == Fat(g, d0)[c := v] && Rest(g, d) == Rest(g, d0)
    ensures CopiesAgree(g, d0) ==> CopiesAgree(g, d)
  {
    hide Entry, Rest;
    assert Fat(g, d) == Fat(g, d0)[c := v];
  }
}
