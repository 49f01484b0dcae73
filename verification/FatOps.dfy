/** create, truncate, delete and rename: operations that end in one slot rewrite. */
module FatOps {
  import opened FatBytes
  import opened FatTheory
  import opened FatDisk
  import opened FileMaps
  import opened FatView
  import opened ShortNames
  import opened FatSearch
  import opened FatFs

  /** A slot that fits the chain it names, and no other live slot has its name. */
  ghost predicate SlotFits(g: Geo, dir: seq<Slot>, m: Meta, k: nat, e: Slot)
    requires k < |dir|
  {
    && (Live(e) ==>
          if k in m.chains
          then FirstOf(e) == Head(m.chains[k]) && FirstOf(e) >= 2 && SizeOf(e) <= |m.chains[k]| * g.BytesPerCluster()
          else FirstOf(e) == 0 && SizeOf(e) == 0)
    && (k in m.chains ==> Live(e))
    && (Live(e) ==> forall j :: 0 <= j < |dir| && j != k && Live(dir[j]) ==> NameOf(dir[j]) != NameOf(e))
    && e[0] != 0 && forall j :: 0 <= j < k ==> dir[j][0] != 0
  }

  /** Chains updated, then slot k rewritten: the volume is healthy again and its
      listing changed at k alone. */
  lemma Committed(g: Geo, d: seq<Sector>, d': seq<Sector>, m: Meta, m': Meta, leak: set<nat>, k: nat, e: Slot, c: nat)
    requires Sound(g, d, m, leak) && Fits(g, d') && CopiesAgree(g, d') && ChainsWf(Fat(g, d'), m', {})
    requires g.root == Head(RootChain(m))
    requires k < |Dir(g, d, m)| && Dir(g, d', m) == Dir(g, d, m)[k := e] && SlotFits(g, Dir(g, d, m), m', k, e)
    requires c in RootChain(m) && SameOutside(g, Rest(g, d), Rest(g, d'), c)
    requires SameButAt(m.chains, m'.chains, k) && ForeignIs(g, m'.own)
    ensures HealthyDisk(g, d', m') && Dir(g, d', m') == Dir(g, d, m)[k := e]
    ensures Listing(g, d', m') == Listing(g, d, m)[k := ItemAt(g, Rest(g, d'), m'.chains, k, e)]
    ensures Unique(Listing(g, d, m)) && Unique(Listing(g, d', m'))
    ensures k in m.chains ==> ChainBytes(g, Rest(g, d'), m.chains[k]) == ChainBytes(g, Rest(g, d), m.chains[k])
  {
    EditListing(g, d, d', m, m', leak, k, e, c);
    ListingUnique(g, Rest(g, d), m.chains, Dir(g, d, m));
    hide ItemAt, ChainsWf, CopiesAgree, Rest;
    RewriteSlot(g.BytesPerCluster(), Dir(g, d, m), m.chains, k, e, m'.chains);
    assert HealthyDisk(g, d', m');
    ListingUnique(g, Rest(g, d'), m'.chains, Dir(g, d', m'));
  }

  lemma OthersNamed(g: Geo, d: seq<Sector>, m: Meta, k: nat, n: seq<byte>)
    requires Sound(g, d, m, {}) && k < |Dir(g, d, m)|
    requires (Live(Dir(g, d, m)[k]) && NameOf(Dir(g, d, m)[k]) == n) || n !in FileMap(Listing(g, d, m))
    ensures forall j :: 0 <= j < |Dir(g, d, m)| && j != k && Live(Dir(g, d, m)[j]) ==> NameOf(Dir(g, d, m)[j]) != n
  {
    var dir := Dir(g, d, m);
    InMap(Listing(g, d, m), n);
    forall j | 0 <= j < |dir| && j != k && Live(dir[j])
      ensures NameOf(dir[j]) != n
    {
      assert NameOf(dir[j]) == n ==> At(Listing(g, d, m), n, j);
    }
  }

  // ----- entries ---------------------------------------------------------------------------

  /** The live entry of that name is a directory; the file operations refuse it. */
  ghost predicate DirectoryNamed(g: Geo, d: seq<Sector>, m: Meta, n: seq<byte>)
    requires Fits(g, d)
  {
    exists k :: 0 <= k < |Dir(g, d, m)| && Hits(ByName(n), Dir(g, d, m)[k]) && IsDirectory(Dir(g, d, m)[k])
  }

  lemma DirectoryIs(g: Geo, d: seq<Sector>, m: Meta, n: seq<byte>, k: nat)
    requires Sound(g, d, m, {}) && k < |Dir(g, d, m)| && Hits(ByName(n), Dir(g, d, m)[k])
    ensures DirectoryNamed(g, d, m, n) <==> IsDirectory(Dir(g, d, m)[k])
  {
    hide Dir, Fat, ChainsWf, ForeignIs, IsDirectory, FirstOf, SizeOf, NameOf, Live;
    hide Geo.MaxCluster, Geo.DataStart, Geo.BytesPerCluster;
  }

  /** Slot k of the volume d is the live entry named n. */
  ghost predicate EntryAt(g: Geo, d: seq<Sector>, m: Meta, n: seq<byte>, k: nat) {
    HealthyDisk(g, d, m) && k < |Dir(g, d, m)| && Hits(ByName(n), Dir(g, d, m)[k]) && At(Listing(g, d, m), n, k)
  }

  lemma EntryFacts(g: Geo, d: seq<Sector>, m: Meta, n: seq<byte>, k: nat)
    requires EntryAt(g, d, m, n, k)
    ensures Fits(g, d) && Unique(Listing(g, d, m)) && n in Files(g, d, m) && Files(g, d, m)[n] == Listing(g, d, m)[k].bytes
    ensures DirectoryNamed(g, d, m, n) <==> IsDirectory(Dir(g, d, m)[k])
    ensures forall j :: 0 <= j < k ==> Dir(g, d, m)[j][0] != 0
    ensures k in m.chains <==> FirstOf(Dir(g, d, m)[k]) >= 2
    ensures k in m.chains ==> FirstOf(Dir(g, d, m)[k]) == Head(m.chains[k])
                              && SizeOf(Dir(g, d, m)[k]) <= |m.chains[k]| * g.BytesPerCluster()
    ensures k !in m.chains ==> FirstOf(Dir(g, d, m)[k]) == 0 && SizeOf(Dir(g, d, m)[k]) == 0
    ensures Listing(g, d, m)[k] == ItemAt(g, Rest(g, d), m.chains, k, Dir(g, d, m)[k])
  {
    ListingUnique(g, Rest(g, d), m.chains, Dir(g, d, m));
    MapAt(Listing(g, d, m), n, k);
    DirectoryIs(g, d, m, n, k);
  }

  lemma OneEntry(g: Geo, d: seq<Sector>, m: Meta, n: seq<byte>, k: nat)
    requires EntryAt(g, d, m, n, k)
    ensures Fits(g, d) && forall j :: EntryAt(g, d, m, n, j) ==> j == k
  {
    hide Dir, ChainsWf, CopiesAgree, Listing;
  }

  ghost predicate HasFree(g: Geo, d: seq<Sector>)
    requires Fits(g, d)
  {
    exists c :: 2 <= c < g.MaxCluster() && Fat(g, d)[c] == 0
  }

  ghost predicate HasChain(g: Geo, d: seq<Sector>, m: Meta, n: seq<byte>) {
    exists k: nat :: EntryAt(g, d, m, n, k) && k in m.chains
  }

  /** The clusters of the file named n, in order; none if it has none. */
  ghost function ChainOf(g: Geo, d: seq<Sector>, m: Meta, n: seq<byte>): seq<nat> {
    if HasChain(g, d, m, n) then
      var k: nat :| EntryAt(g, d, m, n, k) && k in m.chains;
      m.chains[k]
    else []
  }

  lemma ChainOfIs(g: Geo, d: seq<Sector>, m: Meta, n: seq<byte>, k: nat)
    requires EntryAt(g, d, m, n, k)
    ensures ChainOf(g, d, m, n) == Chain(m, k)
  {
    OneEntry(g, d, m, n, k);
    hide EntryAt;
  }

  /** The name is an ordinary file that holds no cluster yet. */
  ghost predicate Fresh(g: Geo, d: seq<Sector>, m: Meta, n: seq<byte>) {
    exists k: nat :: EntryAt(g, d, m, n, k) && FreshSlot(g, d, m, k)
  }

  ghost predicate FreshSlot(g: Geo, d: seq<Sector>, m: Meta, k: nat) {
    Fits(g, d) && k !in m.chains && k < |Dir(g, d, m)| && !IsDirectory(Dir(g, d, m)[k])
  }

  lemma FreshIs(g: Geo, d: seq<Sector>, m: Meta, n: seq<byte>, k: nat, e: Slot, b: Text)
    requires HealthyDisk(g, d, m) && k < |Dir(g, d, m)| && Dir(g, d, m)[k] == e && Live(e) && NameOf(e) == n
    requires k < |Listing(g, d, m)| && Listing(g, d, m)[k] == File(n, b) && !IsDirectory(e) && k !in m.chains
    ensures Fresh(g, d, m, n)
  {
    hide ChainsWf, DirWf, CopiesAgree, Dir, Listing, IsDirectory, Live, NameOf;
    assert EntryAt(g, d, m, n, k) && FreshSlot(g, d, m, k);
  }

  // ----- create ---------------------------------------------------------------------------

  lemma NewSlotIsLive(n: seq<byte>)
    requires |n| == 11 && n[0] != 0x00 && n[0] != 0xE5
    ensures Live(NewSlot(n)) && NewSlot(n)[0] != 0
  {
    assert NewSlot(n)[0] == NameOf(NewSlot(n))[0] == n[0];
  }

  lemma UnusedFacts(bpc: nat, dir: seq<Slot>, chains: map<int, seq<nat>>, k: nat)
    requires DirWf(bpc, dir, chains) && k < |dir| && Hits(Unused, dir[k]) && Passed(dir, k, Unused)
    ensures !Live(dir[k]) && k !in chains && forall j :: 0 <= j < k ==> dir[j][0] != 0
  {
    assert forall j :: 0 <= j < k ==> !Hits(Unused, dir[j]);
  }

  lemma NewSlotFits(g: Geo, d: seq<Sector>, m: Meta, k: nat, n: seq<byte>)
    requires HealthyDisk(g, d, m) && |n| == 11 && n[0] != 0x00 && n[0] != 0xE5 && n !in Files(g, d, m)
    requires k < |Dir(g, d, m)| && Hits(Unused, Dir(g, d, m)[k]) && Passed(Dir(g, d, m), k, Unused)
    ensures SlotFits(g, Dir(g, d, m), m, k, NewSlot(n)) && Listing(g, d, m)[k] == Absent && k !in m.chains && Live(NewSlot(n))
  {
    OthersNamed(g, d, m, k, n);
    NewSlotIsLive(n);
    UnusedFacts(g.BytesPerCluster(), Dir(g, d, m), m.chains, k);
    hide Dir, ChainsWf, DirWf, CopiesAgree, Rest, NewSlot, ChainBytes, FirstOf, SizeOf, NameOf, Live, Hits, Passed;
  }

  lemma Created(g: Geo, d: seq<Sector>, d': seq<Sector>, m: Meta, k: nat, n: seq<byte>, c: nat)
    requires HealthyDisk(g, d, m) && |n| == 11 && n[0] != 0x00 && n[0] != 0xE5 && n !in Files(g, d, m)
    requires k < |Dir(g, d, m)| && Hits(Unused, Dir(g, d, m)[k]) && Passed(Dir(g, d, m), k, Unused)
    requires SlotPut(g, m, d, d', k, Create(n), c)
    ensures HealthyDisk(g, d', m) && Files(g, d', m) == Files(g, d, m)[n := []]
    ensures Fresh(g, d', m, n) && Fat(g, d') == Fat(g, d)
  {
    var e := NewSlot(n);
    NewSlotFits(g, d, m, k, n);
    assert !IsDirectory(e) && NameOf(e) == n;
    assert Dir(g, d', m) == Dir(g, d, m)[k := e];
    assert Sound(g, d, m, {}) && CopiesAgree(g, d') && ChainsWf(Fat(g, d'), m, {}) && g.root == Head(RootChain(m));
    assert ItemAt(g, Rest(g, d'), m.chains, k, e) == File(n, []);
    assert Files(g, d, m) == FileMap(Listing(g, d, m)) && Files(g, d', m) == FileMap(Listing(g, d', m));
    hide *;
    Committed(g, d, d', m, m, {}, k, e, c);
    SetItem(Listing(g, d, m), k, n, []);
    FreshIs(g, d', m, n, k, e, []);
  }

  ghost predicate HasRoom(g: Geo, d: seq<Sector>, m: Meta)
    requires Fits(g, d)
  {
    exists k :: 0 <= k < |Dir(g, d, m)| && Hits(Unused, Dir(g, d, m)[k])
  }

  lemma RoomFound(g: Geo, d: seq<Sector>, m: Meta, r: Scan, lba: nat, k: nat, buffer: Sector)
    requires Fits(g, d)
    requires if r.Miss? then Passed(Dir(g, d, m), |Dir(g, d, m)|, Unused) else Stopped(g, d, m, Unused, r, lba, k, buffer)
    ensures r.Hit? <==> HasRoom(g, d, m)
    ensures r.Hit? ==> k < |Dir(g, d, m)| && Hits(Unused, Dir(g, d, m)[k]) && Passed(Dir(g, d, m), k, Unused)
                       && Located(g, d, m, lba, k) && r.index == k % SLOTS && buffer == d[lba]
  {
    hide Dir, Located, SlotIn;
  }

  /** Takes the first slot that was never used or was deleted. */
  method CreateSlot(v: Volume, n: seq<byte>) returns (ok: bool)
    requires HealthyDisk(v.g, v.disk, v.meta)
    requires |n| == 11 && n[0] != 0x00 && n[0] != 0xE5 && n !in Files(v.g, v.disk, v.meta)
    modifies v`disk, v`sector, v`log
    ensures HealthyDisk(v.g, v.disk, v.meta)
    ensures ok <==> HasRoom(v.g, old(v.disk), v.meta)
    ensures ok ==> Files(v.g, v.disk, v.meta) == Files(v.g, old(v.disk), v.meta)[n := []]
    ensures ok ==> Fresh(v.g, v.disk, v.meta, n) && Fat(v.g, v.disk) == Fat(v.g, old(v.disk))
    ensures !ok ==> v.disk == old(v.disk)
  {
    hide HasRoom, Dir, DirWf, ChainsWf, ForeignIs, Files, Located, Passed, Hits, Rest, Fat, CopiesAgree, SameOutside, SlotPut, Stopped, RootOk;
    hide Geo.BytesPerCluster, Geo.MaxCluster, Geo.DataStart;
    ghost var d := v.disk;
    assert Fits(v.g, d) && CopiesAgree(v.g, d);
    SoundRoot(v.g, d, v.meta, {});
    var r, lba;
    ghost var k, c;
    r, lba, k := WalkRoot(v, Unused);
    RoomFound(v.g, d, v.meta, r, lba, k, v.sector);
    if !r.Hit? {
      return false;
    }
    ok, c := PutSlot(v, lba, r.index, Create(n), k, v.meta, {});
    Created(v.g, d, v.disk, v.meta, k, n, c);
  }

  method FsCreate(v: Volume, name: seq<byte>) returns (ok: bool)
    requires HealthyDisk(v.g, v.disk, v.meta)
    modifies v`disk, v`sector, v`log
    ensures HealthyDisk(v.g, v.disk, v.meta)
    ensures ok <==> Accepted(name) && ShortName(name) !in Files(v.g, old(v.disk), v.meta)
                    && HasRoom(v.g, old(v.disk), v.meta)
    ensures ok ==> Files(v.g, v.disk, v.meta) == Files(v.g, old(v.disk), v.meta)[ShortName(name) := []]
    ensures ok ==> Fresh(v.g, v.disk, v.meta, ShortName(name)) && Fat(v.g, v.disk) == Fat(v.g, old(v.disk))
    ensures !ok ==> v.disk == old(v.disk)
  {
    hide *;
    var shortName := new byte[11];
    ok := MakeShortNameChecked(name, shortName);
    if !ok {
      return;
    }
    FirstByte(name);
    var n: seq<byte> := shortName[..];
    var present, e, lba, index;
    ghost var k;
    present, e, lba, index, k := FindRootEntryAt(v, name);
    if present {
      return false;
    }
    ok := CreateSlot(v, n);
  }

  // ----- rename ----------------------------------------------------------------------------

  lemma NameFits(g: Geo, d: seq<Sector>, m: Meta, k: nat, a: seq<byte>, n: seq<byte>)
    requires EntryAt(g, d, m, a, k) && |n| == 11 && n[0] != 0x00 && n[0] != 0xE5 && n !in Files(g, d, m)
    ensures SlotFits(g, Dir(g, d, m), m, k, WithName(Dir(g, d, m)[k], n))
    ensures Live(WithName(Dir(g, d, m)[k], n))
  {
    EntryFacts(g, d, m, a, k);
    var e := WithName(Dir(g, d, m)[k], n);
    assert e[0] == NameOf(e)[0] == n[0] && Live(e);
    OthersNamed(g, d, m, k, n);
    hide Dir, ChainsWf, CopiesAgree, Rest, WithName;
  }

  lemma NameItem(g: Geo, r: seq<Sector>, r': seq<Sector>, chains: map<int, seq<nat>>, k: int, e: Slot, n: seq<byte>)
    requires |n| == 11 && Live(e) && Live(WithName(e, n))
    requires k in chains ==> ChainBytes(g, r', chains[k]) == ChainBytes(g, r, chains[k])
    ensures ItemAt(g, r, chains, k, e).File? && ItemAt(g, r, chains, k, e).name == NameOf(e)
    ensures ItemAt(g, r', chains, k, WithName(e, n)) == File(n, ItemAt(g, r, chains, k, e).bytes)
  {
    hide ChainBytes, Live;
  }

  lemma Renamed(g: Geo, d: seq<Sector>, d': seq<Sector>, m: Meta, k: nat, a: seq<byte>, n: seq<byte>, c: nat)
    requires EntryAt(g, d, m, a, k) && |n| == 11 && n[0] != 0x00 && n[0] != 0xE5 && n !in Files(g, d, m)
    requires SlotPut(g, m, d, d', k, Name(n), c)
    ensures HealthyDisk(g, d', m) && a in Files(g, d, m)
    ensures Files(g, d', m) == (Files(g, d, m) - {a})[n := Files(g, d, m)[a]]
  {
    hide Dir, DirWf, ChainsWf, Fat, Rest, CopiesAgree, ForeignIs, WithName, SlotFits, Unique, FileMap, SameOutside;
    hide Geo.MaxCluster, Geo.DataStart, Geo.BytesPerCluster;
    EntryFacts(g, d, m, a, k);
    NameFits(g, d, m, k, a, n);
    var e0, items := Dir(g, d, m)[k], Listing(g, d, m);
    var e := WithName(e0, n);
    assert Live(e0) && NameOf(e0) == a;
    assert Dir(g, d', m) == Dir(g, d, m)[k := e];
    assert Sound(g, d, m, {}) && CopiesAgree(g, d') && ChainsWf(Fat(g, d'), m, {}) && g.root == Head(RootChain(m));
    assert Files(g, d, m) == FileMap(items) && Files(g, d', m) == FileMap(Listing(g, d', m));
    hide *;
    Committed(g, d, d', m, m, {}, k, e, c);
    NameItem(g, Rest(g, d), Rest(g, d'), m.chains, k, e0, n);
    RenameItem(items, k, n);
  }

  lemma HealthyRoot(g: Geo, d: seq<Sector>, m: Meta)
    requires HealthyDisk(g, d, m)
    ensures Fits(g, d) && RootOk(g, m)
  {
    SoundRoot(g, d, m, {});
  }

  method FsRenameFile(v: Volume, oldName: seq<byte>, newName: seq<byte>) returns (ok: bool)
    requires HealthyDisk(v.g, v.disk, v.meta)
    modifies v`disk, v`sector, v`log
    ensures HealthyDisk(v.g, v.disk, v.meta)
    ensures ok <==> Accepted(newName) && ShortName(oldName) in Files(v.g, old(v.disk), v.meta)
                    && !DirectoryNamed(v.g, old(v.disk), v.meta, ShortName(oldName))
                    && ShortName(newName) !in Files(v.g, old(v.disk), v.meta)
    ensures ok ==> Files(v.g, v.disk, v.meta) ==
                   (Files(v.g, old(v.disk), v.meta) - {ShortName(oldName)})
                   [ShortName(newName) := Files(v.g, old(v.disk), v.meta)[ShortName(oldName)]]
    ensures !ok ==> v.disk == old(v.disk)
  {
    hide HealthyDisk, Dir, Located, ShortName, Accepted, Hits, SlotPut, Fits, RootOk, DirectoryNamed, Files, IsDirectory, EntryAt;
    ghost var d := v.disk;
    var shortName := new byte[11];
    ok := MakeShortNameChecked(newName, shortName);
    if !ok {
      return;
    }
    FirstByte(newName);
    var n: seq<byte> := shortName[..];
    HealthyRoot(v.g, d, v.meta);
    var present, e, lba, index, taken, e2, lba2, index2;
    ghost var k, k2, c;
    present, e, lba, index, k := FindEntry(v, oldName);
    if !present {
      return false;
    }
    EntryFacts(v.g, d, v.meta, ShortName(oldName), k);
    if IsDirectory(e) {
      return false;
    }
    taken, e2, lba2, index2, k2 := FindEntry(v, newName);
    if taken {
      return false;
    }
    ok, c := StoreSlot(v, lba, index, Name(n), k, v.meta, {});
    Renamed(v.g, d, v.disk, v.meta, k, ShortName(oldName), n, c);
  }

  /** find_root_entry_at, with what it found as one fact. */
  method FindEntry(v: Volume, name: seq<byte>) returns (found: bool, e: Slot, lba: nat, index: nat, ghost k: nat)
    requires HealthyDisk(v.g, v.disk, v.meta)
    modifies v`sector
    ensures found <==> ShortName(name) in Files(v.g, v.disk, v.meta)
    ensures found ==> EntryAt(v.g, v.disk, v.meta, ShortName(name), k) && e == Dir(v.g, v.disk, v.meta)[k]
                      && Located(v.g, v.disk, v.meta, lba, k) && index == k % SLOTS
  {
    hide HealthyDisk, Dir, Located, ShortName, Hits, Files;
    found, e, lba, index, k := FindRootEntryAt(v, name);
  }

  // ----- truncate and delete ------------------------------------------------------------------

  ghost function Released(m: Meta, k: int): Meta {
    if k in m.chains then Dropped(m, k) else m
  }

  ghost function Chain(m: Meta, k: int): seq<nat> {
    if k in m.chains then m.chains[k] else []
  }

  /** Disk d1 is disk d with the clusters of slot k, if it has any, freed. */
  ghost predicate ChainFreed(g: Geo, d: seq<Sector>, d1: seq<Sector>, m: Meta, k: int) {
    && Fits(g, d) && Fits(g, d1) && Rest(g, d1) == Rest(g, d) && (CopiesAgree(g, d) ==> CopiesAgree(g, d1))
    && Fat(g, d1) == if k in m.chains then ZeroAll(Fat(g, d), m.chains[k]) else Fat(g, d)
  }

  lemma EmptySlotFits(g: Geo, d: seq<Sector>, m: Meta, n: seq<byte>, k: nat, t: Edit)
    requires EntryAt(g, d, m, n, k) && (t == Delete || t == Extent(0, 0))
    ensures SlotFits(g, Dir(g, d, m), Released(m, k), k, Apply(t, Dir(g, d, m)[k]))
    ensures ItemAt(g, Rest(g, d), Released(m, k).chains, k, Apply(t, Dir(g, d, m)[k])) == if t.Delete? then Absent else File(n, [])
    ensures Listing(g, d, m)[k].File? && Listing(g, d, m)[k].name == n
  {
    hide Dir, DirWf, ChainsWf, CopiesAgree, Rest, Fat, ForeignIs, ChainBytes, Unique, FileMap;
    hide Geo.MaxCluster, Geo.DataStart, Geo.BytesPerCluster;
    EntryFacts(g, d, m, n, k);
    var e := Apply(t, Dir(g, d, m)[k]);
    OthersNamed(g, d, m, k, n);
  }

  lemma FreedWf(g: Geo, d: seq<Sector>, d1: seq<Sector>, m: Meta, k: int)
    requires Sound(g, d, m, {}) && ChainFreed(g, d, d1, m, k) && k != ROOT
    ensures ChainsWf(Fat(g, d1), Released(m, k), {}) && SameButAt(m.chains, Released(m, k).chains, k)
    ensures ForeignIs(g, Released(m, k).own)
  {
    hide ChainsWf, Fat, Rest, CopiesAgree, Dir, DirWf;
    if k in m.chains {
      FreeChain(Fat(g, d), m, k);
    }
  }

  lemma SameRest(g: Geo, d: seq<Sector>, d1: seq<Sector>, m: Meta)
    requires Fits(g, d) && Fits(g, d1) && Rest(g, d1) == Rest(g, d)
    ensures Dir(g, d1, m) == Dir(g, d, m)
  {
  }

  /** Freeing the chain and then blanking the slot empties or removes that file alone. */
  lemma Emptied(g: Geo, d: seq<Sector>, d1: seq<Sector>, d2: seq<Sector>, m: Meta, n: seq<byte>, k: nat, t: Edit, c: nat)
    requires EntryAt(g, d, m, n, k) && (t == Delete || t == Extent(0, 0))
    requires ChainFreed(g, d, d1, m, k) && SlotPut(g, m, d1, d2, k, t, c)
    ensures HealthyDisk(g, d2, Released(m, k))
    ensures !t.Delete? && !IsDirectory(Dir(g, d, m)[k]) ==> Fresh(g, d2, Released(m, k), n)
    ensures Files(g, d2, Released(m, k)) == if t.Delete? then Files(g, d, m) - {n} else Files(g, d, m)[n := []]
  {
    hide Rest, Fat, CopiesAgree, ChainsWf, DirWf, Dir, ForeignIs, SlotFits, Apply, ItemAt, SameOutside, Attr, NameOf;
    hide Geo.MaxCluster, Geo.DataStart, Geo.BytesPerCluster;
    var m', e, items := Released(m, k), Apply(t, Dir(g, d, m)[k]), Listing(g, d, m);
    EmptySlotFits(g, d, m, n, k, t);
    FreedWf(g, d, d1, m, k);
    SameRest(g, d, d1, m);
    assert k < |Dir(g, d, m)| && SameButAt(m.chains, m'.chains, k);
    EmptyItem(g, Rest(g, d), Rest(g, d2), m'.chains, k, e);
    assert Files(g, d, m) == FileMap(items) && Files(g, d2, m') == FileMap(Listing(g, d2, m'));
    hide *;
    Committed(g, d, d2, m, m', {}, k, e, c);
    if t.Delete? {
      DropItem(items, k);
    } else {
      SetItem(items, k, n, []);
      if !IsDirectory(Dir(g, d, m)[k]) {
        ExtentKeeps(Dir(g, d, m)[k], 0, 0);
        FreshIs(g, d2, m', n, k, e, []);
      }
    }
  }

  lemma ExtentKeeps(e: Slot, first: u32, size: u32)
    requires Live(e)
    ensures var r := WithExtent(e, first, size); Live(r) && NameOf(r) == NameOf(e) && (IsDirectory(r) <==> IsDirectory(e))
    ensures Apply(Extent(first, size), e) == WithExtent(e, first, size)
  {
  }

  lemma EmptyItem(g: Geo, r: seq<Sector>, r': seq<Sector>, chains: map<int, seq<nat>>, k: int, e: Slot)
    requires k !in chains
    ensures ItemAt(g, r', chains, k, e) == ItemAt(g, r, chains, k, e)
  {
  }

  /** The name is accepted, in use, and not a directory's. */
  ghost predicate FileNamed(g: Geo, d: seq<Sector>, m: Meta, name: seq<byte>)
    requires Fits(g, d)
  {
    Accepted(name) && ShortName(name) in Files(g, d, m) && !DirectoryNamed(g, d, m, ShortName(name))
  }

  /** make_short_name_checked, find_root_entry_at and the directory test together. */
  method FindFile(v: Volume, name: seq<byte>) returns (found: bool, e: Slot, lba: nat, index: nat, ghost k: nat)
    requires HealthyDisk(v.g, v.disk, v.meta)
    modifies v`sector
    ensures Fits(v.g, v.disk) && (found <==> FileNamed(v.g, v.disk, v.meta, name))
    ensures found ==> EntryAt(v.g, v.disk, v.meta, ShortName(name), k) && e == Dir(v.g, v.disk, v.meta)[k]
                      && Located(v.g, v.disk, v.meta, lba, k) && index == k % SLOTS
  {
    assert Fits(v.g, v.disk);
    var shortName := new byte[11];
    found := MakeShortNameChecked(name, shortName);
    e, lba, index, k := ZERO_SLOT, 0, 0, 0;
    if !found {
      return;
    }
    hide HealthyDisk, Dir, Located, ShortName, Hits, Files, DirectoryNamed, IsDirectory, Accepted, Fits;
    found, e, lba, index, k := FindEntry(v, name);
    if found {
      EntryFacts(v.g, v.disk, v.meta, ShortName(name), k);
      if IsDirectory(e) {
        found := false;
      }
    }
  }

  /** Frees the chain of the entry just found, if it has one. */
  method ReleaseChain(v: Volume, e: Slot, ghost n: seq<byte>, ghost k: nat) returns (ok: bool)
    requires EntryAt(v.g, v.disk, v.meta, n, k) && e == Dir(v.g, v.disk, v.meta)[k]
    modifies v`disk, v`sector, v`log
    ensures ok && ChainFreed(v.g, old(v.disk), v.disk, v.meta, k)
  {
    EntryFacts(v.g, v.disk, v.meta, n, k);
    assert ChainsWf(Fat(v.g, v.disk), v.meta, {});
    hide ChainsWf, Fat, Rest, CopiesAgree, Dir, Files, EntryAt;
    var cluster := FirstOf(e);
    ok := true;
    if cluster >= 2 {
      ok := FreeClusterChain(v, cluster, k);
    }
  }

  /** The tail shared by truncate and delete: free the chain, then rewrite the slot. */
  method BlankFile(v: Volume, e: Slot, lba: nat, index: nat, t: Edit, ghost n: seq<byte>, ghost k: nat) returns (ok: bool)
    requires EntryAt(v.g, v.disk, v.meta, n, k) && e == Dir(v.g, v.disk, v.meta)[k]
    requires Located(v.g, v.disk, v.meta, lba, k) && index == k % SLOTS && (t == Delete || t == Extent(0, 0))
    modifies v
    ensures ok && HealthyDisk(v.g, v.disk, v.meta)
    ensures !t.Delete? && !IsDirectory(e) ==> Fresh(v.g, v.disk, v.meta, n)
    ensures Fits(v.g, v.disk) && Fits(v.g, old(v.disk))
    ensures HasFree(v.g, v.disk) <==> HasFree(v.g, old(v.disk)) || k in old(v.meta).chains
    ensures Fat(v.g, v.disk) == ZeroAll(Fat(v.g, old(v.disk)), Chain(old(v.meta), k))
    ensures Files(v.g, v.disk, v.meta) ==
              if t.Delete? then Files(v.g, old(v.disk), old(v.meta)) - {n} else Files(v.g, old(v.disk), old(v.meta))[n := []]
  {
    hide Dir, DirWf, ChainsWf, ForeignIs, Hits, Files, RootOk, SlotPut, Rest, Fat, CopiesAgree, Listing;
    hide Geo.MaxCluster, Geo.DataStart, Geo.BytesPerCluster;
    ghost var d, m := v.disk, v.meta;
    SoundRoot(v.g, d, m, {});
    assert Fits(v.g, d);
    ok := ReleaseChain(v, e, n, k);
    if !ok {
      return;
    }
    ghost var d1 := v.disk;
    ghost var c;
    assert Located(v.g, d1, m, lba, k);
    hide Located, ChainFreed, Fits;
    ok, c := StoreSlot(v, lba, index, t, k, Released(m, k), {});
    v.meta := Released(m, k);
    Emptied(v.g, d, d1, v.disk, m, n, k, t, c);
    FreedSpace(v.g, d, d1, v.disk, m, n, k, t, c);
  }

  /** Freeing a chain leaves a free cluster; freeing nothing changes nothing. */
  lemma FreedSpace(g: Geo, d: seq<Sector>, d1: seq<Sector>, d2: seq<Sector>, m: Meta, n: seq<byte>, k: nat, t: Edit, c: nat)
    requires EntryAt(g, d, m, n, k) && ChainFreed(g, d, d1, m, k) && SlotPut(g, m, d1, d2, k, t, c)
    ensures Fits(g, d) && Fits(g, d2) && (HasFree(g, d2) <==> HasFree(g, d) || k in m.chains)
    ensures Fat(g, d2) == ZeroAll(Fat(g, d), Chain(m, k))
  {
    hide Dir, DirWf, Rest, CopiesAgree, ForeignIs, ChainsWf, Fat, Listing, Geo.MaxCluster, Geo.DataStart;
    assert Fat(g, d2) == Fat(g, d1) && ChainsWf(Fat(g, d), m, {});
    if k in m.chains {
      ChainFacts(Fat(g, d), m, {}, k);
      var ch := m.chains[k];
      assert ch[0] in ch && Fat(g, d2)[ch[0]] == 0;
    }
  }

  lemma NotDirectory(g: Geo, d: seq<Sector>, m: Meta, name: seq<byte>, k: nat)
    requires EntryAt(g, d, m, ShortName(name), k) && Fits(g, d) && FileNamed(g, d, m, name)
    ensures k < |Dir(g, d, m)| && !IsDirectory(Dir(g, d, m)[k]) && (HasChain(g, d, m, ShortName(name)) <==> k in m.chains)
  {
    EntryFacts(g, d, m, ShortName(name), k);
    OneEntry(g, d, m, ShortName(name), k);
    hide EntryAt, Dir, IsDirectory, DirectoryNamed, Files;
  }

  method FsTruncateFile(v: Volume, name: seq<byte>) returns (ok: bool)
    requires HealthyDisk(v.g, v.disk, v.meta)
    modifies v
    ensures HealthyDisk(v.g, v.disk, v.meta) && Fits(v.g, old(v.disk))
    ensures ok <==> FileNamed(v.g, old(v.disk), old(v.meta), name)
    ensures ok ==> Files(v.g, v.disk, v.meta) == Files(v.g, old(v.disk), old(v.meta))[ShortName(name) := []]
    ensures ok ==> Fits(v.g, v.disk) && Fresh(v.g, v.disk, v.meta, ShortName(name))
    ensures ok ==> Fat(v.g, v.disk) == ZeroAll(Fat(v.g, old(v.disk)), ChainOf(v.g, old(v.disk), old(v.meta), ShortName(name)))
    ensures ok ==> (HasFree(v.g, v.disk) <==>
                    HasFree(v.g, old(v.disk)) || HasChain(v.g, old(v.disk), old(v.meta), ShortName(name)))
    ensures !ok ==> v.disk == old(v.disk) && v.meta == old(v.meta)
  {
    hide *;
    var e, lba, index;
    ghost var k;
    ok, e, lba, index, k := FindFile(v, name);
    if ok {
      NotDirectory(v.g, v.disk, v.meta, name, k);
      ChainOfIs(v.g, v.disk, v.meta, ShortName(name), k);
      ok := BlankFile(v, e, lba, index, Extent(0, 0), ShortName(name), k);
    }
  }

  method FsDeleteFile(v: Volume, name: seq<byte>) returns (ok: bool)
    requires HealthyDisk(v.g, v.disk, v.meta)
    modifies v
    ensures HealthyDisk(v.g, v.disk, v.meta) && Fits(v.g, old(v.disk))
    ensures ok <==> FileNamed(v.g, old(v.disk), old(v.meta), name)
    ensures ok ==> Files(v.g, v.disk, v.meta) == Files(v.g, old(v.disk), old(v.meta)) - {ShortName(name)}
    ensures ok ==> Fits(v.g, v.disk)
                   && Fat(v.g, v.disk) == ZeroAll(Fat(v.g, old(v.disk)), ChainOf(v.g, old(v.disk), old(v.meta), ShortName(name)))
    ensures !ok ==> v.disk == old(v.disk) && v.meta == old(v.meta)
  {
    hide *;
    var e, lba, index;
    ghost var k;
    ok, e, lba, index, k := FindFile(v, name);
    if ok {
      ChainOfIs(v.g, v.disk, v.meta, ShortName(name), k);
      ok := BlankFile(v, e, lba, index, Delete, ShortName(name), k);
    }
  }
}
