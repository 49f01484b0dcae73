/** The public file operations of fs/fat32.c on a mounted volume. */
module FatFs {
  import opened Products
  import opened FatBytes
  import opened FatTheory
  import opened FatDisk
  import opened FileMaps
  import opened FatView
  import opened ShortNames
  import opened FatSearch

  // ----- lookup --------------------------------------------------------------------

  lemma NameAbsent(g: Geo, d: seq<Sector>, m: Meta, target: seq<byte>)
    requires HealthyDisk(g, d, m)
    requires forall k :: 0 <= k < |Dir(g, d, m)| ==> !Hits(ByName(target), Dir(g, d, m)[k])
    ensures target !in Files(g, d, m)
  {
    var items := Listing(g, d, m);
    InMap(items, target);
    forall k
      ensures !At(items, target, k)
    {
      if 0 <= k < |items| {
        assert !Hits(ByName(target), Dir(g, d, m)[k]);
      }
    }
  }

  lemma NamePresent(g: Geo, d: seq<Sector>, m: Meta, target: seq<byte>, k: nat)
    requires HealthyDisk(g, d, m)
    requires k < |Dir(g, d, m)| && Hits(ByName(target), Dir(g, d, m)[k])
    ensures At(Listing(g, d, m), target, k)
    ensures target in Files(g, d, m) && Files(g, d, m)[target] == Listing(g, d, m)[k].bytes
  {
    var items := Listing(g, d, m);
    ListingUnique(g, Rest(g, d), m.chains, Dir(g, d, m));
    assert At(items, target, k);
    MapAt(items, target, k);
  }

  /** After the end of the used slots there is nothing to find. */
  lemma NothingAfterEnd(g: Geo, d: seq<Sector>, m: Meta, target: seq<byte>, k: nat)
    requires HealthyDisk(g, d, m) && k < |Dir(g, d, m)|
    requires Ends(ByName(target), Dir(g, d, m)[k]) && Passed(Dir(g, d, m), k, ByName(target))
    ensures forall i :: 0 <= i < |Dir(g, d, m)| ==> !Hits(ByName(target), Dir(g, d, m)[i])
  {
  }

  /** find_root_entry_at: the directory slot of a file, or proof there is none. */
  method FindRootEntryAt(v: Volume, name: seq<byte>)
    returns (found: bool, e: Slot, lba: nat, index: nat, ghost k: nat)
    requires HealthyDisk(v.g, v.disk, v.meta)
    modifies v`sector
    ensures found <==> ShortName(name) in Files(v.g, v.disk, v.meta)
    ensures found ==> k < |Dir(v.g, v.disk, v.meta)| && e == Dir(v.g, v.disk, v.meta)[k]
                      && Hits(ByName(ShortName(name)), e) && At(Listing(v.g, v.disk, v.meta), ShortName(name), k)
    ensures found ==> Located(v.g, v.disk, v.meta, lba, k) && index == k % SLOTS
  {
    var target := new byte[11];
    MakeShortName(name, target);
    var q := ByName(target[..]);
    var r;
    r, lba, k := WalkRoot(v, q);
    if r.Hit? {
      NamePresent(v.g, v.disk, v.meta, target[..], k);
      return true, SlotIn(v.sector, r.index), lba, r.index, k;
    }
    if r.End? {
      NothingAfterEnd(v.g, v.disk, v.meta, target[..], k);
    }
    NameAbsent(v.g, v.disk, v.meta, target[..]);
    found, e, lba, index, k := false, ZERO_SLOT, 0, 0, 0;
  }

  // ----- clusters --------------------------------------------------------------------

  /** find_free_cluster: the lowest free cluster, or proof there is none. */
  method FindFreeCluster(v: Volume) returns (ok: bool, c: nat)
    requires Fits(v.g, v.disk)
    modifies v`sector
    ensures ok ==> 2 <= c < v.g.MaxCluster() && Fat(v.g, v.disk)[c] == 0
                   && forall b :: 2 <= b < c ==> Fat(v.g, v.disk)[b] != 0
    ensures !ok ==> forall b :: 2 <= b < v.g.MaxCluster() ==> Fat(v.g, v.disk)[b] != 0
  {
    c := 2;
    while c < v.g.MaxCluster()
      invariant 2 <= c && (c <= v.g.MaxCluster() || c == 2)
      invariant forall b :: 2 <= b < c && b < v.g.MaxCluster() ==> Fat(v.g, v.disk)[b] != 0
    {
      var okRead, value := v.ReadFatEntry(c);
      if !okRead {
        ok := false;
        return;
      }
      if value == 0 {
        return true, c;
      }
      c := c + 1;
    }
    ok, c := false, 0;
  }

  ghost function Elems(ch: seq<nat>): (s: set<nat>)
    ensures forall x :: x in s <==> x in ch
  {
    if ch == [] then {}
    else
      assert ch == ch[..|ch| - 1] + [ch[|ch| - 1]];
      Elems(ch[..|ch| - 1]) + {ch[|ch| - 1]}
  }

  lemma {:induction false} ElemsSize(ch: seq<nat>)
    requires forall a, b :: 0 <= a < b < |ch| ==> ch[a] != ch[b]
    ensures |Elems(ch)| == |ch|
  {
    if ch != [] {
      ElemsSize(ch[..|ch| - 1]);
      assert ch[|ch| - 1] !in ch[..|ch| - 1];
    }
  }

  lemma DistinctBound(ch: seq<nat>, n: nat)
    requires forall i :: 0 <= i < |ch| ==> ch[i] < n
    requires forall a, b :: 0 <= a < b < |ch| ==> ch[a] != ch[b]
    ensures |ch| <= n
  {
    ElemsSize(ch);
    SetBound(Elems(ch), n);
  }

  lemma {:induction false} SetBound(s: set<nat>, n: nat)
    requires forall x :: x in s ==> x < n
    ensures |s| <= n
  {
    if n > 0 {
      SetBound(s - {n - 1}, n - 1);
    } else {
      assert s == {};
    }
  }

  /** What a chain with an owner map looks like to a loop that follows it. */
  lemma ChainFacts(fat: seq<nat>, m: Meta, leak: set<nat>, k: int)
    requires ChainsWf(fat, m, leak) && k in m.chains
    ensures var ch := m.chains[k];
            && 0 < |ch| <= |fat|
            && (forall i :: 0 <= i < |ch| ==> 2 <= ch[i] < |fat|)
            && (forall a, b :: 0 <= a < b < |ch| ==> ch[a] != ch[b])
            && (forall i {:trigger fat[ch[i]]} :: 0 <= i < |ch| ==>
                  if i + 1 < |ch| then fat[ch[i]] == ch[i + 1] else fat[ch[i]] >= EOC)
  {
    var ch := m.chains[k];
    assert ChainOk(fat, m.own, k, ch);
    forall a, b | 0 <= a < b < |ch|
      ensures ch[a] != ch[b]
    {
      assert m.own[ch[a]] == Link(k, a) && m.own[ch[b]] == Link(k, b);
    }
    forall i {:trigger fat[ch[i]]} | 0 <= i < |ch|
      ensures if i + 1 < |ch| then fat[ch[i]] == ch[i + 1] else fat[ch[i]] >= EOC
    {
      assert m.own[ch[i]] == Link(k, i);
    }
    DistinctBound(ch, |fat|);
  }

  /** free_cluster_chain: clears the entries of a whole chain. */
  method FreeClusterChain(v: Volume, first: nat, ghost k: int) returns (ok: bool)
    requires Fits(v.g, v.disk) && ChainsWf(Fat(v.g, v.disk), v.meta, {})
    requires k in v.meta.chains && first == Head(v.meta.chains[k])
    modifies v`disk, v`sector, v`log
    ensures ok && Fits(v.g, v.disk)
    ensures Fat(v.g, v.disk) == ZeroAll(Fat(v.g, old(v.disk)), v.meta.chains[k])
    ensures Rest(v.g, v.disk) == Rest(v.g, old(v.disk))
    ensures CopiesAgree(v.g, old(v.disk)) ==> CopiesAgree(v.g, v.disk)
  {
    hide ChainsWf, CopiesAgree, Fat, Rest;
    ghost var fat0, ch, d0 := Fat(v.g, v.disk), v.meta.chains[k], v.disk;
    ChainFacts(fat0, v.meta, {}, k);
    ClusterLimit(v.g);
    var visited, cluster := 0, first;
    assert ch[..0] == [];
    while cluster >= 2 && cluster < EOC
      invariant visited <= |ch|
      invariant if visited < |ch| then cluster == ch[visited] else cluster >= EOC
      invariant Fits(v.g, v.disk) && Rest(v.g, v.disk) == Rest(v.g, d0)
      invariant CopiesAgree(v.g, d0) ==> CopiesAgree(v.g, v.disk)
      invariant Fat(v.g, v.disk) == ZeroAll(fat0, ch[..visited])
      decreases |ch| - visited
    {
      if cluster >= v.g.MaxCluster() || visited >= v.g.MaxCluster() {
        return false;
      }
      var okRead, next := v.ReadFatEntry(cluster);
      if !okRead {
        return false;
      }
      ok := v.WriteFatEntry(cluster, 0, v.meta, {});
      if !ok {
        return false;
      }
      ZeroStep(fat0, ch, visited);
      visited, cluster := visited + 1, next;
    }
    assert ch[..visited] == ch;
    ok := true;
  }

  lemma ZeroStep(fat: seq<nat>, ch: seq<nat>, i: nat)
    requires i < |ch| && (forall j :: 0 <= j < |ch| ==> ch[j] < |fat|)
    requires forall a, b :: 0 <= a < b < |ch| ==> ch[a] != ch[b]
    ensures ZeroAll(fat, ch[..i + 1]) == ZeroAll(fat, ch[..i])[ch[i] := 0]
    ensures ZeroAll(fat, ch[..i])[ch[i]] == fat[ch[i]]
  {
    assert ch[..i + 1][..i] == ch[..i];
  }

  // ----- slot updates ------------------------------------------------------------------

  /** The ways the operations rewrite a directory slot. */
  datatype Edit = Extent(first: u32, size: u32) | Size(size: u32) | Name(name: seq<byte>) | Delete | Create(name: seq<byte>)

  predicate EditOk(t: Edit) {
    match t
    case Name(n) => |n| == 11
    case Create(n) => |n| == 11
    case _ => true
  }

  function Apply(t: Edit, e: Slot): Slot
    requires EditOk(t)
  {
    match t
    case Extent(first, size) => WithExtent(e, first, size)
    case Size(size) => WithSize(e, size)
    case Name(n) => WithName(e, n)
    case Delete => DeletedSlot()
    case Create(n) => NewSlot(n)
  }

  lemma SlotReplace(sec: Sector, i: nat, e: Slot)
    requires i < SLOTS
    ensures var sec' := Splice(sec, SLOT_SIZE * i, e);
            SlotIn(sec', i) == e && forall t :: 0 <= t < SLOTS && t != i ==> SlotIn(sec', t) == SlotIn(sec, t)
  {
    SlotUpdate(sec, i, 0, e);
  }

  lemma RestWrite(g: Geo, d: seq<Sector>, lba: nat, sec: Sector)
    requires Fits(g, d) && g.DataStart() <= lba < g.total
    ensures var d' := d[lba := sec];
            && Fits(g, d') && Fat(g, d') == Fat(g, d) && Rest(g, d') == Rest(g, d)[lba - g.DataStart() := sec]
            && (CopiesAgree(g, d) ==> CopiesAgree(g, d'))
  {
    var d' := d[lba := sec];
    forall b, e | 0 <= b < g.fatCount && 0 <= e < g.MaxCluster()
      ensures Entry(g, d', b, e) == Entry(g, d, b, e)
    {
      FatSectorInRange(g, b, e);
    }
    hide Entry;
    StepFits(0, g.fatCount, g.fatSize);
    assert Fat(g, d') == Fat(g, d);
  }

  ghost predicate RootOk(g: Geo, m: Meta) {
    g.Valid() && Distinct(RootChain(m)) && forall j :: 0 <= j < |RootChain(m)| ==> RootChain(m)[j] < g.MaxCluster()
  }

  lemma SoundRoot(g: Geo, d: seq<Sector>, m: Meta, leak: set<nat>)
    requires Sound(g, d, m, leak)
    ensures RootOk(g, m)
  {
    RootFacts(g, d, m, leak);
  }

  /** The slot at (lba, k) is rewritten: one directory slot changes, nothing else. */
  lemma SlotWritten(g: Geo, d: seq<Sector>, m: Meta, lba: nat, k: nat, e: Slot) returns (c: nat)
    requires Fits(g, d) && RootOk(g, m) && Located(g, d, m, lba, k)
    ensures lba < |d| && k < |Dir(g, d, m)| && Dir(g, d, m)[k] == SlotIn(d[lba], k % SLOTS)
    ensures var d' := d[lba := Splice(d[lba], SLOT_SIZE * (k % SLOTS), e)];
            && Fits(g, d') && Fat(g, d') == Fat(g, d) && (CopiesAgree(g, d) ==> CopiesAgree(g, d'))
            && Dir(g, d', m) == Dir(g, d, m)[k := e]
            && c in RootChain(m) && SameOutside(g, Rest(g, d), Rest(g, d'), c)
  {
    var root, rest := RootChain(m), Rest(g, d);
    var idx, n, i := DirIndex(g, root), k / SLOTS, k % SLOTS;
    var sec := Splice(d[lba], SLOT_SIZE * i, e);
    assert k == SLOTS * n + i && idx[n] < |rest| && d[lba] == rest[idx[n]];
    hide DirIndex, DirSlots, CopiesAgree, Fat;
    SlotOfSector(rest, idx, n, i);
    SlotReplace(d[lba], i, e);
    RestWrite(g, d, lba, sec);
    DirWrite(g, rest, root, n, i, sec);
    var j, s := DirIndexOf(g, root, n);
    c := root[j];
  }

  /** Disk d' is disk d with slot k edited; the sector written is in root cluster c. */
  ghost predicate SlotPut(g: Geo, m: Meta, d: seq<Sector>, d': seq<Sector>, k: nat, t: Edit, c: nat) {
    && EditOk(t) && Fits(g, d) && Fits(g, d') && k < |Dir(g, d, m)|
    && Dir(g, d', m) == Dir(g, d, m)[k := Apply(t, Dir(g, d, m)[k])]
    && Fat(g, d') == Fat(g, d) && (CopiesAgree(g, d) ==> CopiesAgree(g, d'))
    && c in RootChain(m) && SameOutside(g, Rest(g, d), Rest(g, d'), c)
  }

  /** Rewrites one slot of the directory sector in the buffer and writes it back. */
  method PutSlot(v: Volume, lba: nat, index: nat, t: Edit, ghost k: nat, ghost m: Meta, ghost leak: set<nat>)
    returns (ok: bool, ghost c: nat)
    requires Fits(v.g, v.disk) && RootOk(v.g, v.meta) && Located(v.g, v.disk, v.meta, lba, k) && index == k % SLOTS
    requires v.sector == v.disk[lba] && EditOk(t)
    modifies v`disk, v`sector, v`log
    ensures ok && SlotPut(v.g, v.meta, old(v.disk), v.disk, k, t, c)
    ensures v.log == old(v.log) + [Snap(v.disk, m, leak)]
  {
    hide Dir, CopiesAgree, Fat, SlotIn, Splice, Apply, SameOutside, Rest, RootOk;
    ghost var e := Apply(t, SlotIn(v.sector, index));
    c := SlotWritten(v.g, v.disk, v.meta, lba, k, e);
    v.sector := Splice(v.sector, SLOT_SIZE * index, Apply(t, SlotIn(v.sector, index)));
    ok := v.AtaWrite(lba, m, leak);
  }

  /** Reads the directory sector again before rewriting the slot. */
  method StoreSlot(v: Volume, lba: nat, index: nat, t: Edit, ghost k: nat, ghost m: Meta, ghost leak: set<nat>)
    returns (ok: bool, ghost c: nat)
    requires Fits(v.g, v.disk) && RootOk(v.g, v.meta) && Located(v.g, v.disk, v.meta, lba, k) && index == k % SLOTS
    requires EditOk(t)
    modifies v`disk, v`sector, v`log
    ensures ok && SlotPut(v.g, v.meta, old(v.disk), v.disk, k, t, c)
    ensures v.log == old(v.log) + [Snap(v.disk, m, leak)]
  {
    assert lba < |v.disk| && lba < 0x1000_0000;
    hide Dir, CopiesAgree, Fat, Apply, SameOutside, Rest, RootOk, SlotPut;
    ok := v.AtaRead(lba);
    if !ok {
      return;
    }
    ok, c := PutSlot(v, lba, index, t, k, m, leak);
  }

  // ----- what a slot rewrite does to the listing -------------------------------------------

  lemma OffChain(fat: seq<nat>, m: Meta, leak: set<nat>, j: int, k: int, c: nat)
    requires ChainsWf(fat, m, leak) && j in m.chains && k in m.chains && j != k && c in m.chains[k]
    ensures c >= 2 && c !in m.chains[j]
  {
    ChainFacts(fat, m, leak, k);
    OwnedIsMember(fat, m, leak, k, c);
    OwnedIsMember(fat, m, leak, j, c);
  }

  lemma ChainAtLeast2(fat: seq<nat>, m: Meta, leak: set<nat>, j: int)
    requires ChainsWf(fat, m, leak) && j in m.chains
    ensures forall i :: 0 <= i < |m.chains[j]| ==> m.chains[j][i] >= 2
  {
    ChainFacts(fat, m, leak, j);
  }

  ghost predicate SameButAt(a: map<int, seq<nat>>, b: map<int, seq<nat>>, k: int) {
    forall j :: j != k ==> (j in b <==> j in a) && (j in a ==> b[j] == a[j])
  }

  /** Rewriting a cluster of the directory leaves every file's chain alone. */
  lemma ChainsOffRoot(g: Geo, d: seq<Sector>, d': seq<Sector>, m: Meta, leak: set<nat>, c: nat)
    requires Sound(g, d, m, leak) && Fits(g, d')
    requires c in RootChain(m) && SameOutside(g, Rest(g, d), Rest(g, d'), c)
    ensures ROOT in m.chains
    ensures forall j :: j in m.chains && j >= 0 ==>
              ChainBytes(g, Rest(g, d'), m.chains[j]) == ChainBytes(g, Rest(g, d), m.chains[j])
  {
    hide ChainBytes, Dir, DirWf, Rest, SameOutside, Fat, Geo.MaxCluster, Geo.DataStart, Geo.BytesPerCluster;
    forall j | j in m.chains && j >= 0
      ensures ChainBytes(g, Rest(g, d'), m.chains[j]) == ChainBytes(g, Rest(g, d), m.chains[j])
    {
      OffChain(Fat(g, d), m, leak, j, ROOT, c);
      ChainAtLeast2(Fat(g, d), m, leak, j);
      ChainUntouched(g, Rest(g, d), Rest(g, d'), c, m.chains[j]);
    }
  }

  /** Rewriting slot k, and at most chain k, changes at most item k of the listing. */
  lemma EditListing(g: Geo, d: seq<Sector>, d': seq<Sector>, m: Meta, m': Meta, leak: set<nat>, k: nat, e: Slot, c: nat)
    requires Sound(g, d, m, leak) && Fits(g, d') && k < |Dir(g, d, m)| && Dir(g, d', m) == Dir(g, d, m)[k := e]
    requires c in RootChain(m) && SameOutside(g, Rest(g, d), Rest(g, d'), c)
    requires SameButAt(m.chains, m'.chains, k)
    ensures Dir(g, d', m') == Dir(g, d', m)
    ensures Listing(g, d', m') == Listing(g, d, m)[k := ItemAt(g, Rest(g, d'), m'.chains, k, e)]
    ensures k in m.chains ==> ChainBytes(g, Rest(g, d'), m.chains[k]) == ChainBytes(g, Rest(g, d), m.chains[k])
  {
    hide ChainBytes, Rest, ChainsWf, DirWf, ForeignIs, SameOutside, DirSlots, DirIndex, Fat, Geo.MaxCluster, Geo.DataStart, Geo.BytesPerCluster;
    var a, b := Listing(g, d, m), Listing(g, d', m');
    assert RootChain(m') == RootChain(m);
    ChainsOffRoot(g, d, d', m, leak, c);
    forall j | 0 <= j < |a|
      ensures b[j] == a[k := ItemAt(g, Rest(g, d'), m'.chains, k, e)][j]
    {
    }
  }
}
