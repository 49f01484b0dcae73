/** The two-level page tables of memory/paging.c. */
module Paging {
  import opened Pmm
  import opened Products

  const ENTRIES: nat := 1024
  const IDENTITY: nat := 1024
  const DIRECTORY_SPAN: nat := 0x40_0000
  const ADDRESSES: int := 0x1_0000_0000

  // ----- entries and the walk ------------------------------------------------------------

  predicate Present(e: u32) {
    e % 2 == 1
  }

  function Frame(e: u32): nat {
    e / PAGE_SIZE
  }

  predicate User(e: u32) {
    e / 4 % 2 == 1
  }

  function DirIndex(virt: u32): nat {
    virt / DIRECTORY_SPAN
  }

  function TableIndex(virt: u32): nat {
    virt / PAGE_SIZE % ENTRIES
  }

  function PageOf(virt: u32): nat {
    virt / PAGE_SIZE
  }

  /** A page is its directory index and its table index. */
  lemma SamePage(v: u32, w: u32)
    ensures PageOf(v) == PageOf(w) <==> DirIndex(v) == DirIndex(w) && TableIndex(v) == TableIndex(w)
    ensures DirIndex(v) < ENTRIES && TableIndex(v) < ENTRIES
  {
    var p, q := PageOf(v), PageOf(w);
    assert DirIndex(v) == p / ENTRIES && DirIndex(w) == q / ENTRIES;
    assert p == ENTRIES * (p / ENTRIES) + p % ENTRIES && q == ENTRIES * (q / ENTRIES) + q % ENTRIES;
  }

  type Table = seq<u32>

  function Put(t: Table, i: nat, e: u32): (r: Table)
    requires i < |t|
    ensures |r| == |t| && forall k :: 0 <= k < |t| ==> r[k] == if k == i then e else t[k]
  {
    t[i := e]
  }

  /** The page table entry the walk ends at; 0 when the directory entry is absent. */
  function Walk(dir: Table, tables: map<nat, Table>, virt: u32): u32 {
    if DirIndex(virt) < |dir| && Present(dir[DirIndex(virt)]) && Frame(dir[DirIndex(virt)]) in tables
       && TableIndex(virt) < |tables[Frame(dir[DirIndex(virt)])]|
    then tables[Frame(dir[DirIndex(virt)])][TableIndex(virt)]
    else 0
  }

  /** The entry for a frame with the given flags, present. */
  function EntryFor(phys: u32, flags: u32): (e: u32)
    ensures Present(e) && Frame(e) == phys / PAGE_SIZE && e % PAGE_SIZE / 2 == flags % PAGE_SIZE / 2
  {
    phys / PAGE_SIZE * PAGE_SIZE + flags % PAGE_SIZE / 2 * 2 + 1
  }

  /** The entry with its user bit set. */
  function WithUser(e: u32): (r: u32)
    ensures User(r) && Frame(r) == Frame(e) && (Present(r) <==> Present(e))
  {
    if User(e) then e
    else
      UserBit(e);
      e + 4
  }

  lemma UserBit(e: u32)
    requires !User(e)
    ensures e + 4 < 0x1_0000_0000 && (e + 4) / 4 % 2 == 1 && (e + 4) / PAGE_SIZE == e / PAGE_SIZE && (e + 4) % 2 == e % 2
  {
    var q, r := e / 8, e % 8;
    LowBits(q, r);
    DivTwice(e);
    DivTwice(e + 4);
  }

  lemma LowBits(q: nat, r: nat)
    requires r < 8 && (8 * q + r) / 4 % 2 == 0 && 8 * q + r < 0x1_0000_0000
    ensures r < 4 && (8 * q + r + 4) / 8 == q && (8 * q + r + 4) / 4 % 2 == 1 && (8 * q + r + 4) % 2 == (8 * q + r) % 2
    ensures 8 * q + r + 4 < 0x1_0000_0000
  {
    assert (8 * q + r + 4) / 4 == 2 * q + 1;
  }

  lemma DivTwice(x: nat)
    ensures x / PAGE_SIZE == x / 8 / 512
  {
  }

  function TableEntry(frame: nat): (e: u32)
    requires frame < TOTAL_PAGES
    ensures Present(e) && Frame(e) == frame && !User(e)
  {
    EntryParts(frame);
    frame * PAGE_SIZE + 3
  }

  lemma EntryParts(frame: nat)
    ensures var e := frame * PAGE_SIZE + 3; e / PAGE_SIZE == frame && e % 2 == 1 && e / 4 % 2 == 0
  {
    hide PAGE_SIZE;
    assert PAGE_SIZE == 4096 by { PageSize(); }
    QuotientIs(frame * 4096 + 3, 4096, frame, 3);
    QuotientIs(frame * 4096 + 3, 2, frame * 2048 + 1, 1);
    QuotientIs(frame * 4096 + 3, 4, frame * 1024, 3);
    QuotientIs(frame * 1024, 2, frame * 512, 0);
  }

  lemma PageSize()
    ensures PAGE_SIZE == 4096
  {
  }

  // ----- what every call keeps ----------------------------------------------------------------

  /** Present directory entries name distinct tables, all in use and reachable where they
      lie; the first table maps the first 4 MB to itself. */
  ghost predicate Good(dir: Table, tables: map<nat, Table>, used: set<nat>) {
    && |dir| == ENTRIES && 0 in used
    && (forall i :: 0 <= i < ENTRIES ==> TableAt(dir, tables, used, i))
    && (forall i, j :: 0 <= i < j < ENTRIES ==> DistinctAt(dir, i, j))
    && Present(dir[0]) && forall f: nat :: f < IDENTITY ==> IdentityAt(dir, tables, f)
  }

  ghost predicate TableAt(dir: Table, tables: map<nat, Table>, used: set<nat>, i: int) {
    0 <= i < |dir| && (Present(dir[i]) ==>
      Frame(dir[i]) in tables && |tables[Frame(dir[i])]| == ENTRIES && Frame(dir[i]) < IDENTITY && Frame(dir[i]) in used)
  }

  ghost predicate DistinctAt(dir: Table, i: int, j: int) {
    0 <= i < |dir| && 0 <= j < |dir| && (Present(dir[i]) && Present(dir[j]) ==> Frame(dir[i]) != Frame(dir[j]))
  }

  ghost predicate IdentityAt(dir: Table, tables: map<nat, Table>, f: nat)
  {
    f * PAGE_SIZE < ADDRESSES && Present(Walk(dir, tables, f * PAGE_SIZE)) && Frame(Walk(dir, tables, f * PAGE_SIZE)) == f
  }

  /** A fresh table under an absent entry changes no walk. */
  lemma TableAdded(dir: Table, tables: map<nat, Table>, used: set<nat>, i: nat, p: nat, zero: Table)
    requires Good(dir, tables, used) && i < ENTRIES && !Present(dir[i]) && p !in used && p < IDENTITY
    requires |zero| == ENTRIES && forall k :: 0 <= k < ENTRIES ==> zero[k] == 0
    ensures var dir', tables' := Put(dir, i, TableEntry(p)), tables[p := zero];
            && Good(dir', tables', used + {p})
            && forall v: u32 :: Walk(dir', tables', v) == Walk(dir, tables, v)
  {
    var dir', tables', used' := Put(dir, i, TableEntry(p)), tables[p := zero], used + {p};
    forall v: u32
      ensures Walk(dir', tables', v) == Walk(dir, tables, v)
    {
      SamePage(v, v);
      assert TableAt(dir, tables, used, DirIndex(v));
    }
    forall k | 0 <= k < ENTRIES
      ensures TableAt(dir', tables', used', k)
    {
      assert TableAt(dir, tables, used, k);
    }
    forall j, k | 0 <= j < k < ENTRIES
      ensures DistinctAt(dir', j, k)
    {
      assert DistinctAt(dir, j, k) && TableAt(dir, tables, used, j) && TableAt(dir, tables, used, k);
    }
    forall f: nat | f < IDENTITY
      ensures IdentityAt(dir', tables', f)
    {
      assert IdentityAt(dir, tables, f);
    }
  }

  lemma UserAdded(dir: Table, tables: map<nat, Table>, used: set<nat>, i: nat)
    requires Good(dir, tables, used) && i < ENTRIES
    ensures var dir' := Put(dir, i, WithUser(dir[i]));
            Good(dir', tables, used) && forall v: u32 :: Walk(dir', tables, v) == Walk(dir, tables, v)
  {
    var dir' := Put(dir, i, WithUser(dir[i]));
    forall k | 0 <= k < ENTRIES
      ensures TableAt(dir', tables, used, k)
    {
      assert TableAt(dir, tables, used, k);
    }
    forall j, k | 0 <= j < k < ENTRIES
      ensures DistinctAt(dir', j, k)
    {
      assert DistinctAt(dir, j, k);
    }
    assert forall v: u32 :: Walk(dir', tables, v) == Walk(dir, tables, v);
    forall f: nat | f < IDENTITY
      ensures IdentityAt(dir', tables, f)
    {
      assert IdentityAt(dir, tables, f);
    }
  }

  /** The map keeps the first 4 MB where they are. */
  predicate KeepsIdentity(virt: u32, phys: u32) {
    virt >= DIRECTORY_SPAN || PageOf(virt) == Frame(phys)
  }

  /** Writing the entry of one page changes that page's walk and no other. */
  lemma EntryWritten(dir: Table, tables: map<nat, Table>, used: set<nat>, virt: u32, phys: u32, flags: u32)
    requires Good(dir, tables, used) && DirIndex(virt) < ENTRIES && Present(dir[DirIndex(virt)]) && KeepsIdentity(virt, phys)
    ensures Frame(dir[DirIndex(virt)]) in tables && TableIndex(virt) < |tables[Frame(dir[DirIndex(virt)])]|
    ensures var f := Frame(dir[DirIndex(virt)]);
            var tables' := tables[f := Put(tables[f], TableIndex(virt), EntryFor(phys, flags))];
            && Good(dir, tables', used) && Walk(dir, tables', virt) == EntryFor(phys, flags)
            && forall v: u32 :: PageOf(v) != PageOf(virt) ==> Walk(dir, tables', v) == Walk(dir, tables, v)
  {
    hide EntryFor;
    SamePage(virt, virt);
    assert TableAt(dir, tables, used, DirIndex(virt));
    var f := Frame(dir[DirIndex(virt)]);
    var tables' := tables[f := Put(tables[f], TableIndex(virt), EntryFor(phys, flags))];
    forall v: u32 | PageOf(v) != PageOf(virt)
      ensures Walk(dir, tables', v) == Walk(dir, tables, v)
    {
      SamePage(v, virt);
      if DirIndex(v) < DirIndex(virt) {
        assert DistinctAt(dir, DirIndex(v), DirIndex(virt));
      } else if DirIndex(virt) < DirIndex(v) {
        assert DistinctAt(dir, DirIndex(virt), DirIndex(v));
      }
    }
    forall k | 0 <= k < ENTRIES
      ensures TableAt(dir, tables', used, k)
    {
      assert TableAt(dir, tables, used, k);
    }
    forall g: nat | g < IDENTITY
      ensures IdentityAt(dir, tables', g)
    {
      IdentityKept(dir, tables, tables', virt, phys, flags, g);
    }
  }

  lemma IdentityKept(dir: Table, tables: map<nat, Table>, tables': map<nat, Table>, virt: u32, phys: u32, flags: u32, g: nat)
    requires g < IDENTITY && IdentityAt(dir, tables, g) && KeepsIdentity(virt, phys)
    requires Walk(dir, tables', virt) == EntryFor(phys, flags)
    requires forall v: u32 :: PageOf(v) != PageOf(virt) ==> Walk(dir, tables', v) == Walk(dir, tables, v)
    ensures IdentityAt(dir, tables', g)
  {
    hide EntryFor;
    var a: u32 := g * PAGE_SIZE;
    assert PageOf(a) == g;
    if PageOf(virt) == g {
      assert virt < DIRECTORY_SPAN;
      SamePage(a, virt);
      assert Walk(dir, tables', a) == Walk(dir, tables', virt);
    }
  }

  /** The identity-mapped frames that are still free. */
  ghost function LowFree(used: set<nat>): (s: set<nat>)
    ensures forall p: nat :: p in s <==> p < IDENTITY && p !in used
  {
    set p: nat | p < IDENTITY && p !in used
  }

  /** The directory entries among `dirs` that still need a table. */
  ghost function Absent(dir: Table, dirs: set<nat>): (s: set<nat>)
    ensures forall i: nat :: i in s <==> i in dirs && i < |dir| && !Present(dir[i])
  {
    set i: nat | i in dirs && i < |dir| && !Present(dir[i])
  }

  ghost predicate Room(dir: Table, dirs: set<nat>, used: set<nat>) {
    |LowFree(used)| >= |Absent(dir, dirs)|
  }

  ghost predicate HighTaken(used: set<nat>) {
    forall p: nat :: IDENTITY <= p < TOTAL_PAGES ==> p in used
  }

  /** No page is free. */
  ghost predicate Full(used: set<nat>) {
    forall p: nat :: p < TOTAL_PAGES ==> p in used
  }

  // ----- the code ------------------------------------------------------------------------------

  class Mapper {
    const pmm: Allocator
    const firstTable: nat
    var pageDir: array<u32>
    /** The page tables, by the frame they lie in. */
    var tables: map<nat, Table>

    ghost predicate Valid()
      reads this, pageDir, pmm, pmm.bitmap
    {
      pmm.Valid() && Good(pageDir[..], tables, pmm.Used()) && (pageDir as object) != pmm.bitmap as object
    }

    /** Low frames are free for every table still needed by the directory entries `dirs`. */
    ghost predicate Roomy(dirs: set<nat>)
      reads this, pageDir, pmm, pmm.bitmap
    {
      Valid() && Room(pageDir[..], dirs, pmm.Used())
    }

    /** So they are, or else the frames that are still free are all low ones. */
    ghost predicate Supplied(dirs: set<nat>)
      reads this, pageDir, pmm, pmm.bitmap
    {
      Valid() && (Room(pageDir[..], dirs, pmm.Used()) || HighTaken(pmm.Used()))
    }

    /** paging_init, over an allocator that never hands out the kernel's own pages. */
    constructor (pmm: Allocator, firstTable: nat)
      requires pmm.Valid() && 0 in pmm.Used() && firstTable in pmm.Used() && firstTable < IDENTITY
      ensures Valid() && fresh(pageDir) && this.pmm == pmm
      ensures forall v: u32 :: Walk(pageDir[..], tables, v) == if PageOf(v) < IDENTITY then TableEntry(PageOf(v)) else 0
    {
      this.pmm, this.firstTable := pmm, firstTable;
      pageDir := new u32[ENTRIES](_ => 0);
      tables := map[firstTable := FirstTable(ENTRIES)];
      new;
      pageDir[0] := TableEntry(firstTable);
      hide TableEntry;
      InitialGood(pageDir[..], tables, pmm.Used(), firstTable);
    }

    /** A cleared table from the allocator for directory entry i. */
    method AddTable(i: nat) returns (ok: bool)
      requires Valid() && i < ENTRIES && !Present(pageDir[i])
      requires (exists p: nat :: p < TOTAL_PAGES && p !in pmm.Used()) ==> LowFree(pmm.Used()) != {}
      modifies this`tables, pageDir, pmm`usedCount, pmm.bitmap
      ensures Valid() && pmm.bitmap == old(pmm.bitmap)
      ensures ok <==> exists p: nat :: p < TOTAL_PAGES && p !in old(pmm.Used())
      ensures !ok ==> pageDir[..] == old(pageDir[..]) && tables == old(tables) && pmm.Used() == old(pmm.Used())
      ensures ok ==> Present(pageDir[i]) && forall k :: 0 <= k < ENTRIES && k != i ==> pageDir[k] == old(pageDir[k])
      ensures ok ==> exists p: nat :: p in LowFree(old(pmm.Used())) && pmm.Used() == old(pmm.Used()) + {p}
      ensures forall v: u32 :: Walk(pageDir[..], tables, v) == Walk(old(pageDir[..]), old(tables), v)
    {
      hide Good, Walk, TableEntry, LowFree, UsedPages;
      ghost var dir, used := pageDir[..], pmm.Used();
      ZeroTaken(dir, tables, used);
      assert !Present(dir[i]);
      var newPt := pmm.AllocPage();
      ok := newPt != 0;
      if !ok {
        return;
      }
      ghost var p := newPt / PAGE_SIZE;
      LowestIsLow(used, p);
      TableAdded(dir, tables, used, i, p, Zeros());
      tables := tables[newPt / PAGE_SIZE := Zeros()];
      pageDir[i] := TableEntry(newPt / PAGE_SIZE);
      assert pageDir[..] == Put(dir, i, TableEntry(p));
      assert p in LowFree(used) && pmm.Used() == used + {p};
    }

    /** paging_map: the page's walk ends at the new entry and every other page's where it
        did; nothing at all changes when a table is needed and no page is free. */
    method Map(virt: u32, phys: u32, flags: u32) returns (ok: bool)
      requires Valid() && KeepsIdentity(virt, phys)
      requires pageDir.Length == ENTRIES && DirIndex(virt) < ENTRIES
      requires !Present(pageDir[DirIndex(virt)]) && (exists p: nat :: p < TOTAL_PAGES && p !in pmm.Used()) ==> LowFree(pmm.Used()) != {}
      modifies this`tables, pageDir, pmm`usedCount, pmm.bitmap
      ensures Valid() && pmm.bitmap == old(pmm.bitmap)
      ensures ok <==> Present(old(pageDir[DirIndex(virt)])) || exists p: nat :: p < TOTAL_PAGES && p !in old(pmm.Used())
      ensures !ok ==> pageDir[..] == old(pageDir[..]) && tables == old(tables) && pmm.Used() == old(pmm.Used())
      ensures ok ==> Walk(pageDir[..], tables, virt) == EntryFor(phys, flags) && Present(pageDir[DirIndex(virt)])
      ensures ok && User(flags) ==> User(pageDir[DirIndex(virt)])
      ensures forall v: u32 :: PageOf(v) != PageOf(virt) ==> Walk(pageDir[..], tables, v) == Walk(old(pageDir[..]), old(tables), v)
      ensures forall k :: 0 <= k < ENTRIES && k != DirIndex(virt) ==> pageDir[k] == old(pageDir[k])
      ensures if Present(old(pageDir[DirIndex(virt)])) || !ok then pmm.Used() == old(pmm.Used())
              else exists p: nat :: p in LowFree(old(pmm.Used())) && pmm.Used() == old(pmm.Used()) + {p}
    {
      hide Good, Walk, TableEntry, LowFree, UsedPages, EntryFor, DirIndex, TableIndex, PageOf, KeepsIdentity, Put, WithUser;
      var i := DirIndex(virt);
      ok := true;
      if !Present(pageDir[i]) {
        ok := AddTable(i);
        if !ok {
          return;
        }
      }
      MarkUser(i, flags);
      WriteEntry(virt, phys, flags);
    }

    method MarkUser(i: nat, flags: u32)
      requires Valid() && pageDir.Length == ENTRIES && i < ENTRIES
      modifies pageDir
      ensures Valid() && Frame(pageDir[i]) == old(Frame(pageDir[i])) && (Present(pageDir[i]) <==> old(Present(pageDir[i])))
      ensures User(flags) ==> User(pageDir[i])
      ensures forall k :: 0 <= k < ENTRIES && k != i ==> pageDir[k] == old(pageDir[k])
      ensures forall v: u32 :: Walk(pageDir[..], tables, v) == Walk(old(pageDir[..]), tables, v)
    {
      hide Good, Walk, UsedPages, WithUser, Put;
      ghost var dir := pageDir[..];
      if User(flags) {
        UserAdded(dir, tables, pmm.Used(), i);
        pageDir[i] := WithUser(pageDir[i]);
        assert pageDir[..] == Put(dir, i, WithUser(dir[i]));
      }
    }

    method WriteEntry(virt: u32, phys: u32, flags: u32)
      requires Valid() && KeepsIdentity(virt, phys) && pageDir.Length == ENTRIES && DirIndex(virt) < ENTRIES
      requires Present(pageDir[DirIndex(virt)])
      modifies this`tables
      ensures Valid() && Walk(pageDir[..], tables, virt) == EntryFor(phys, flags)
      ensures forall v: u32 :: PageOf(v) != PageOf(virt) ==> Walk(pageDir[..], tables, v) == Walk(pageDir[..], old(tables), v)
    {
      hide Good, Walk, UsedPages, EntryFor, Put, KeepsIdentity, DirIndex, TableIndex;
      EntryWritten(pageDir[..], tables, pmm.Used(), virt, phys, flags);
      var f := Frame(pageDir[DirIndex(virt)]);
      tables := tables[f := Put(tables[f], TableIndex(virt), EntryFor(phys, flags))];
    }

    lemma SuppliedFacts(dirs: set<nat>)
      requires Supplied(dirs)
      ensures pmm.Valid()
    {
    }

    /** One pass of paging_map_range. */
    method MapNext(virt: u32, phys: u32, flags: u32, ghost dirs: set<nat>)
      requires Supplied(dirs) && pageDir.Length == ENTRIES && KeepsIdentity(virt, phys) && DirIndex(virt) < ENTRIES
      requires DirIndex(virt) in dirs
      modifies this`tables, pageDir, pmm`usedCount, pmm.bitmap
      ensures Supplied(dirs) && pmm.Valid() && pmm.bitmap == old(pmm.bitmap)
      ensures PassDone(old(pageDir[..]), old(tables), old(pmm.Used()), pageDir[..], tables, pmm.Used(), virt, phys, flags)
      ensures old(Roomy(dirs)) ==> Roomy(dirs) && Present(pageDir[DirIndex(virt)])
    {
      hide Good, Walk, TableEntry, LowFree, UsedPages, EntryFor, DirIndex, PageOf, KeepsIdentity, Absent, Room, HighTaken, Full, PassDone;
      ghost var dir, used, t := pageDir[..], pmm.Used(), tables;
      RoomForTable(dir, dirs, DirIndex(virt), used);
      var ok := Map(virt, phys, flags);
      assert dir[DirIndex(virt)] == old(pageDir[DirIndex(virt)]);
      RoomAfter(dir, pageDir[..], dirs, DirIndex(virt), used, pmm.Used(), ok);
      PassIs(dir, t, used, pageDir[..], tables, pmm.Used(), virt, phys, flags, ok);
    }

    /** paging_map_range. Every page of the range that has a page table in the end maps to its
        own frame; a page without one walks as before, and then no page is free any more. No
        page outside the range is touched. With enough low frames every page is mapped. */
    method MapRange(virt: u32, phys: u32, size: u32, flags: u32, ghost dirs: set<nat>)
      requires Supplied(dirs) && pageDir.Length == ENTRIES && size <= 0xFFFF_F000
      requires forall k: nat :: PAGE_SIZE * k < size ==> KeepsIdentity(At(virt, k), At(phys, k)) && DirIndex(At(virt, k)) in dirs
      modifies this`tables, pageDir, pmm`usedCount, pmm.bitmap
      ensures Supplied(dirs) && pmm.bitmap == old(pmm.bitmap)
      ensures exists n: nat :: PAGE_SIZE * n >= size && PAGE_SIZE * n < size + PAGE_SIZE
                && RangeDone(old(pageDir[..]), old(tables), pageDir[..], tables, pmm.Used(), virt, phys, flags, n)
                && (old(Roomy(dirs)) ==> AllPresent(pageDir[..], virt, n))
    {
      hide *;
      SuppliedFacts(dirs);
      var offset: u32 := 0;
      ghost var n, dir, t, roomy := 0, pageDir[..], tables, Roomy(dirs);
      RangeStarts(dir, t, pmm.Used(), virt, phys, flags);
      while offset < size
        invariant offset == PAGE_SIZE * n <= 0xFFFF_F000 && (n > 0 ==> PAGE_SIZE * n < size + PAGE_SIZE)
        invariant Supplied(dirs) && pmm.bitmap == old(pmm.bitmap) && pmm.Valid()
        invariant (roomy ==> Roomy(dirs) && AllPresent(pageDir[..], virt, n))
        invariant RangeDone(dir, t, pageDir[..], tables, pmm.Used(), virt, phys, flags, n)
        decreases 0xFFFF_F000 - offset
      {
        var v, p: u32 := (virt + offset) % ADDRESSES, (phys + offset) % ADDRESSES;
        AtIs(virt, phys, n);
        ghost var d1, t1, u1 := pageDir[..], tables, pmm.Used();
        MapNext(v, p, flags, dirs);
        RangeStep(dir, t, d1, t1, u1, pageDir[..], tables, pmm.Used(), virt, phys, flags, n);
        offset := (offset + PAGE_SIZE) % ADDRESSES;
        n := n + 1;
      }
    }
  }

  /** The address k pages further on, in 32 bits. */
  function At(a: u32, k: nat): u32 {
    (a + PAGE_SIZE * k) % ADDRESSES
  }

  /** What mapping one page does: the page is mapped, or its table cannot be made, because no
      page is free, and nothing changes. */
  ghost predicate PassDone(dir: Table, t: map<nat, Table>, used: set<nat>, dir': Table, t': map<nat, Table>, used': set<nat>,
                           virt: u32, phys: u32, flags: u32) {
    var i := DirIndex(virt);
    && |dir| == |dir'| == ENTRIES && i < ENTRIES
    && (forall k :: 0 <= k < ENTRIES && k != i ==> dir'[k] == dir[k])
    && (forall v: u32 :: PageOf(v) != PageOf(virt) ==> Walk(dir', t', v) == Walk(dir, t, v))
    && (if Present(dir'[i]) then Walk(dir', t', virt) == EntryFor(phys, flags) else dir' == dir && t' == t && Full(used'))
    && (Present(dir[i]) ==> Present(dir'[i]))
    && (Full(used) ==> Full(used') && (Present(dir'[i]) ==> Present(dir[i])))
  }

  /** Page k of the range is mapped, or has no table, for want of a free page, and walks as before. */
  ghost predicate PageDone(dir: Table, t: map<nat, Table>, dir': Table, t': map<nat, Table>, used': set<nat>,
                           virt: u32, phys: u32, flags: u32, k: nat) {
    var a := At(virt, k);
    && DirIndex(a) < |dir'|
    && if Present(dir'[DirIndex(a)]) then Walk(dir', t', a) == EntryFor(At(phys, k), flags)
       else Walk(dir', t', a) == Walk(dir, t, a) && Full(used')
  }

  /** So it is for the first n pages of the range; no other page's walk changed. */
  ghost predicate RangeDone(dir: Table, t: map<nat, Table>, dir': Table, t': map<nat, Table>, used': set<nat>,
                            virt: u32, phys: u32, flags: u32, n: nat) {
    && (forall k: nat :: k < n ==> PageDone(dir, t, dir', t', used', virt, phys, flags, k))
    && SameOutside(dir, t, dir', t', virt, n)
  }

  /** No page but the first n of the range walks differently. */
  ghost predicate SameOutside(dir: Table, t: map<nat, Table>, dir': Table, t': map<nat, Table>, virt: u32, n: nat) {
    forall v: u32 :: (forall k: nat :: k < n ==> PageOf(v) != PageOf(At(virt, k))) ==> Walk(dir', t', v) == Walk(dir, t, v)
  }

  ghost predicate AllPresent(dir: Table, virt: u32, n: nat) {
    forall k: nat :: k < n ==> DirIndex(At(virt, k)) < |dir| && Present(dir[DirIndex(At(virt, k))])
  }

  lemma RangeStarts(dir: Table, t: map<nat, Table>, used: set<nat>, virt: u32, phys: u32, flags: u32)
    ensures RangeDone(dir, t, dir, t, used, virt, phys, flags, 0) && AllPresent(dir, virt, 0)
    ensures PAGE_SIZE == 4096 && ADDRESSES == 0x1_0000_0000
  {
  }

  /** What page k of the range has come to does not change when page n is mapped. */
  lemma PageKeeps(dir: Table, t: map<nat, Table>, d1: Table, t1: map<nat, Table>, u1: set<nat>, d2: Table, t2: map<nat, Table>,
                  u2: set<nat>, virt: u32, phys: u32, flags: u32, k: nat, n: nat)
    requires PageDone(dir, t, d1, t1, u1, virt, phys, flags, k) && k < n && PAGE_SIZE * n <= 0xFFFF_F000
    requires PassDone(d1, t1, u1, d2, t2, u2, At(virt, n), At(phys, n), flags)
    ensures PageDone(dir, t, d2, t2, u2, virt, phys, flags, k) && PageOf(At(virt, k)) != PageOf(At(virt, n))
    ensures Present(d1[DirIndex(At(virt, k))]) ==> Present(d2[DirIndex(At(virt, k))])
  {
    hide Walk, EntryFor, PageOf, At, Full, Present, DirIndex;
    PagesDiffer(virt, k, n);
  }

  lemma OutsideAt(dir: Table, t: map<nat, Table>, d1: Table, t1: map<nat, Table>, virt: u32, n: nat)
    requires SameOutside(dir, t, d1, t1, virt, n) && forall k: nat :: k < n ==> PageOf(At(virt, n)) != PageOf(At(virt, k))
    ensures Walk(d1, t1, At(virt, n)) == Walk(dir, t, At(virt, n))
  {
    hide Walk, PageOf, At;
  }

  lemma OutsideStep(dir: Table, t: map<nat, Table>, d1: Table, t1: map<nat, Table>, d2: Table, t2: map<nat, Table>,
                    virt: u32, n: nat)
    requires SameOutside(dir, t, d1, t1, virt, n)
    requires forall v: u32 :: PageOf(v) != PageOf(At(virt, n)) ==> Walk(d2, t2, v) == Walk(d1, t1, v)
    ensures SameOutside(dir, t, d2, t2, virt, n + 1)
  {
    hide Walk, PageOf, At;
    forall v: u32 | forall k: nat :: k < n + 1 ==> PageOf(v) != PageOf(At(virt, k))
      ensures Walk(d2, t2, v) == Walk(dir, t, v)
    {
      assert PageOf(v) != PageOf(At(virt, n));
      assert forall k: nat :: k < n ==> PageOf(v) != PageOf(At(virt, k));
    }
  }

  lemma PageApart(virt: u32, n: nat)
    requires PAGE_SIZE * n <= 0xFFFF_F000
    ensures forall k: nat :: k < n ==> PageOf(At(virt, n)) != PageOf(At(virt, k))
  {
    forall k: nat | k < n
      ensures PageOf(At(virt, n)) != PageOf(At(virt, k))
    {
      PagesDiffer(virt, k, n);
    }
  }

  lemma RangeStep(dir: Table, t: map<nat, Table>, d1: Table, t1: map<nat, Table>, u1: set<nat>, d2: Table, t2: map<nat, Table>,
                  u2: set<nat>, virt: u32, phys: u32, flags: u32, n: nat)
    requires RangeDone(dir, t, d1, t1, u1, virt, phys, flags, n) && PAGE_SIZE * n <= 0xFFFF_F000
    requires PassDone(d1, t1, u1, d2, t2, u2, At(virt, n), At(phys, n), flags)
    ensures RangeDone(dir, t, d2, t2, u2, virt, phys, flags, n + 1)
    ensures AllPresent(d1, virt, n) && Present(d2[DirIndex(At(virt, n))]) ==> AllPresent(d2, virt, n + 1)
  {
    hide Walk, EntryFor, PageOf, At, Full, Present, DirIndex, PageDone, PassDone, SameOutside, PAGE_SIZE;
    PageApart(virt, n);
    OutsideAt(dir, t, d1, t1, virt, n);
    PassFacts(dir, t, d1, t1, u1, d2, t2, u2, virt, phys, flags, n);
    OutsideStep(dir, t, d1, t1, d2, t2, virt, n);
    forall k: nat | k < n + 1
      ensures PageDone(dir, t, d2, t2, u2, virt, phys, flags, k) && DirIndex(At(virt, k)) < |d2|
      ensures k < n ==> DirIndex(At(virt, k)) < |d1| && PageOf(At(virt, k)) != PageOf(At(virt, n))
                        && (Present(d1[DirIndex(At(virt, k))]) ==> Present(d2[DirIndex(At(virt, k))]))
    {
      if k < n {
        PageFits(dir, t, d1, t1, u1, d2, t2, u2, virt, phys, flags, k, n);
        PageKeeps(dir, t, d1, t1, u1, d2, t2, u2, virt, phys, flags, k, n);
      }
    }
  }

  lemma PageFits(dir: Table, t: map<nat, Table>, d1: Table, t1: map<nat, Table>, u1: set<nat>, d2: Table, t2: map<nat, Table>,
                 u2: set<nat>, virt: u32, phys: u32, flags: u32, k: nat, n: nat)
    requires PageDone(dir, t, d1, t1, u1, virt, phys, flags, k)
    requires PassDone(d1, t1, u1, d2, t2, u2, At(virt, n), At(phys, n), flags)
    ensures DirIndex(At(virt, k)) < |d1| == |d2|
  {
  }

  lemma PassFacts(dir: Table, t: map<nat, Table>, d1: Table, t1: map<nat, Table>, u1: set<nat>, d2: Table, t2: map<nat, Table>,
                  u2: set<nat>, virt: u32, phys: u32, flags: u32, n: nat)
    requires PassDone(d1, t1, u1, d2, t2, u2, At(virt, n), At(phys, n), flags)
    requires Walk(d1, t1, At(virt, n)) == Walk(dir, t, At(virt, n))
    ensures DirIndex(At(virt, n)) < |d2| && PageDone(dir, t, d2, t2, u2, virt, phys, flags, n)
    ensures forall v: u32 :: PageOf(v) != PageOf(At(virt, n)) ==> Walk(d2, t2, v) == Walk(d1, t1, v)
  {
    hide Walk, EntryFor, PageOf, At, Full, Present, DirIndex;
  }

  lemma PassIs(dir: Table, t: map<nat, Table>, used: set<nat>, dir': Table, t': map<nat, Table>, used': set<nat>,
               virt: u32, phys: u32, flags: u32, ok: bool)
    requires |dir| == |dir'| == ENTRIES && DirIndex(virt) < ENTRIES
    requires ok <==> Present(dir[DirIndex(virt)]) || exists p: nat :: p < TOTAL_PAGES && p !in used
    requires forall k :: 0 <= k < ENTRIES && k != DirIndex(virt) ==> dir'[k] == dir[k]
    requires forall v: u32 :: PageOf(v) != PageOf(virt) ==> Walk(dir', t', v) == Walk(dir, t, v)
    requires ok ==> Walk(dir', t', virt) == EntryFor(phys, flags) && Present(dir'[DirIndex(virt)])
    requires !ok ==> dir' == dir && t' == t && used' == used
    requires Present(dir[DirIndex(virt)]) ==> used' == used
    ensures PassDone(dir, t, used, dir', t', used', virt, phys, flags)
  {
    hide Walk, EntryFor, PageOf, DirIndex, Present;
  }

  lemma AtIs(virt: u32, phys: u32, n: nat)
    ensures (virt + PAGE_SIZE * n) % ADDRESSES == At(virt, n) && (phys + PAGE_SIZE * n) % ADDRESSES == At(phys, n)
    ensures DirIndex(At(virt, n)) < ENTRIES
  {
  }

  /** Fewer than 2^20 pages do not come round to the same page. */
  lemma PagesDiffer(a: u32, j: nat, k: nat)
    requires j < k && PAGE_SIZE * k <= 0xFFFF_F000
    ensures PageOf(At(a, j)) != PageOf(At(a, k))
  {
    PageAt(a, j);
    PageAt(a, k);
  }

  lemma PageAt(a: u32, k: nat)
    requires PAGE_SIZE * k <= 0xFFFF_F000
    ensures PageOf(At(a, k)) == if PageOf(a) + k < 0x10_0000 then PageOf(a) + k else PageOf(a) + k - 0x10_0000
  {
    var s := a + PAGE_SIZE * k;
    assert At(a, k) == if s < ADDRESSES then s else s - ADDRESSES;
    assert a == PAGE_SIZE * PageOf(a) + a % PAGE_SIZE;
  }

  lemma SubsetSmaller(a: set<nat>, b: set<nat>)
    requires a <= b
    ensures |a| <= |b| && (a != b ==> |a| < |b|)
  {
    SubsetSize(a, b);
    if a != b {
      var x :| x in b && x !in a;
      SubsetSize(a, b - {x});
    }
  }

  /** While an entry that will be needed has no table, a low frame is free for it, or none at all. */
  lemma RoomForTable(dir: Table, dirs: set<nat>, i: nat, used: set<nat>)
    requires i < |dir| && i in dirs && (Room(dir, dirs, used) || HighTaken(used))
    ensures !Present(dir[i]) && (exists p: nat :: p < TOTAL_PAGES && p !in used) ==> LowFree(used) != {}
    ensures !Present(dir[i]) && Room(dir, dirs, used) ==> exists p: nat :: p < TOTAL_PAGES && p !in used
  {
    if !Present(dir[i]) && Room(dir, dirs, used) {
      assert i in Absent(dir, dirs);
      SubsetSmaller({}, Absent(dir, dirs));
      var p :| p in LowFree(used);
    } else if p: nat :| p < TOTAL_PAGES && p !in used && HighTaken(used) {
      assert p in LowFree(used);
    }
  }

  /** A table taken is one low frame and one absent entry fewer; taken pages stay taken. */
  lemma RoomAfter(dir: Table, dir': Table, dirs: set<nat>, i: nat, used: set<nat>, used': set<nat>, ok: bool)
    requires i < |dir| == |dir'| && i in dirs && (ok ==> Present(dir'[i])) && (!ok ==> dir' == dir)
    requires forall k :: 0 <= k < |dir| && k != i ==> dir'[k] == dir[k]
    requires if Present(dir[i]) || !ok then used' == used else exists p: nat :: p in LowFree(used) && used' == used + {p}
    ensures Room(dir, dirs, used) ==> Room(dir', dirs, used')
    ensures HighTaken(used) ==> HighTaken(used')
  {
    if Present(dir[i]) || !ok {
      assert Absent(dir', dirs) == Absent(dir, dirs);
    } else {
      var p: nat :| p in LowFree(used) && used' == used + {p};
      assert LowFree(used') == LowFree(used) - {p};
      assert Absent(dir', dirs) == Absent(dir, dirs) - {i} && i in Absent(dir, dirs);
    }
  }

  /** The 32-bit offset passes the size, and the range loop ends, exactly up to 0xFFFFF000. */
  lemma RangeEnds(size: u32)
    ensures (exists k: nat :: PAGE_SIZE * k % ADDRESSES >= size) <==> size <= 0xFFFF_F000
  {
    if size <= 0xFFFF_F000 {
      assert PAGE_SIZE * 0xF_FFFF % ADDRESSES >= size;
    } else {
      forall k: nat
        ensures PAGE_SIZE * k % ADDRESSES < size
      {
        OffsetBound(k);
      }
    }
  }

  lemma OffsetBound(k: nat)
    ensures PAGE_SIZE * k % ADDRESSES <= 0xFFFF_F000
  {
    var q, r := k / 0x10_0000, k % 0x10_0000;
    QuotientIs(PAGE_SIZE * k, ADDRESSES, q, PAGE_SIZE * r);
  }

  function Zeros(): (t: Table)
    ensures |t| == ENTRIES && forall k :: 0 <= k < ENTRIES ==> t[k] == 0
  {
    seq(ENTRIES, _ => 0)
  }

  function FirstTable(n: nat): (t: Table)
    requires n <= ENTRIES
    ensures |t| == n && forall k :: 0 <= k < n ==> t[k] == TableEntry(k)
  {
    seq(n, k requires 0 <= k < n => TableEntry(k))
  }

  lemma ZeroTaken(dir: Table, tables: map<nat, Table>, used: set<nat>)
    requires Good(dir, tables, used)
    ensures 0 in used && |dir| == ENTRIES
  {
  }

  /** If some identity-mapped frame is free, the lowest free one is identity-mapped. */
  lemma LowestIsLow(used: set<nat>, p: nat)
    requires LowFree(used) != {} && p !in used && forall q :: 0 <= q < p ==> q in used
    ensures p < IDENTITY && p in LowFree(used)
  {
    var q :| q in LowFree(used);
  }

  lemma InitialGood(dir: Table, tables: map<nat, Table>, used: set<nat>, first: nat)
    requires first < IDENTITY && first in used && 0 in used && tables == map[first := FirstTable(ENTRIES)]
    requires |dir| == ENTRIES && dir[0] == TableEntry(first) && forall i :: 1 <= i < ENTRIES ==> dir[i] == 0
    ensures Good(dir, tables, used)
    ensures forall v: u32 :: Walk(dir, tables, v) == if PageOf(v) < IDENTITY then TableEntry(PageOf(v)) else 0
  {
    hide TableEntry;
    forall v: u32
      ensures Walk(dir, tables, v) == if PageOf(v) < IDENTITY then TableEntry(PageOf(v)) else 0
    {
      SamePage(v, v);
      assert DirIndex(v) == PageOf(v) / ENTRIES && TableIndex(v) == PageOf(v) % ENTRIES;
    }
    forall i | 0 <= i < ENTRIES
      ensures TableAt(dir, tables, used, i)
    {
    }
    forall f: nat | f < IDENTITY
      ensures IdentityAt(dir, tables, f)
    {
      assert PageOf(f * PAGE_SIZE) == f;
    }
  }
}
