/** fs_append_file: any number of clusters, and safe at every sector write but the last. */
module FatAppend {
  import opened Products
  import opened FatBytes
  import opened FatTheory
  import opened FatDisk
  import opened FileMaps
  import opened FatView
  import opened ShortNames
  import opened FatSearch
  import opened FatFs
  import opened FatOps
  import opened FatWrite

  // ----- counting free clusters ---------------------------------------------------------

  /** Number of clusters whose FAT entry is zero. */
  function FreeCount(fat: seq<nat>): nat {
    if |fat| <= 2 then 0 else FreeCount(fat[..|fat| - 1]) + if fat[|fat| - 1] == 0 then 1 else 0
  }

  lemma {:induction false} FreeCountUpdate(fat: seq<nat>, n: nat, v: nat)
    requires 2 <= n < |fat|
    ensures FreeCount(fat[n := v]) + (if fat[n] == 0 then 1 else 0) == FreeCount(fat) + (if v == 0 then 1 else 0)
  {
    var last := |fat| - 1;
    if n == last {
      assert fat[n := v][..last] == fat[..last];
    } else {
      FreeCountUpdate(fat[..last], n, v);
      assert fat[n := v][..last] == fat[..last][n := v];
    }
  }

  lemma {:induction false} FreeCountZero(fat: seq<nat>)
    ensures FreeCount(fat) > 0 <==> exists c :: 2 <= c < |fat| && fat[c] == 0
  {
    if |fat| > 2 {
      var last := |fat| - 1;
      FreeCountZero(fat[..last]);
      if FreeCount(fat[..last]) > 0 {
        var c :| 2 <= c < last && fat[..last][c] == 0;
        assert fat[c] == 0;
      }
      if c :| 2 <= c < |fat| && fat[c] == 0 {
        assert c < last ==> fat[..last][c] == 0;
      }
    }
  }

  // ----- the tail of a chain ---------------------------------------------------------------

  lemma {:induction false} ChainSplit(g: Geo, r: seq<Sector>, r': seq<Sector>, ch: seq<nat>, c: nat)
    requires ch != [] && c == ch[|ch| - 1] && SameOutside(g, r, r', c)
    requires (forall i :: 0 <= i < |ch| ==> ch[i] >= 2) && forall a, b :: 0 <= a < b < |ch| ==> ch[a] != ch[b]
    ensures ChainBytes(g, r', ch) == ChainBytes(g, r, ch[..|ch| - 1]) + ClusterBytes(g, r', c)
    ensures ChainBytes(g, r, ch) == ChainBytes(g, r, ch[..|ch| - 1]) + ClusterBytes(g, r, c)
  {
    var init := ch[..|ch| - 1];
    hide ClusterBytes, SameOutside;
    ChainUntouched(g, r, r', c, init);
    assert init + [c] == ch;
    ChainSnoc(g, r, init, c);
    ChainSnoc(g, r', init, c);
  }

  lemma SpliceTail(a: seq<byte>, b: seq<byte>, o: nat, t: seq<byte>)
    requires o + |t| <= |b|
    ensures a + Splice(b, o, t) == Splice(a + b, |a| + o, t)
  {
  }

  lemma SpliceNested(b: seq<byte>, p: nat, sec: seq<byte>, o: nat, t: seq<byte>)
    requires p + |sec| <= |b| && sec == b[p..p + |sec|] && o + |t| <= |sec|
    ensures Splice(b, p, Splice(sec, o, t)) == Splice(b, p + o, t)
  {
  }

  lemma SpliceExtends(b: seq<byte>, text: seq<byte>, t: seq<byte>)
    requires |text| + |t| <= |b| && b[..|text|] == text
    ensures Splice(b, |text|, t)[..|text| + |t|] == text + t
  {
  }

  /** The chain of slot k, read on this disk, starts with the given bytes. */
  ghost predicate Holds(g: Geo, r: seq<Sector>, ch: seq<nat>, text: seq<byte>) {
    |text| <= |ch| * g.BytesPerCluster() && ChainBytes(g, r, ch)[..|text|] == text
  }

  /** Somewhere in an append: chain k of disk d holds `text`, the entry still says `size`. */
  ghost predicate Growing(g: Geo, d0: seq<Sector>, m0: Meta, d: seq<Sector>, m: Meta, k: nat, n: seq<byte>, text: seq<byte>) {
    && EntryAt(g, d0, m0, n, k) && Sound(g, d, m, {}) && CopiesAgree(g, d)
    && Dir(g, d, m) == Dir(g, d0, m0) && Listing(g, d, m) == Listing(g, d0, m0)
    && RootChain(m) == RootChain(m0) && SameButAt(m0.chains, m.chains, k)
    && k in m.chains && Holds(g, Rest(g, d), m.chains[k], text)
    && SizeOf(Dir(g, d, m)[k]) <= |text|
  }

  // ----- filling up the last cluster ------------------------------------------------------------

  lemma TailCluster(g: Geo, d: seq<Sector>, m: Meta, leak: set<nat>, k: nat)
    requires Sound(g, d, m, leak) && k in m.chains
    ensures var ch := m.chains[k];
            && ch != [] && 2 <= Last(ch) < g.MaxCluster() && OnlyOn(m, Last(ch), k) && Fat(g, d)[Last(ch)] >= EOC
            && Last(ch) == ch[|ch| - 1] && g.MaxCluster() <= EOC && |m.own| == g.MaxCluster()
            && (forall i :: 0 <= i < |ch| ==> 2 <= ch[i] < g.MaxCluster())
            && (forall a, b :: 0 <= a < b < |ch| ==> ch[a] != ch[b])
            && (forall i {:trigger Fat(g, d)[ch[i]]} :: 0 <= i < |ch| - 1 ==> Fat(g, d)[ch[i]] == ch[i + 1])
  {
    ClusterLimit(g);
    ChainFacts(Fat(g, d), m, leak, k);
    var ch := m.chains[k];
    forall j | j in m.chains && j != k
      ensures Last(ch) !in m.chains[j]
    {
      OffChain(Fat(g, d), m, leak, j, k, Last(ch));
    }
  }

  lemma SectorBytes(g: Geo, d: seq<Sector>, c: nat, s: nat)
    requires Fits(g, d) && 2 <= c < g.MaxCluster() && s < g.spc
    ensures g.ClusterToLba(c) + s < |d| && g.ClusterToLba(c) + s < 0x1000_0000
    ensures d[g.ClusterToLba(c) + s] == ClusterBytes(g, Rest(g, d), c)[SECTOR_SIZE * s..SECTOR_SIZE * s + SECTOR_SIZE]
  {
    hide Geo.MaxCluster, Geo.DataStart;
    ClusterInRange(g, c);
    var rest := Rest(g, d);
    assert InRest(g, rest, c);
    FlattenAt(rest[g.Base(c)..g.Base(c) + g.spc], s);
  }

  lemma TailText(init: seq<byte>, b: seq<byte>, text: seq<byte>, offset: nat, t: seq<byte>)
    requires |text| == |init| + offset && offset + |t| <= |b| && (init + b)[..|text|] == text
    ensures var whole := init + Splice(b, offset, t);
            whole[..|text|] == text && whole[..|text + t|] == text + t
  {
    var w, whole := init + b, init + Splice(b, offset, t);
    SpliceTail(init, b, offset, t);
    SpliceExtends(w, text, t);
    assert whole[..|text|] == whole[..|text + t|][..|text|] == (text + t)[..|text|];
  }

  lemma TailBytes(g: Geo, r: seq<Sector>, r': seq<Sector>, ch: seq<nat>, c: nat, text: seq<byte>, offset: nat, t: seq<byte>)
    requires ch != [] && c == ch[|ch| - 1] && SameOutside(g, r, r', c) && Holds(g, r, ch, text)
    requires (forall i :: 0 <= i < |ch| ==> ch[i] >= 2) && forall a, b :: 0 <= a < b < |ch| ==> ch[a] != ch[b]
    requires |text| == Start(g, ch) + offset && offset + |t| <= g.BytesPerCluster()
    requires ClusterBytes(g, r', c) == Splice(ClusterBytes(g, r, c), offset, t)
    ensures Holds(g, r', ch, text + t) && Holds(g, r', ch, text)
  {
    ChainSplit(g, r, r', ch, c);
    StartEnd(g, ch);
    var init, b := ChainBytes(g, r, ch[..|ch| - 1]), ClusterBytes(g, r, c);
    assert |init| == Start(g, ch);
    assert ChainBytes(g, r, ch)[..|text|] == text;
    hide ChainBytes, ClusterBytes, Splice, SameOutside, Start, Geo.BytesPerCluster;
    TailText(init, b, text, offset, t);
    assert |text + t| == |text| + |t|;
  }

  /** Bytes in the clusters before the last one. */
  function Start(g: Geo, ch: seq<nat>): nat
    requires ch != []
  {
    (|ch| - 1) * g.BytesPerCluster()
  }

  lemma StartEnd(g: Geo, ch: seq<nat>)
    requires ch != []
    ensures Start(g, ch) + g.BytesPerCluster() == |ch| * g.BytesPerCluster()
  {
    assert |ch| == (|ch| - 1) + 1;
    assert (|ch| - 1) * g.BytesPerCluster() + g.BytesPerCluster() == |ch| * g.BytesPerCluster();
  }

  /** Item k shows the same while its chain starts alike up to the size on record. */
  lemma SameItem(g: Geo, r: seq<Sector>, r': seq<Sector>, a: map<int, seq<nat>>, b: map<int, seq<nat>>, k: int, e: Slot, text: seq<byte>)
    requires k in a && k in b && Holds(g, r, a[k], text) && Holds(g, r', b[k], text) && SizeOf(e) <= |text|
    ensures ItemAt(g, r', b, k, e) == ItemAt(g, r, a, k, e)
  {
    var x, y, s := ChainBytes(g, r, a[k]), ChainBytes(g, r', b[k]), SizeOf(e) as nat;
    hide ChainBytes, SizeOf, Geo.BytesPerCluster;
    assert x[..s] == x[..|text|][..s] && y[..s] == y[..|text|][..s];
  }

  lemma OneItemLeft(a: seq<Item>, b: seq<Item>, k: nat)
    requires SameItemsBut(a, b, k) && k < |a| && a[k] == b[k]
    ensures a == b
  {
  }

  ghost predicate TailSpot(g: Geo, ch: seq<nat>, text: seq<byte>, s: nat, o: nat, t: seq<byte>) {
    ch != [] && s < g.spc && o + |t| <= SECTOR_SIZE && |text| == Start(g, ch) + (SECTOR_SIZE * s + o)
  }

  lemma SpotFits(g: Geo, s: nat, o: nat, t: seq<byte>)
    requires s < g.spc && o + |t| <= SECTOR_SIZE
    ensures SECTOR_SIZE * s + o + |t| <= g.BytesPerCluster()
  {
  }

  lemma ClusterSplice(g: Geo, d: seq<Sector>, c: nat, s: nat, o: nat, t: seq<byte>, lba: nat)
    requires Fits(g, d) && 2 <= c < g.MaxCluster() && s < g.spc && o + |t| <= SECTOR_SIZE && lba == g.ClusterToLba(c) + s
    ensures lba < |d| && lba < 0x1000_0000 && SECTOR_SIZE * s + o + |t| <= g.BytesPerCluster()
    ensures var d' := d[lba := Splice(d[lba], o, t)];
            && DataOnly(g, d, d', c) && SameOutside(g, Rest(g, d), Rest(g, d'), c)
            && ClusterBytes(g, Rest(g, d'), c) == Splice(ClusterBytes(g, Rest(g, d), c), SECTOR_SIZE * s + o, t)
  {
    hide CopiesAgree, Fat, Rest, ClusterBytes, SameOutside, Splice, Geo.MaxCluster, Geo.ClusterToLba, Fits;
    SectorBytes(g, d, c, s);
    DataOnlySelf(g, d, c);
    SpotFits(g, s, o, t);
    DataWrite(g, d, d, c, s, Splice(d[lba], o, t));
    SpliceNested(ClusterBytes(g, Rest(g, d), c), SECTOR_SIZE * s, d[lba], o, t);
  }

  lemma TailHolds(g: Geo, d: seq<Sector>, m: Meta, k: nat, text: seq<byte>, c: nat, s: nat, o: nat, t: seq<byte>, lba: nat)
    requires Sound(g, d, m, {}) && k in m.chains && Holds(g, Rest(g, d), m.chains[k], text)
    requires TailSpot(g, m.chains[k], text, s, o, t) && c == Last(m.chains[k]) && lba == g.ClusterToLba(c) + s
    ensures lba < |d| && lba < 0x1000_0000 && DataOnly(g, d, d[lba := Splice(d[lba], o, t)], c)
    ensures var r' := Rest(g, d[lba := Splice(d[lba], o, t)]);
            Holds(g, r', m.chains[k], text) && Holds(g, r', m.chains[k], text + t)
  {
    hide ChainsWf, DirWf, ForeignIs, Holds, CopiesAgree, Fat, Rest, ClusterBytes, SameOutside, Splice, OnlyOn, DataOnly, Start;
    hide Geo.MaxCluster, Geo.ClusterToLba, Geo.DataStart, Geo.BytesPerCluster;
    TailCluster(g, d, m, {}, k);
    var ch := m.chains[k];
    ClusterSplice(g, d, c, s, o, t, lba);
    TailBytes(g, Rest(g, d), Rest(g, d[lba := Splice(d[lba], o, t)]), ch, c, text, SECTOR_SIZE * s + o, t);
  }

  /** A write in the last cluster that keeps the text keeps everything else as well. */
  lemma TailView(g: Geo, d0: seq<Sector>, m0: Meta, d: seq<Sector>, d': seq<Sector>, m: Meta, k: nat, n: seq<byte>,
                 text: seq<byte>, c: nat, t: seq<byte>)
    requires Growing(g, d0, m0, d, m, k, n, text) && c == Last(m.chains[k]) && DataOnly(g, d, d', c)
    requires Holds(g, Rest(g, d'), m.chains[k], text) && Holds(g, Rest(g, d'), m.chains[k], text + t)
    ensures Growing(g, d0, m0, d', m, k, n, text + t)
  {
    TailCluster(g, d, m, {}, k);
    DataWritten(g, d, d', m, {}, c, k);
    var a, b, e := Listing(g, d, m), Listing(g, d', m), Dir(g, d, m)[k];
    assert a[k] == ItemAt(g, Rest(g, d), m.chains, k, e) && b[k] == ItemAt(g, Rest(g, d'), m.chains, k, e);
    assert SizeOf(e) <= |text| <= |text + t| && CopiesAgree(g, d');
    SameItem(g, Rest(g, d), Rest(g, d'), m.chains, m.chains, k, e, text);
    OneItemLeft(a, b, k);
    hide Dir, CopiesAgree, Sound, Fat, Rest, EntryAt, RootChain, Holds, DataOnly, OnlyOn, SameOutside, ItemAt, Listing, SizeOf;
  }

  /** Writing t behind the text, in the last cluster, extends the text by t. */
  lemma TailWrite(g: Geo, d0: seq<Sector>, m0: Meta, d: seq<Sector>, m: Meta, k: nat, n: seq<byte>, text: seq<byte>,
                  c: nat, s: nat, o: nat, t: seq<byte>, lba: nat)
    requires Growing(g, d0, m0, d, m, k, n, text) && TailSpot(g, m.chains[k], text, s, o, t)
    requires c == Last(m.chains[k]) && lba == g.ClusterToLba(c) + s
    ensures lba < |d| && lba < 0x1000_0000 && DataOnly(g, d, d[lba := Splice(d[lba], o, t)], c)
    ensures Growing(g, d0, m0, d[lba := Splice(d[lba], o, t)], m, k, n, text + t)
  {
    assert Sound(g, d, m, {}) && k in m.chains && Holds(g, Rest(g, d), m.chains[k], text);
    hide *;
    TailHolds(g, d, m, k, text, c, s, o, t, lba);
    TailView(g, d0, m0, d, d[lba := Splice(d[lba], o, t)], m, k, n, text, c, t);
  }

  // ----- one more cluster -----------------------------------------------------------------------------

  lemma SnocHolds(g: Geo, r: seq<Sector>, r': seq<Sector>, ch: seq<nat>, c: nat, text: seq<byte>, t: seq<byte>)
    requires c >= 2 && c !in ch && SameOutside(g, r, r', c) && Holds(g, r, ch, text) && |text| == |ch| * g.BytesPerCluster()
    requires forall i :: 0 <= i < |ch| ==> ch[i] >= 2
    requires |t| <= g.BytesPerCluster() && ClusterBytes(g, r', c) == Padded(t, g.BytesPerCluster())
    ensures Holds(g, r', ch, text) && Holds(g, r', ch + [c], text) && Holds(g, r', ch + [c], text + t)
  {
    ChainUntouched(g, r, r', c, ch);
    ChainSnoc(g, r', ch, c);
    StartEnd(g, ch + [c]);
    PaddedStart(t, g.BytesPerCluster());
    var a, b := ChainBytes(g, r', ch), Padded(t, g.BytesPerCluster());
    assert a == text && |ch + [c]| - 1 == |ch|;
    assert Start(g, ch + [c]) == |text|;
    hide ChainBytes, ClusterBytes, SameOutside, Padded, Geo.BytesPerCluster, Start;
    assert (a + b)[..|text|] == text && (a + b)[..|text + t|] == text + b[..|t|];
  }

  /** A longer chain still covers the size on record. */
  lemma LongerChain(bpc: nat, dir: seq<Slot>, chains: map<int, seq<nat>>, k: nat, c: nat)
    requires DirWf(bpc, dir, chains) && k in chains && chains[k] != []
    ensures DirWf(bpc, dir, chains[k := chains[k] + [c]])
  {
    var ch, chains' := chains[k], chains[k := chains[k] + [c]];
    assert Head(ch + [c]) == Head(ch);
    assert |ch + [c]| * bpc == |ch| * bpc + bpc;
    assert chains'[k] == ch + [c];
    hide FirstOf, SizeOf, NameOf, Live;
  }

  ghost predicate Linked(g: Geo, d: seq<Sector>, d': seq<Sector>, m: Meta, k: nat, c: nat) {
    && Fits(g, d) && Fits(g, d') && Rest(g, d') == Rest(g, d) && k in m.chains && m.chains[k] != []
    && Last(m.chains[k]) < g.MaxCluster() && Fat(g, d') == Fat(g, d)[Last(m.chains[k]) := c]
    && (CopiesAgree(g, d) ==> CopiesAgree(g, d'))
  }

  lemma LinkDir(g: Geo, d: seq<Sector>, d': seq<Sector>, m: Meta, k: nat, c: nat)
    requires Fits(g, d) && Fits(g, d') && Rest(g, d') == Rest(g, d) && k in m.chains
    requires c < |m.own| && m.own[c] == Free && ForeignIs(g, m.own)
    ensures ForeignIs(g, Extended(m, k, c).own) && SameButAt(m.chains, Extended(m, k, c).chains, k)
    ensures Dir(g, d', Extended(m, k, c)) == Dir(g, d, m) && RootChain(Extended(m, k, c)) == RootChain(m)
  {
    hide Rest, Fat, DirSlots, DirIndex, Geo.Valid, Geo.DataStart;
  }

  lemma LinkSound(g: Geo, d: seq<Sector>, d': seq<Sector>, m: Meta, k: nat, c: nat)
    requires Sound(g, d, m, {c}) && Linked(g, d, d', m, k, c)
    requires 2 <= c < g.MaxCluster() && c < |m.own| && m.own[c] == Free && Fat(g, d)[c] >= EOC
    ensures Sound(g, d', Extended(m, k, c), {})
    ensures Dir(g, d', Extended(m, k, c)) == Dir(g, d, m) && RootChain(Extended(m, k, c)) == RootChain(m)
    ensures SameButAt(m.chains, Extended(m, k, c).chains, k)
  {
    hide ChainsWf, DirWf, Rest, Fat, CopiesAgree, Dir, RootChain, ForeignIs, SameButAt, Geo.BytesPerCluster, Geo.MaxCluster, Geo.DataStart;
    ClusterLimit(g);
    LinkDir(g, d, d', m, k, c);
    LinkMarked(Fat(g, d), m, k, c);
    LongerChain(g.BytesPerCluster(), Dir(g, d, m), m.chains, k, c);
  }

  lemma LinkListing(g: Geo, d: seq<Sector>, d': seq<Sector>, m: Meta, m': Meta, k: nat, text: seq<byte>)
    requires Fits(g, d) && Fits(g, d') && Rest(g, d') == Rest(g, d) && Dir(g, d', m') == Dir(g, d, m)
    requires SameButAt(m.chains, m'.chains, k) && k in m.chains && k in m'.chains && k < |Dir(g, d, m)|
    requires Holds(g, Rest(g, d), m.chains[k], text) && Holds(g, Rest(g, d), m'.chains[k], text)
    requires SizeOf(Dir(g, d, m)[k]) <= |text|
    ensures Listing(g, d', m') == Listing(g, d, m)
  {
    hide Dir, Rest, ChainBytes, Holds, SizeOf;
    var a, b, r, e := Listing(g, d, m), Listing(g, d', m'), Rest(g, d), Dir(g, d, m)[k];
    SameItem(g, r, r, m.chains, m'.chains, k, e, text);
    forall j | 0 <= j < |a|
      ensures b[j] == a[j]
    {
    }
  }

  lemma SizeWithin(g: Geo, d: seq<Sector>, m: Meta, leak: set<nat>, k: nat)
    requires Sound(g, d, m, leak) && k in m.chains
    ensures k < |Dir(g, d, m)| && SizeOf(Dir(g, d, m)[k]) <= |m.chains[k]| * g.BytesPerCluster()
  {
  }

  /** Taking a free cluster behind a full chain and linking it extends the text. */
  lemma GrowChain(g: Geo, d0: seq<Sector>, m0: Meta, d: seq<Sector>, d1: seq<Sector>, d2: seq<Sector>, m: Meta,
                  k: nat, n: seq<byte>, text: seq<byte>, c: nat, t: seq<byte>)
    requires Growing(g, d0, m0, d, m, k, n, text) && |text| == |m.chains[k]| * g.BytesPerCluster()
    requires Taken(g, d, d1, m, c, t) && |t| <= g.BytesPerCluster() && Linked(g, d1, d2, m, k, c)
    ensures c < |m.own| && Growing(g, d0, m0, d2, Extended(m, k, c), k, n, text + t)
  {
    hide Dir, CopiesAgree, Sound, Fat, Rest, EntryAt, RootChain, Holds, SameOutside, Listing, SizeOf, ClusterBytes, Padded, Fits, Geo.MaxCluster, Geo.BytesPerCluster;
    TailCluster(g, d, m, {}, k);
    SizeWithin(g, d, m, {}, k);
    var ch, m' := m.chains[k], Extended(m, k, c);
    assert OnlyOn(m, c, -2) && c !in ch;
    SnocHolds(g, Rest(g, d), Rest(g, d1), ch, c, text, t);
    LinkSound(g, d1, d2, m, k, c);
    assert m'.chains[k] == ch + [c];
    LinkListing(g, d1, d2, m, m', k, text);
  }

  // ----- the method, piece by piece -------------------------------------------------------------

  /** The size on record reaches into the last cluster of the chain. */
  predicate Snug(g: Geo, ch: seq<nat>, size: nat)
    requires ch != []
  {
    |ch| == 1 || Start(g, ch) < size
  }

  function Bytes(g: Geo, i: nat): nat {
    i * g.BytesPerCluster()
  }

  lemma BytesStep(g: Geo, i: nat)
    ensures Bytes(g, i + 1) == Bytes(g, i) + g.BytesPerCluster()
  {
  }

  lemma BytesBefore(g: Geo, i: nat, n: nat)
    requires i < n
    ensures Bytes(g, i) + g.BytesPerCluster() <= Bytes(g, n)
  {
    StepFits(i, n, g.BytesPerCluster());
  }

  lemma WalkFacts(g: Geo, d: seq<Sector>, m: Meta, k: nat, first: nat, size: nat)
    requires Sound(g, d, m, {}) && k in m.chains && first == Head(m.chains[k])
    ensures var ch := m.chains[k];
            && Fits(g, d) && g.BytesPerCluster() > 0 && size == Bytes(g, 0) + size && ch != [] && first == ch[0]
            && Last(ch) == ch[|ch| - 1] && Fat(g, d)[Last(ch)] >= EOC && |Fat(g, d)| == g.MaxCluster() <= EOC
            && (forall i :: 0 <= i < |ch| ==> 2 <= ch[i] < g.MaxCluster())
            && (forall i {:trigger Fat(g, d)[ch[i]]} :: 0 <= i < |ch| - 1 ==> Fat(g, d)[ch[i]] == ch[i + 1])
  {
    TailCluster(g, d, m, {}, k);
  }

  /** Where the walk stops tells whether it stopped at the end of the chain. */
  lemma SnugIs(g: Geo, ch: seq<nat>, size: nat, i: nat, offset: nat)
    requires i < |ch| && size == Bytes(g, i) + offset && offset <= g.BytesPerCluster() && (i > 0 ==> offset > 0)
    ensures Snug(g, ch, size) <==> i == |ch| - 1
    ensures i == |ch| - 1 ==> size == Start(g, ch) + offset
  {
    assert Start(g, ch) == Bytes(g, |ch| - 1);
    if i < |ch| - 1 {
      BytesBefore(g, i, |ch| - 1);
    }
  }

  /** Walks to the cluster that holds the end of the file, which must end the chain. */
  method FindTail(v: Volume, first: nat, size: nat, ghost k: nat) returns (ok: bool, cluster: nat, offset: nat)
    requires Sound(v.g, v.disk, v.meta, {}) && k in v.meta.chains && first == Head(v.meta.chains[k])
    requires size <= Bytes(v.g, |v.meta.chains[k]|)
    modifies v`sector
    ensures v.meta.chains[k] != [] && (ok <==> Snug(v.g, v.meta.chains[k], size))
    ensures ok ==> cluster == Last(v.meta.chains[k]) && size == Start(v.g, v.meta.chains[k]) + offset
    ensures ok ==> offset <= v.g.BytesPerCluster()
  {
    hide *;
    ghost var ch, i := v.meta.chains[k], 0;
    WalkFacts(v.g, v.disk, v.meta, k, first, size);
    ok, cluster, offset := true, first, size;
    while offset > v.g.BytesPerCluster()
      invariant 0 <= i < |ch| && cluster == ch[i] && size == Bytes(v.g, i) + offset && (i > 0 ==> offset > 0)
      decreases offset
    {
      BytesBefore(v.g, i, |ch|);
      BytesStep(v.g, i);
      var next := v.NextCluster(cluster);
      if next >= EOC {
        ok := false;
        return;
      }
      cluster := next;
      offset := offset - v.g.BytesPerCluster();
      i := i + 1;
    }
    SnugIs(v.g, ch, size, i, offset);
    var okRead, tailNext := v.ReadFatEntry(cluster);
    if !okRead || tailNext < EOC {
      ok := false;
    }
  }

  lemma GrowingSafe(g: Geo, d0: seq<Sector>, m0: Meta, d: seq<Sector>, m: Meta, k: nat, n: seq<byte>, text: seq<byte>)
    requires Growing(g, d0, m0, d, m, k, n, text)
    ensures Fits(g, d0) && Fits(g, d) && Safe(g, Snap(d, m, {}), Files(g, d0, m0))
  {
    hide ChainsWf, DirWf, Dir, Listing, CopiesAgree, Fat, Rest, Holds;
  }

  lemma SafeOne(g: Geo, was: seq<Snap>, log: seq<Snap>, files: map<Text, Text>, s: Snap)
    requires AllSafe(g, was, log, files) && Safe(g, s, files)
    ensures AllSafe(g, was, log + [s], files)
  {
    hide Safe;
    assert (log + [s])[..|was|] == log[..|was|];
  }

  /** Somewhere in an append, every sector write so far having left a safe disk. */
  ghost predicate InAppend(g: Geo, d0: seq<Sector>, m0: Meta, d: seq<Sector>, m: Meta, k: nat, n: seq<byte>, text: seq<byte>,
                           was: seq<Snap>, log: seq<Snap>) {
    g.spc > 0 && Fits(g, d0) && Growing(g, d0, m0, d, m, k, n, text) && AllSafe(g, was, log, Files(g, d0, m0))
  }

  /** Bytes left in the sector that holds byte `at` of a cluster. */
  function Available(at: nat): (r: nat)
    ensures 0 < r <= SECTOR_SIZE
  {
    SECTOR_SIZE - at % SECTOR_SIZE
  }

  /** Byte `at` of cluster c, the last of chain k, is byte `length` of the chain. */
  ghost predicate TailAt(g: Geo, m: Meta, k: nat, c: nat, length: nat, at: nat) {
    k in m.chains && m.chains[k] != [] && c == Last(m.chains[k]) && length == Start(g, m.chains[k]) + at && g.spc > 0
  }

  lemma SpotIs(g: Geo, d0: seq<Sector>, m0: Meta, d: seq<Sector>, m: Meta, k: nat, n: seq<byte>, c: nat, text: seq<byte>,
               offset: nat, chunk: seq<byte>, was: seq<Snap>, log: seq<Snap>)
    requires InAppend(g, d0, m0, d, m, k, n, text, was, log) && TailAt(g, m, k, c, |text|, offset)
    requires offset < g.BytesPerCluster() && |chunk| <= Available(offset)
    ensures k in m.chains && c == Last(m.chains[k]) && g.spc > 0 && Fits(g, d0) && Fits(g, d)
    ensures TailSpot(g, m.chains[k], text, offset / SECTOR_SIZE, offset % SECTOR_SIZE, chunk) && offset % SECTOR_SIZE + |chunk| <= SECTOR_SIZE
    ensures Growing(g, d0, m0, d, m, k, n, text) && AllSafe(g, was, log, Files(g, d0, m0))
  {
    hide AllSafe, Files, Start, ChainsWf, DirWf, Dir, Listing, CopiesAgree, Fat, Rest, Holds;
    assert offset == SECTOR_SIZE * (offset / SECTOR_SIZE) + offset % SECTOR_SIZE;
  }

  /** One pass of the loop that fills the last cluster. */
  method FillTailSector(v: Volume, cluster: nat, offset: nat, chunk: seq<byte>, ghost d0: seq<Sector>, ghost m0: Meta,
                        ghost k: nat, ghost n: seq<byte>, ghost text: seq<byte>, ghost was: seq<Snap>) returns (ok: bool)
    requires InAppend(v.g, d0, m0, v.disk, v.meta, k, n, text, was, v.log) && TailAt(v.g, v.meta, k, cluster, |text|, offset)
    requires offset < v.g.BytesPerCluster() && |chunk| <= Available(offset)
    modifies v`disk, v`sector, v`log
    ensures v.g.spc > 0 && ok && InAppend(v.g, d0, m0, v.disk, v.meta, k, n, text + chunk, was, v.log)
    ensures Fat(v.g, v.disk) == Fat(v.g, old(v.disk))
  {
    hide *;
    var sectorIndex, byteOffset := offset / SECTOR_SIZE, offset % SECTOR_SIZE;
    SpotIs(v.g, d0, m0, v.disk, v.meta, k, n, cluster, text, offset, chunk, was, v.log);
    var lba := v.g.ClusterToLba(cluster) + sectorIndex;
    TailWrite(v.g, d0, m0, v.disk, v.meta, k, n, text, cluster, sectorIndex, byteOffset, chunk, lba);
    ok := v.AtaRead(lba);
    if !ok {
      return;
    }
    v.sector := Splice(v.sector, byteOffset, chunk);
    ghost var log, d := v.log, v.disk;
    ok := v.AtaWrite(lba, v.meta, {});
    DataFits(v.g, d, v.disk, cluster);
    SectorFilled(v.g, d0, m0, v.disk, v.meta, k, n, text + chunk, was, log);
  }

  lemma SectorFilled(g: Geo, d0: seq<Sector>, m0: Meta, d: seq<Sector>, m: Meta, k: nat, n: seq<byte>, text: seq<byte>,
                     was: seq<Snap>, log: seq<Snap>)
    requires Fits(g, d0) && Growing(g, d0, m0, d, m, k, n, text) && AllSafe(g, was, log, Files(g, d0, m0)) && g.spc > 0
    ensures InAppend(g, d0, m0, d, m, k, n, text, was, log + [Snap(d, m, {})])
  {
    hide Growing, AllSafe, Safe, Files, Fits;
    GrowingSafe(g, d0, m0, d, m, k, n, text);
    SafeOne(g, was, log, Files(g, d0, m0), Snap(d, m, {}));
  }

  /** The text with the first n bytes of the buffer behind it. */
  function Plus(text: seq<byte>, buffer: seq<byte>, n: nat): seq<byte>
    requires n <= |buffer|
  {
    text + buffer[..n]
  }

  lemma TakeMore(text: seq<byte>, buffer: seq<byte>, a: nat, n: nat)
    requires a + n <= |buffer|
    ensures Plus(text, buffer, a) + buffer[a..a + n] == Plus(text, buffer, a + n)
    ensures |Plus(text, buffer, a)| == |text| + a
  {
  }

  lemma PlusNothing(text: seq<byte>, buffer: seq<byte>)
    ensures Plus(text, buffer, 0) == text
  {
  }

  lemma BytesStart(g: Geo, ch: seq<nat>)
    requires ch != []
    ensures Bytes(g, |ch|) == Start(g, ch) + g.BytesPerCluster()
  {
    BytesStep(g, |ch| - 1);
  }

  /** Fills the last cluster as far as it and the buffer go. */
  method FillTail(v: Volume, cluster: nat, offset: nat, buffer: seq<byte>, ghost d0: seq<Sector>, ghost m0: Meta,
                  ghost k: nat, ghost n: seq<byte>, ghost text: seq<byte>, ghost was: seq<Snap>) returns (ok: bool, written: nat)
    requires InAppend(v.g, d0, m0, v.disk, v.meta, k, n, text, was, v.log) && TailAt(v.g, v.meta, k, cluster, |text|, offset)
    requires offset <= v.g.BytesPerCluster()
    modifies v`disk, v`sector, v`log
    ensures ok && written <= |buffer| && InAppend(v.g, d0, m0, v.disk, v.meta, k, n, Plus(text, buffer, written), was, v.log)
    ensures offset + written <= v.g.BytesPerCluster() && (written < |buffer| ==> offset + written == v.g.BytesPerCluster())
    ensures v.g.spc > 0 && Fat(v.g, v.disk) == Fat(v.g, old(v.disk))
  {
    hide *;
    var at := offset;
    written := 0;
    FilledSome(v.g, d0, m0, v.disk, v.meta, k, n, text, buffer, was, v.log, cluster, offset);
    while written < |buffer| && at < v.g.BytesPerCluster()
      invariant written <= |buffer| && at == offset + written <= v.g.BytesPerCluster()
      invariant FillingTail(v.g, d0, m0, old(v.disk), v.disk, v.meta, k, n, text, buffer, written, was, v.log, cluster, at)
    {
      var toCopy;
      ok, toCopy := FillTailStep(v, cluster, at, buffer, written, old(v.disk), d0, m0, k, n, text, was);
      if !ok {
        return;
      }
      written := written + toCopy;
      at := at + toCopy;
    }
    FilledEnds(v.g, d0, m0, old(v.disk), v.disk, v.meta, k, n, text, buffer, written, was, v.log, cluster, at);
    ok := true;
  }

  /** Between two passes of the loop that fills the last cluster. */
  ghost predicate FillingTail(g: Geo, d0: seq<Sector>, m0: Meta, start: seq<Sector>, d: seq<Sector>, m: Meta, k: nat,
                              n: seq<byte>, text: seq<byte>, buffer: seq<byte>, written: nat, was: seq<Snap>, log: seq<Snap>,
                              c: nat, at: nat) {
    && written <= |buffer| && InAppend(g, d0, m0, d, m, k, n, Plus(text, buffer, written), was, log)
    && TailAt(g, m, k, c, |text| + written, at) && Fat(g, d) == Fat(g, start)
  }

  lemma FilledSome(g: Geo, d0: seq<Sector>, m0: Meta, d: seq<Sector>, m: Meta, k: nat, n: seq<byte>, text: seq<byte>,
                   buffer: seq<byte>, was: seq<Snap>, log: seq<Snap>, c: nat, at: nat)
    requires InAppend(g, d0, m0, d, m, k, n, text, was, log) && TailAt(g, m, k, c, |text|, at)
    ensures FillingTail(g, d0, m0, d, d, m, k, n, text, buffer, 0, was, log, c, at)
  {
    PlusNothing(text, buffer);
    hide InAppend, Plus, Fat;
  }

  lemma FilledEnds(g: Geo, d0: seq<Sector>, m0: Meta, start: seq<Sector>, d: seq<Sector>, m: Meta, k: nat, n: seq<byte>,
                   text: seq<byte>, buffer: seq<byte>, written: nat, was: seq<Snap>, log: seq<Snap>, c: nat, at: nat)
    requires FillingTail(g, d0, m0, start, d, m, k, n, text, buffer, written, was, log, c, at)
    ensures written <= |buffer| && InAppend(g, d0, m0, d, m, k, n, Plus(text, buffer, written), was, log)
    ensures g.spc > 0 && Fat(g, d) == Fat(g, start)
  {
    hide InAppend, Plus, Fat;
  }

  /** Copies as much as the sector and the buffer allow. */
  method FillTailStep(v: Volume, cluster: nat, at: nat, buffer: seq<byte>, written: nat, ghost start: seq<Sector>,
                      ghost d0: seq<Sector>, ghost m0: Meta, ghost k: nat, ghost n: seq<byte>, ghost text: seq<byte>,
                      ghost was: seq<Snap>)
    returns (ok: bool, toCopy: nat)
    requires FillingTail(v.g, d0, m0, start, v.disk, v.meta, k, n, text, buffer, written, was, v.log, cluster, at)
    requires written < |buffer| && at < v.g.BytesPerCluster()
    modifies v`disk, v`sector, v`log
    ensures ok && 0 < toCopy <= |buffer| - written && at + toCopy <= v.g.BytesPerCluster()
    ensures FillingTail(v.g, d0, m0, start, v.disk, v.meta, k, n, text, buffer, written + toCopy, was, v.log, cluster, at + toCopy)
  {
    hide InAppend, Plus, Fat, Geo.BytesPerCluster, Available, Start, Last;
    var available, remaining := Available(at), |buffer| - written;
    toCopy := if available < remaining then available else remaining;
    SectorEdge(v.g, at);
    TakeMore(text, buffer, written, toCopy);
    ok := FillTailSector(v, cluster, at, buffer[written..written + toCopy], d0, m0, k, n, Plus(text, buffer, written), was);
  }

  lemma SectorEdge(g: Geo, at: nat)
    requires at < g.BytesPerCluster()
    ensures at + Available(at) <= g.BytesPerCluster()
  {
    assert at == SECTOR_SIZE * (at / SECTOR_SIZE) + at % SECTOR_SIZE;
    assert at / SECTOR_SIZE < g.spc;
  }

  lemma HasFreeCount(g: Geo, d: seq<Sector>)
    requires Fits(g, d)
    ensures HasFree(g, d) <==> FreeCount(Fat(g, d)) > 0
  {
    FreeCountZero(Fat(g, d));
  }

  /** Taking one cluster and linking it uses up one free cluster. */
  lemma OneTaken(g: Geo, d: seq<Sector>, d1: seq<Sector>, d2: seq<Sector>, m: Meta, k: nat, c: nat, t: seq<byte>)
    requires Sound(g, d, m, {}) && k in m.chains && Taken(g, d, d1, m, c, t) && Linked(g, d1, d2, m, k, c)
    ensures FreeCount(Fat(g, d2)) + 1 == FreeCount(Fat(g, d))
  {
    TailCluster(g, d, m, {}, k);
    var f, f1, tail := Fat(g, d), Fat(g, d1), Last(m.chains[k]);
    assert f1 == f[c := EOC_MARK] && Fat(g, d2) == f1[tail := c] && f[c] == 0 && f[tail] >= EOC && c >= 2;
    hide *;
    FreeCountUpdate(f, c, EOC_MARK);
    FreeCountUpdate(f1, tail, c);
  }

  /** What the view of a disk was before a FAT write, told through the write's contract. */
  lemma LinkedIs(g: Geo, d: seq<Sector>, d': seq<Sector>, m: Meta, k: nat, c: nat)
    requires Fits(g, d) && |d'| == |d| && k in m.chains && m.chains[k] != [] && Last(m.chains[k]) < g.MaxCluster()
    requires Fat(g, d') == Fat(g, d)[Last(m.chains[k]) := c] && Rest(g, d') == Rest(g, d)
    requires CopiesAgree(g, d) ==> CopiesAgree(g, d')
    ensures Linked(g, d, d', m, k, c)
  {
  }

  /** The FAT write that links a cluster logs disks on which the longer chain is in place. */
  lemma LinkLogged(g: Geo, d0: seq<Sector>, m0: Meta, d: seq<Sector>, m: Meta, k: nat, n: seq<byte>, text: seq<byte>,
                   was: seq<Snap>, log0: seq<Snap>, log: seq<Snap>)
    requires Fits(g, d0) && AllSafe(g, was, log0, Files(g, d0, m0)) && LogGrew(g, log0, log, d, m, {})
    requires Growing(g, d0, m0, d, m, k, n, text)
    ensures InAppend(g, d0, m0, d, m, k, n, text, was, log)
  {
    GrowingSafe(g, d0, m0, d, m, k, n, text);
    assert Sound(g, d, m, {}) && Files(g, d, m) == Files(g, d0, m0);
    hide Growing, AllSafe, LogGrew, Files, Sound, Safe;
    SafeView(g, was, log0, log, d, m, {}, Files(g, d0, m0));
  }

  lemma AppendFacts(g: Geo, d0: seq<Sector>, m0: Meta, d: seq<Sector>, m: Meta, k: nat, n: seq<byte>, text: seq<byte>,
                    was: seq<Snap>, log: seq<Snap>)
    requires InAppend(g, d0, m0, d, m, k, n, text, was, log)
    ensures Sound(g, d, m, {}) && CopiesAgree(g, d) && Fits(g, d) && k in m.chains && |m.own| == g.MaxCluster()
    ensures m.chains[k] != [] && 2 <= Last(m.chains[k]) < g.MaxCluster() && Fits(g, d0)
    ensures Files(g, d, m) == Files(g, d0, m0) && Growing(g, d0, m0, d, m, k, n, text)
    ensures AllSafe(g, was, log, Files(g, d0, m0))
  {
    TailCluster(g, d, m, {}, k);
    hide ChainsWf, DirWf, Dir, Listing, Fat, Rest, Holds, AllSafe;
  }

  lemma LogPrefix(g: Geo, was: seq<Snap>, log0: seq<Snap>, log: seq<Snap>, files: map<Text, Text>)
    requires AllSafe(g, was, log0, files) && AllSafe(g, log0, log, files)
    ensures AllSafe(g, was, log, files)
  {
    hide Safe;
    assert log[..|log0|][..|was|] == log[..|was|];
    forall i | |was| <= i < |log|
      ensures Safe(g, log[i], files)
    {
      if i < |log0| {
        assert log[..|log0|][i] == log[i];
      }
    }
  }

  /** Chain k ends in `tail` and `length` bytes fill it. */
  ghost predicate FullChain(g: Geo, m: Meta, k: nat, tail: nat, length: nat) {
    k in m.chains && m.chains[k] != [] && tail == Last(m.chains[k]) && length == Bytes(g, |m.chains[k]|) && g.spc > 0
  }

  /** Chain k is one cluster longer, ending in c, and one cluster fewer is free. */
  ghost predicate OneMore(g: Geo, d: seq<Sector>, m: Meta, d': seq<Sector>, m': Meta, k: nat, c: nat) {
    && g.spc > 0 && k in m.chains && k in m'.chains && m'.chains[k] != [] && c == Last(m'.chains[k])
    && |m'.chains[k]| == |m.chains[k]| + 1 && FreeCount(Fat(g, d')) + 1 == FreeCount(Fat(g, d))
  }

  /** One pass of the loop that adds clusters: fill, mark, link. */
  method AddCluster(v: Volume, cluster: nat, chunk: seq<byte>, ghost d0: seq<Sector>, ghost m0: Meta,
                    ghost k: nat, ghost n: seq<byte>, ghost text: seq<byte>, ghost was: seq<Snap>) returns (ok: bool, c: nat)
    requires InAppend(v.g, d0, m0, v.disk, v.meta, k, n, text, was, v.log)
    requires FullChain(v.g, v.meta, k, cluster, |text|) && |chunk| <= v.g.BytesPerCluster()
    modifies v
    ensures v.g.spc > 0 && (ok <==> FreeCount(Fat(v.g, old(v.disk))) > 0)
    ensures InAppend(v.g, d0, m0, v.disk, v.meta, k, n, if ok then text + chunk else text, was, v.log)
    ensures ok ==> OneMore(v.g, old(v.disk), old(v.meta), v.disk, v.meta, k, c)
  {
    hide InAppend, Growing, AllSafe, LogGrew, Files, Sound, Fat, HasFree, FreeCount, Taken, Linked, CopiesAgree, Rest;
    hide Geo.MaxCluster, Geo.DataStart, Geo.BytesPerCluster;
    ghost var d, m, log := v.disk, v.meta, v.log;
    AppendFacts(v.g, d0, m0, d, m, k, n, text, was, log);
    HasFreeCount(v.g, d);
    assert |text| == |m.chains[k]| * v.g.BytesPerCluster();
    ok, c := FillFreeCluster(v, chunk);
    if !ok {
      return;
    }
    ghost var d1, log1 := v.disk, v.log;
    TakenEnds(v.g, d, d1, m, c, chunk);
    ok := v.WriteFatEntry(cluster, c, Extended(m, k, c), {});
    v.meta := Extended(m, k, c);
    LinkedIs(v.g, d1, v.disk, m, k, c);
    ClusterAdded(v.g, d0, m0, d, d1, v.disk, m, k, n, text, c, chunk, was, log, log1, v.log);
  }

  lemma ClusterAdded(g: Geo, d0: seq<Sector>, m0: Meta, d: seq<Sector>, d1: seq<Sector>, d2: seq<Sector>, m: Meta, k: nat,
                     n: seq<byte>, text: seq<byte>, c: nat, t: seq<byte>, was: seq<Snap>, log0: seq<Snap>, log1: seq<Snap>,
                     log2: seq<Snap>)
    requires InAppend(g, d0, m0, d, m, k, n, text, was, log0) && |text| == |m.chains[k]| * g.BytesPerCluster()
    requires Taken(g, d, d1, m, c, t) && |t| <= g.BytesPerCluster() && Linked(g, d1, d2, m, k, c) && c < |m.own|
    requires Fits(g, d) && AllSafe(g, log0, log1, Files(g, d, m)) && LogGrew(g, log1, log2, d2, Extended(m, k, c), {})
    ensures InAppend(g, d0, m0, d2, Extended(m, k, c), k, n, text + t, was, log2)
    ensures OneMore(g, d, m, d2, Extended(m, k, c), k, c)
  {
    hide InAppend, Growing, AllSafe, LogGrew, Files, Sound, Fits, Fat, FreeCount, Taken, Linked, Geo.BytesPerCluster, Geo.MaxCluster;
    AppendFacts(g, d0, m0, d, m, k, n, text, was, log0);
    LogPrefix(g, was, log0, log1, Files(g, d0, m0));
    GrowChain(g, d0, m0, d, d1, d2, m, k, n, text, c, t);
    OneTaken(g, d, d1, d2, m, k, c, t);
    LinkLogged(g, d0, m0, d2, Extended(m, k, c), k, n, text + t, was, log1, log2);
  }

  lemma TakenEnds(g: Geo, d: seq<Sector>, d1: seq<Sector>, m: Meta, c: nat, t: seq<byte>)
    requires Taken(g, d, d1, m, c, t)
    ensures Fits(g, d1) && c < |m.own| && c < MASK28
  {
    ClusterLimit(g);
    hide DirWf, Dir, Listing, CopiesAgree, Rest, ClusterBytes, SameOutside, Padded, OnlyOn;
  }

  /** Between two passes of the loop that adds clusters: `done` bytes are written, the
      chain is full unless all are, and free clusters plus chain length make `cap`. */
  ghost predicate Adding(g: Geo, d0: seq<Sector>, m0: Meta, d: seq<Sector>, m: Meta, k: nat, n: seq<byte>, text: seq<byte>,
                         buffer: seq<byte>, done: nat, was: seq<Snap>, log: seq<Snap>, tail: nat, cap: nat) {
    && done <= |buffer| && InAppend(g, d0, m0, d, m, k, n, Plus(text, buffer, done), was, log)
    && k in m.chains && m.chains[k] != [] && tail == Last(m.chains[k])
    && |text| + done <= Bytes(g, |m.chains[k]|) && (done < |buffer| ==> |text| + done == Bytes(g, |m.chains[k]|))
    && FreeCount(Fat(g, d)) + |m.chains[k]| == cap
  }

  /** Adds one cluster with as much of the buffer as it takes. */
  method AddClusterStep(v: Volume, cluster: nat, buffer: seq<byte>, written: nat, ghost d0: seq<Sector>, ghost m0: Meta,
                        ghost k: nat, ghost n: seq<byte>, ghost text: seq<byte>, ghost was: seq<Snap>, ghost cap: nat)
    returns (ok: bool, c: nat, toCopy: nat)
    requires Adding(v.g, d0, m0, v.disk, v.meta, k, n, text, buffer, written, was, v.log, cluster, cap) && written < |buffer|
    modifies v
    ensures 0 < toCopy <= |buffer| - written
    ensures ok ==> Adding(v.g, d0, m0, v.disk, v.meta, k, n, text, buffer, written + toCopy, was, v.log, c, cap)
    ensures !ok ==> InAppend(v.g, d0, m0, v.disk, v.meta, k, n, Plus(text, buffer, written), was, v.log)
    ensures !ok ==> |text| + written == Bytes(v.g, cap)
  {
    var remaining := |buffer| - written;
    ghost var m, d, log := v.meta, v.disk, v.log;
    hide *;
    AddingOpens(v.g, d0, m0, d, m, k, n, text, buffer, written, was, v.log, cluster, cap);
    toCopy := if remaining > v.g.BytesPerCluster() then v.g.BytesPerCluster() else remaining;
    TakeMore(text, buffer, written, toCopy);
    ok, c := AddCluster(v, cluster, buffer[written..written + toCopy], d0, m0, k, n, Plus(text, buffer, written), was);
    if ok {
      AddingAgain(v.g, d0, m0, d, m, v.disk, v.meta, k, n, text, buffer, written, toCopy, was, log, v.log, cluster, c, cap);
    }
  }

  lemma AddingOpens(g: Geo, d0: seq<Sector>, m0: Meta, d: seq<Sector>, m: Meta, k: nat, n: seq<byte>, text: seq<byte>,
                    buffer: seq<byte>, done: nat, was: seq<Snap>, log: seq<Snap>, tail: nat, cap: nat)
    requires Adding(g, d0, m0, d, m, k, n, text, buffer, done, was, log, tail, cap) && done < |buffer|
    ensures InAppend(g, d0, m0, d, m, k, n, Plus(text, buffer, done), was, log) && g.BytesPerCluster() > 0 && g.spc > 0
    ensures FullChain(g, m, k, tail, |text| + done) && |Plus(text, buffer, done)| == |text| + done
    ensures FreeCount(Fat(g, d)) == 0 ==> |text| + done == Bytes(g, cap)
  {
    hide FreeCount, Fat, Growing, AllSafe, Bytes, Fits, Last;
    assert FreeCount(Fat(g, d)) + |m.chains[k]| == cap;
  }

  lemma AddingAgain(g: Geo, d0: seq<Sector>, m0: Meta, d: seq<Sector>, m: Meta, d': seq<Sector>, m': Meta, k: nat,
                    n: seq<byte>, text: seq<byte>, buffer: seq<byte>, done: nat, more: nat, was: seq<Snap>, log0: seq<Snap>,
                    log: seq<Snap>, tail: nat, tail': nat, cap: nat)
    requires done + more <= |buffer| && InAppend(g, d0, m0, d', m', k, n, Plus(text, buffer, done + more), was, log)
    requires Adding(g, d0, m0, d, m, k, n, text, buffer, done, was, log0, tail, cap) && done < |buffer|
    requires OneMore(g, d, m, d', m', k, tail')
    requires more <= g.BytesPerCluster() && (done + more < |buffer| ==> more == g.BytesPerCluster())
    ensures Adding(g, d0, m0, d', m', k, n, text, buffer, done + more, was, log, tail', cap)
  {
    hide InAppend, Bytes, FreeCount, Fat, Plus, Last, Geo.BytesPerCluster, Geo.Valid;
    BytesStep(g, |m.chains[k]|);
  }

  lemma AddingEnds(g: Geo, d0: seq<Sector>, m0: Meta, d: seq<Sector>, m: Meta, k: nat, n: seq<byte>, text: seq<byte>,
                   buffer: seq<byte>, done: nat, was: seq<Snap>, log: seq<Snap>, tail: nat, cap: nat)
    requires Adding(g, d0, m0, d, m, k, n, text, buffer, done, was, log, tail, cap)
    ensures done <= |buffer| && InAppend(g, d0, m0, d, m, k, n, Plus(text, buffer, done), was, log)
    ensures |text| + done <= Bytes(g, cap)
  {
    hide InAppend, FreeCount, Fat, Bytes, Plus, Last;
    BytesMonotone(g, |m.chains[k]|, cap);
  }

  /** Adds clusters until the buffer is written or no cluster is free. */
  method AddClusters(v: Volume, cluster: nat, buffer: seq<byte>, start: nat, ghost d0: seq<Sector>, ghost m0: Meta,
                     ghost k: nat, ghost n: seq<byte>, ghost text: seq<byte>, ghost was: seq<Snap>, ghost cap: nat)
    returns (ok: bool, ghost written: nat)
    requires Adding(v.g, d0, m0, v.disk, v.meta, k, n, text, buffer, start, was, v.log, cluster, cap)
    modifies v
    ensures written <= |buffer| && InAppend(v.g, d0, m0, v.disk, v.meta, k, n, Plus(text, buffer, written), was, v.log)
    ensures ok <==> |text| + |buffer| <= Bytes(v.g, cap)
    ensures ok ==> written == |buffer|
  {
    var tail, done := cluster, start;
    hide *;
    AddingEnds(v.g, d0, m0, v.disk, v.meta, k, n, text, buffer, done, was, v.log, tail, cap);
    while done < |buffer|
      invariant done <= |buffer| && Adding(v.g, d0, m0, v.disk, v.meta, k, n, text, buffer, done, was, v.log, tail, cap)
    {
      var toCopy, c;
      ok, c, toCopy := AddClusterStep(v, tail, buffer, done, d0, m0, k, n, text, was, cap);
      if !ok {
        return ok, done;
      }
      tail := c;
      done := done + toCopy;
    }
    AddingEnds(v.g, d0, m0, v.disk, v.meta, k, n, text, buffer, done, was, v.log, tail, cap);
    return true, done;
  }

  lemma BytesMonotone(g: Geo, i: nat, n: nat)
    requires i <= n
    ensures Bytes(g, i) <= Bytes(g, n)
  {
    if i < n {
      BytesBefore(g, i, n);
    }
  }

  // ----- fs_append_file -----------------------------------------------------------------------------

  /** The chain and the free clusters together take `total` bytes. */
  ghost predicate RoomLeft(g: Geo, d: seq<Sector>, m: Meta, k: nat, total: nat) {
    g.spc > 0 && k in m.chains && total <= Bytes(g, FreeCount(Fat(g, d)) + |m.chains[k]|)
  }

  /** Nothing stands in the way of appending `extra` bytes to the file of slot k: it has a
      cluster, its size still fits 32 bits and ends in its last cluster, and there is room. */
  ghost predicate AppendableSlot(g: Geo, d: seq<Sector>, m: Meta, k: nat, extra: nat)
    requires Fits(g, d)
  {
    && k in m.chains && m.chains[k] != [] && k < |Dir(g, d, m)|
    && SizeOf(Dir(g, d, m)[k]) + extra < 0x1_0000_0000 && Snug(g, m.chains[k], SizeOf(Dir(g, d, m)[k]))
    && RoomLeft(g, d, m, k, SizeOf(Dir(g, d, m)[k]) + extra)
  }

  ghost predicate Appendable(g: Geo, d: seq<Sector>, m: Meta, n: seq<byte>, extra: nat)
    requires Fits(g, d)
  {
    forall k: nat :: EntryAt(g, d, m, n, k) ==> AppendableSlot(g, d, m, k, extra)
  }

  lemma AppendableAt(g: Geo, d: seq<Sector>, m: Meta, n: seq<byte>, extra: nat, k: nat)
    requires EntryAt(g, d, m, n, k)
    ensures Fits(g, d) && (Appendable(g, d, m, n, extra) <==> AppendableSlot(g, d, m, k, extra))
  {
    OneEntry(g, d, m, n, k);
    hide EntryAt, AppendableSlot;
  }

  /** An append starts with the chain holding the file. */
  lemma StartGrowing(g: Geo, d: seq<Sector>, m: Meta, n: seq<byte>, k: nat, log: seq<Snap>) returns (text: seq<byte>)
    requires EntryAt(g, d, m, n, k) && k in m.chains
    ensures Fits(g, d) && n in Files(g, d, m) && Files(g, d, m)[n] == text && |text| == SizeOf(Dir(g, d, m)[k])
    ensures |text| <= Bytes(g, |m.chains[k]|) && m.chains[k] != []
    ensures InAppend(g, d, m, d, m, k, n, text, log, log)
  {
    hide Dir, Fat, Rest, ChainBytes, ChainsWf, DirWf, SizeOf, Listing;
    EntryFacts(g, d, m, n, k);
    TailCluster(g, d, m, {}, k);
    NoneYet(g, log, Files(g, d, m));
    var size, ch := SizeOf(Dir(g, d, m)[k]), m.chains[k];
    text := ChainBytes(g, Rest(g, d), ch)[..size];
    assert Holds(g, Rest(g, d), ch, text);
  }

  /** In the middle of an append the volume is healthy and reads as before. */
  lemma NothingShows(g: Geo, d0: seq<Sector>, m0: Meta, d: seq<Sector>, m: Meta, k: nat, n: seq<byte>, text: seq<byte>,
                     was: seq<Snap>, log: seq<Snap>)
    requires InAppend(g, d0, m0, d, m, k, n, text, was, log)
    ensures HealthyDisk(g, d, m) && Fits(g, d0) && Files(g, d, m) == Files(g, d0, m0) && AllSafe(g, was, log, Files(g, d0, m0))
  {
    hide Sound, Dir, Listing, CopiesAgree, Fat, Rest, Holds, AllSafe;
  }

  lemma SizeFits(g: Geo, d0: seq<Sector>, m0: Meta, d: seq<Sector>, m: Meta, k: nat, n: seq<byte>, text: seq<byte>)
    requires Growing(g, d0, m0, d, m, k, n, text) && |text| < 0x1_0000_0000
    ensures k < |Dir(g, d, m)|
    ensures SlotFits(g, Dir(g, d, m), m, k, WithSize(Dir(g, d, m)[k], |text|))
    ensures Live(WithSize(Dir(g, d, m)[k], |text|)) && NameOf(WithSize(Dir(g, d, m)[k], |text|)) == n
    ensures Unique(Listing(g, d, m)) && Listing(g, d, m)[k].File? && Listing(g, d, m)[k].name == n
    ensures Files(g, d, m) == FileMap(Listing(g, d, m)) == Files(g, d0, m0) && g.root == Head(RootChain(m))
  {
    hide Dir, ChainsWf, CopiesAgree, Rest, Fat, ChainBytes, ForeignIs;
    hide Geo.MaxCluster, Geo.DataStart, Geo.BytesPerCluster;
    var e := Dir(g, d, m)[k];
    assert Live(e) && NameOf(e) == n && Live(WithSize(e, |text|)) && WithSize(e, |text|)[0] != 0;
    ListingUnique(g, Rest(g, d), m.chains, Dir(g, d, m));
    OthersNamed(g, d, m, k, n);
    assert |text| <= |m.chains[k]| * g.BytesPerCluster();
    assert forall j :: 0 <= j < k ==> Dir(g, d, m)[j][0] != 0;
  }

  lemma GrownItem(g: Geo, r: seq<Sector>, r': seq<Sector>, chains: map<int, seq<nat>>, k: nat, e: Slot, text: seq<byte>)
    requires k in chains && Holds(g, r, chains[k], text) && ChainBytes(g, r', chains[k]) == ChainBytes(g, r, chains[k])
    requires Live(e) && SizeOf(e) == |text|
    ensures ItemAt(g, r', chains, k, e) == File(NameOf(e), text)
  {
    hide ChainBytes, Live, SizeOf, NameOf;
  }

  /** The last write, of the new size, turns the old content into the grown text. */
  lemma Appended(g: Geo, d0: seq<Sector>, m0: Meta, d: seq<Sector>, d': seq<Sector>, m: Meta, k: nat, n: seq<byte>,
                 text: seq<byte>, c: nat)
    requires Growing(g, d0, m0, d, m, k, n, text) && |text| < 0x1_0000_0000 && Fits(g, d0)
    requires SlotPut(g, m, d, d', k, Size(|text|), c)
    ensures HealthyDisk(g, d', m) && Files(g, d', m) == Files(g, d0, m0)[n := text]
  {
    hide Rest, Fat, CopiesAgree, ChainsWf, DirWf, Dir, ForeignIs, SlotFits, WithSize, SameOutside, Hits, Unique, FileMap;
    hide Geo.MaxCluster, Geo.DataStart, Geo.BytesPerCluster;
    SizeFits(g, d0, m0, d, m, k, n, text);
    var e, items := WithSize(Dir(g, d, m)[k], |text|), Listing(g, d, m);
    assert Dir(g, d', m) == Dir(g, d, m)[k := e] && SizeOf(e) == |text|;
    assert Sound(g, d, m, {}) && CopiesAgree(g, d') && ChainsWf(Fat(g, d'), m, {}) && SameButAt(m.chains, m.chains, k);
    assert k in m.chains && Holds(g, Rest(g, d), m.chains[k], text);
    assert Files(g, d', m) == FileMap(Listing(g, d', m));
    hide *;
    Committed(g, d, d', m, m, {}, k, e, c);
    GrownItem(g, Rest(g, d), Rest(g, d'), m.chains, k, e, text);
    SetItem(items, k, n, text);
  }

  /** What the growing loops are entered with. */
  ghost predicate ToGrow(g: Geo, d: seq<Sector>, m: Meta, k: nat, n: seq<byte>, first: nat, text: seq<byte>, log: seq<Snap>) {
    && InAppend(g, d, m, d, m, k, n, text, log, log) && Sound(g, d, m, {}) && k in m.chains && m.chains[k] != []
    && first == Head(m.chains[k]) && |text| <= Bytes(g, |m.chains[k]|) && g.spc > 0
  }

  ghost predicate RoomFor(g: Geo, d: seq<Sector>, m: Meta, k: nat, size: nat, extra: nat)
    requires g.spc > 0
  {
    k in m.chains && m.chains[k] != [] && Snug(g, m.chains[k], size) && RoomLeft(g, d, m, k, size + extra)
  }

  lemma TailFound(g: Geo, m: Meta, k: nat, c: nat, size: nat, offset: nat)
    requires k in m.chains && m.chains[k] != [] && c == Last(m.chains[k]) && size == Start(g, m.chains[k]) + offset && g.spc > 0
    ensures TailAt(g, m, k, c, size, offset)
  {
  }

  lemma RoomCap(g: Geo, d: seq<Sector>, m: Meta, k: nat, total: nat) returns (cap: nat)
    requires g.spc > 0 && k in m.chains
    ensures cap == FreeCount(Fat(g, d)) + |m.chains[k]|
    ensures RoomLeft(g, d, m, k, total) <==> total <= Bytes(g, cap)
  {
    cap := FreeCount(Fat(g, d)) + |m.chains[k]|;
    hide Fat, Bytes;
  }

  lemma ReadyToAdd(g: Geo, d0: seq<Sector>, m0: Meta, start: seq<Sector>, d: seq<Sector>, m: Meta, k: nat, n: seq<byte>,
                   text: seq<byte>, buffer: seq<byte>, written: nat, was: seq<Snap>, log: seq<Snap>, c: nat, offset: nat)
    returns (cap: nat)
    requires written <= |buffer| && InAppend(g, d0, m0, d, m, k, n, Plus(text, buffer, written), was, log)
    requires g.spc > 0 && Fat(g, d) == Fat(g, start) && TailAt(g, m, k, c, |text|, offset)
    requires offset + written <= g.BytesPerCluster() && (written < |buffer| ==> offset + written == g.BytesPerCluster())
    ensures Adding(g, d0, m0, d, m, k, n, text, buffer, written, was, log, c, cap)
    ensures RoomLeft(g, start, m, k, |text| + |buffer|) <==> |text| + |buffer| <= Bytes(g, cap)
  {
    hide InAppend, Fat, Start, Bytes, Plus, Geo.BytesPerCluster, Last, RoomLeft;
    cap := RoomCap(g, start, m, k, |text| + |buffer|);
    BytesStart(g, m.chains[k]);
  }

  /** What growing ends with: some prefix of the buffer written, all of it on success. */
  ghost predicate Grew(g: Geo, d: seq<Sector>, m: Meta, d': seq<Sector>, m': Meta, k: nat, n: seq<byte>, text: seq<byte>,
                       buffer: seq<byte>, written: nat, was: seq<Snap>, log: seq<Snap>) {
    written <= |buffer| && InAppend(g, d, m, d', m', k, n, Plus(text, buffer, written), was, log)
  }

  lemma GrewNothing(g: Geo, d: seq<Sector>, m: Meta, k: nat, n: seq<byte>, first: nat, text: seq<byte>, buffer: seq<byte>, log: seq<Snap>)
    requires ToGrow(g, d, m, k, n, first, text, log)
    ensures Grew(g, d, m, d, m, k, n, text, buffer, 0, log, log) && g.spc > 0 && InAppend(g, d, m, d, m, k, n, text, log, log)
    ensures Sound(g, d, m, {}) && k in m.chains && m.chains[k] != [] && first == Head(m.chains[k])
    ensures |text| <= Bytes(g, |m.chains[k]|)
    ensures RoomFor(g, d, m, k, |text|, |buffer|) <==>
              Snug(g, m.chains[k], |text|) && RoomLeft(g, d, m, k, |text| + |buffer|)
  {
    PlusNothing(text, buffer);
    hide InAppend, Sound, Plus, Bytes, Snug, FreeCount, Fat;
  }

  /** Writes the buffer behind the end of the file, in old and new clusters. */
  method GrowFrom(v: Volume, cluster: nat, offset: nat, buffer: seq<byte>, ghost n: seq<byte>, ghost k: nat, ghost text: seq<byte>)
    returns (ok: bool, ghost written: nat)
    requires InAppend(v.g, v.disk, v.meta, v.disk, v.meta, k, n, text, v.log, v.log)
    requires TailAt(v.g, v.meta, k, cluster, |text|, offset) && offset <= v.g.BytesPerCluster()
    modifies v
    ensures Grew(v.g, old(v.disk), old(v.meta), v.disk, v.meta, k, n, text, buffer, written, old(v.log), v.log)
    ensures ok <==> RoomLeft(v.g, old(v.disk), old(v.meta), k, |text| + |buffer|)
    ensures ok ==> written == |buffer|
  {
    hide InAppend, Fat, FreeCount, Start, Bytes, Plus, Geo.BytesPerCluster, Adding, Last, TailAt, RoomLeft;
    ghost var d, m, was := v.disk, v.meta, v.log;
    var done;
    ok, done := FillTail(v, cluster, offset, buffer, d, m, k, n, text, was);
    ghost var cap := ReadyToAdd(v.g, d, m, d, v.disk, m, k, n, text, buffer, done, was, v.log, cluster, offset);
    if !ok {
      return false, done;
    }
    ok, written := AddClusters(v, cluster, buffer, done, d, m, k, n, text, was, cap);
  }

  method GrowFile(v: Volume, first: nat, size: nat, buffer: seq<byte>, ghost n: seq<byte>, ghost k: nat, ghost text: seq<byte>)
    returns (ok: bool, ghost written: nat)
    requires ToGrow(v.g, v.disk, v.meta, k, n, first, text, v.log) && size == |text|
    modifies v
    ensures Grew(v.g, old(v.disk), old(v.meta), v.disk, v.meta, k, n, text, buffer, written, old(v.log), v.log)
    ensures v.g.spc > 0 && (ok <==> RoomFor(v.g, old(v.disk), old(v.meta), k, size, |buffer|))
    ensures ok ==> written == |buffer|
  {
    hide *;
    ghost var m := v.meta;
    var cluster, offset;
    written := 0;
    GrewNothing(v.g, v.disk, m, k, n, first, text, buffer, v.log);
    ok, cluster, offset := FindTail(v, first, size, k);
    if !ok {
      return;
    }
    TailFound(v.g, m, k, cluster, size, offset);
    ok, written := GrowFrom(v, cluster, offset, buffer, n, k, text);
  }

  lemma LocatedStill(g: Geo, d: seq<Sector>, m: Meta, d': seq<Sector>, m': Meta, lba: nat, k: nat)
    requires Located(g, d, m, lba, k) && Fits(g, d') && RootChain(m') == RootChain(m)
    ensures Located(g, d', m', lba, k)
  {
  }

  /** The state a successful append ends in. */
  ghost predicate AppendedTo(g: Geo, d: seq<Sector>, m: Meta, d': seq<Sector>, m': Meta, n: seq<byte>, buffer: seq<byte>,
                             was: seq<Snap>, log: seq<Snap>) {
    && Fits(g, d) && HealthyDisk(g, d', m') && n in Files(g, d, m)
    && Files(g, d', m') == Files(g, d, m)[n := Files(g, d, m)[n] + buffer]
    && SafeUntilLast(g, was, log, Files(g, d, m), d')
  }

  /** The size field is the last thing written. */
  method FinishAppend(v: Volume, lba: nat, index: nat, size: u32, ghost d: seq<Sector>, ghost m: Meta, ghost n: seq<byte>,
                      ghost k: nat, ghost text: seq<byte>, ghost buffer: seq<byte>, ghost was: seq<Snap>) returns (ok: bool)
    requires InAppend(v.g, d, m, v.disk, v.meta, k, n, text + buffer, was, v.log) && size == |text| + |buffer|
    requires Located(v.g, d, m, lba, k) && index == k % SLOTS && TextIs(v.g, d, m, n, text)
    modifies v`disk, v`sector, v`log
    ensures ok && AppendedTo(v.g, d, m, v.disk, v.meta, n, buffer, was, v.log)
  {
    hide InAppend, Located, AllSafe, SafeUntilLast, Files, RootOk, SlotPut, ChainsWf, DirWf, Dir, Fat, Rest, ForeignIs, CopiesAgree, RootChain;
    hide Geo.MaxCluster, Geo.DataStart, Geo.BytesPerCluster;
    ghost var d1, log := v.disk, v.log;
    AppendFacts(v.g, d, m, d1, v.meta, k, n, text + buffer, was, log);
    assert RootChain(v.meta) == RootChain(m);
    LocatedStill(v.g, d, m, d1, v.meta, lba, k);
    SoundRoot(v.g, d1, v.meta, {});
    ghost var c;
    ok, c := StoreSlot(v, lba, index, Size(size), k, v.meta, {});
    Appended(v.g, d, m, d1, v.disk, v.meta, k, n, text + buffer, c);
    ThenLast(v.g, was, log, Files(v.g, d, m), Snap(v.disk, v.meta, {}));
  }

  ghost predicate TextIs(g: Geo, d: seq<Sector>, m: Meta, n: seq<byte>, text: seq<byte>) {
    Fits(g, d) && n in Files(g, d, m) && Files(g, d, m)[n] == text
  }

  /** How the parts of an append amount to the whole. */
  lemma AppendStarts(g: Geo, d: seq<Sector>, m: Meta, n: seq<byte>, k: nat, extra: nat, log: seq<Snap>) returns (text: seq<byte>)
    requires EntryAt(g, d, m, n, k)
    ensures Fits(g, d) && k < |Dir(g, d, m)| && TextIs(g, d, m, n, text) && g.spc > 0
    ensures var e := Dir(g, d, m)[k];
            && |text| == SizeOf(e) && (FirstOf(e) >= 2 ==> ToGrow(g, d, m, k, n, FirstOf(e), text, log))
            && (Appendable(g, d, m, n, extra) <==>
                  FirstOf(e) >= 2 && SizeOf(e) + extra < 0x1_0000_0000 && RoomFor(g, d, m, k, SizeOf(e), extra))
  {
    EntryFacts(g, d, m, n, k);
    AppendableAt(g, d, m, n, extra, k);
    if FirstOf(Dir(g, d, m)[k]) >= 2 {
      text := StartGrowing(g, d, m, n, k, log);
      hide Dir, InAppend, Growing, AllSafe, Files, Fat, FreeCount, Bytes, Snug, ChainsWf, DirWf, Listing, CopiesAgree, FirstOf, SizeOf;
    } else {
      text := [];
      hide Dir, InAppend, Growing, AllSafe, Fat, FreeCount, Bytes, Snug, ChainsWf, DirWf, Listing, CopiesAgree, FirstOf, SizeOf;
    }
  }

  /** The part of fs_append_file after the entry is found. */
  method AppendTo(v: Volume, e: Slot, lba: nat, index: nat, buffer: seq<byte>, ghost n: seq<byte>, ghost k: nat) returns (ok: bool)
    requires EntryAt(v.g, v.disk, v.meta, n, k) && e == Dir(v.g, v.disk, v.meta)[k]
    requires Located(v.g, v.disk, v.meta, lba, k) && index == k % SLOTS && 0 < |buffer| < 0x1_0000_0000
    modifies v
    ensures Fits(v.g, old(v.disk)) && (ok <==> Appendable(v.g, old(v.disk), old(v.meta), n, |buffer|))
    ensures ok ==> AppendedTo(v.g, old(v.disk), old(v.meta), v.disk, v.meta, n, buffer, old(v.log), v.log)
    ensures !ok ==> Unchanged(v.g, old(v.disk), old(v.meta), v.disk, v.meta, old(v.log), v.log)
  {
    hide *;
    ghost var d, m, was := v.disk, v.meta, v.log;
    ghost var text := AppendStarts(v.g, d, m, n, k, |buffer|, was);
    NothingChanged(v.g, d, m, n, k, was);
    var cluster, oldSize := FirstOf(e), SizeOf(e);
    var newSize := (oldSize + |buffer|) % 0x1_0000_0000;
    if cluster < 2 || newSize < oldSize {
      ok := false;
      return;
    }
    ghost var written;
    ok, written := GrowFile(v, cluster, oldSize, buffer, n, k, text);
    GrewEnds(v.g, d, m, v.disk, v.meta, k, n, text, buffer, written, was, v.log);
    if !ok {
      return;
    }
    ok := FinishAppend(v, lba, index, newSize, d, m, n, k, text, buffer, was);
  }

  /** The state an append leaves behind when it fails. */
  ghost predicate Unchanged(g: Geo, d: seq<Sector>, m: Meta, d': seq<Sector>, m': Meta, was: seq<Snap>, log: seq<Snap>) {
    && HealthyDisk(g, d', m') && Fits(g, d) && Files(g, d', m') == Files(g, d, m) && AllSafe(g, was, log, Files(g, d, m))
  }

  lemma NothingChanged(g: Geo, d: seq<Sector>, m: Meta, n: seq<byte>, k: nat, log: seq<Snap>)
    requires EntryAt(g, d, m, n, k)
    ensures Fits(g, d) && Unchanged(g, d, m, d, m, log, log)
  {
    hide ChainsWf, DirWf, CopiesAgree, Files, Dir, Listing, AllSafe;
    StillUnchanged(g, d, m, log);
  }

  lemma StillUnchanged(g: Geo, d: seq<Sector>, m: Meta, log: seq<Snap>)
    requires HealthyDisk(g, d, m)
    ensures Fits(g, d) && Unchanged(g, d, m, d, m, log, log)
  {
    hide ChainsWf, DirWf, CopiesAgree, Files, Dir, AllSafe;
    NoneYet(g, log, Files(g, d, m));
  }

  lemma GrewEnds(g: Geo, d: seq<Sector>, m: Meta, d': seq<Sector>, m': Meta, k: nat, n: seq<byte>, text: seq<byte>,
                 buffer: seq<byte>, written: nat, was: seq<Snap>, log: seq<Snap>)
    requires Grew(g, d, m, d', m', k, n, text, buffer, written, was, log)
    ensures Unchanged(g, d, m, d', m', was, log)
    ensures written == |buffer| ==> InAppend(g, d, m, d', m', k, n, text + buffer, was, log)
  {
    hide InAppend, HealthyDisk, Fits, Files, AllSafe;
    NothingShows(g, d, m, d', m', k, n, Plus(text, buffer, written), was, log);
    if written == |buffer| {
      assert Plus(text, buffer, written) == text + buffer;
    }
  }

  method FsAppendFile(v: Volume, name: seq<byte>, buffer: seq<byte>) returns (ok: bool)
    requires HealthyDisk(v.g, v.disk, v.meta) && |buffer| < 0x1_0000_0000
    modifies v
    ensures Fits(v.g, old(v.disk))
    ensures ok <==> buffer == [] || (FileNamed(v.g, old(v.disk), old(v.meta), name)
                                     && Appendable(v.g, old(v.disk), old(v.meta), ShortName(name), |buffer|))
    ensures if ok && buffer != []
            then AppendedTo(v.g, old(v.disk), old(v.meta), v.disk, v.meta, ShortName(name), buffer, old(v.log), v.log)
            else Unchanged(v.g, old(v.disk), old(v.meta), v.disk, v.meta, old(v.log), v.log)
  {
    hide *;
    ghost var d, m := v.disk, v.meta;
    StillUnchanged(v.g, d, m, v.log);
    if |buffer| == 0 {
      return true;
    }
    var e, lba, index;
    ghost var k;
    ok, e, lba, index, k := FindFile(v, name);
    if ok {
      ok := AppendTo(v, e, lba, index, buffer, ShortName(name), k);
    }
  }
}
