/** The root directory and the files of a volume, seen through its chains; and how
    each kind of sector write changes that view. */
module FatView {
  import opened Products
  import opened FatBytes
  import opened FatTheory
  import opened FatDisk
  import opened FileMaps

  ghost function RootChain(m: Meta): seq<nat> {
    if ROOT in m.chains then m.chains[ROOT] else []
  }

  ghost function Dir(g: Geo, d: seq<Sector>, m: Meta): seq<Slot>
    requires Fits(g, d)
  {
    DirSlots(Rest(g, d), DirIndex(g, RootChain(m)))
  }

  /** What slot k holds: nothing, or a name and its chain cut to its size. */
  ghost function ItemAt(g: Geo, rest: seq<Sector>, chains: map<int, seq<nat>>, k: int, e: Slot): Item {
    if !Live(e) then Absent
    else if k in chains && SizeOf(e) <= |chains[k]| * g.BytesPerCluster()
    then File(NameOf(e), ChainBytes(g, rest, chains[k])[..SizeOf(e)])
    else File(NameOf(e), [])
  }

  ghost function Items(g: Geo, rest: seq<Sector>, chains: map<int, seq<nat>>, dir: seq<Slot>): (c: seq<Item>)
    ensures |c| == |dir|
    ensures forall k :: 0 <= k < |dir| ==> c[k] == ItemAt(g, rest, chains, k, dir[k])
  {
    seq(|dir|, k requires 0 <= k < |dir| => ItemAt(g, rest, chains, k, dir[k]))
  }

  /** Well-formed chains and directory; `leak` holds clusters marked but not owned. */
  ghost predicate Sound(g: Geo, d: seq<Sector>, m: Meta, leak: set<nat>) {
    && Fits(g, d) && ChainsWf(Fat(g, d), m, leak)
    && DirWf(g.BytesPerCluster(), Dir(g, d, m), m.chains) && ForeignIs(g, m.own)
  }

  ghost function Listing(g: Geo, d: seq<Sector>, m: Meta): seq<Item>
    requires Fits(g, d)
  {
    Items(g, Rest(g, d), m.chains, Dir(g, d, m))
  }

  /** The volume as a map from 11-byte names to byte strings. */
  ghost function Files(g: Geo, d: seq<Sector>, m: Meta): map<Text, Text>
    requires Fits(g, d)
  {
    FileMap(Listing(g, d, m))
  }

  lemma ListingUnique(g: Geo, rest: seq<Sector>, chains: map<int, seq<nat>>, dir: seq<Slot>)
    requires DirWf(g.BytesPerCluster(), dir, chains)
    ensures Unique(Items(g, rest, chains, dir))
  {
    var items := Items(g, rest, chains, dir);
    forall j, k | 0 <= j < k < |items| && items[j].File? && items[k].File?
      ensures items[j].name != items[k].name
    {
      assert Live(dir[j]) && Live(dir[k]);
    }
  }

  // ----- geometry of the directory ------------------------------------------------

  lemma ClusterLimit(g: Geo)
    requires g.Valid()
    ensures g.MaxCluster() <= EOC
  {
    StepFits(0, g.fatCount, g.fatSize);
    var n := g.total - g.DataStart();
    DivSmaller(n, g.spc);
  }

  lemma DivSmaller(n: nat, d: nat)
    requires d > 0
    ensures n / d <= n
  {
    var q, r := n / d, n % d;
    assert n == d * q + r;
    StepFits(0, d, q);
  }

  lemma SlotIndex(n: nat, i: nat)
    requires i < SLOTS
    ensures (SLOTS * n + i) / SLOTS == n && (SLOTS * n + i) % SLOTS == i
  {
  }

  lemma SlotOfSector(rest: seq<Sector>, idx: seq<nat>, n: nat, i: nat)
    requires n < |idx| && i < SLOTS && idx[n] < |rest|
    ensures DirSlots(rest, idx)[SLOTS * n + i] == SlotIn(rest[idx[n]], i)
  {
    SlotIndex(n, i);
    hide SlotIn;
  }

  ghost predicate Distinct(root: seq<nat>) {
    (forall j :: 0 <= j < |root| ==> root[j] >= 2) && (forall a, b :: 0 <= a < b < |root| ==> root[a] != root[b])
  }

  lemma SectorsDiffer(g: Geo, root: seq<nat>, a: nat, s: nat, b: nat, t: nat)
    requires Distinct(root) && a < |root| && b < |root| && s < g.spc && t < g.spc
    requires g.Base(root[a]) + s == g.Base(root[b]) + t
    ensures a == b && s == t
  {
    if root[a] < root[b] {
      BaseStep(g, root[a], root[b]);
    } else if root[b] < root[a] {
      BaseStep(g, root[b], root[a]);
    }
  }

  lemma DirIndexInjective(g: Geo, root: seq<nat>, n: nat, n': nat)
    requires Distinct(root) && n < |DirIndex(g, root)| && n' < |DirIndex(g, root)|
    requires DirIndex(g, root)[n] == DirIndex(g, root)[n']
    ensures n == n'
  {
    hide DirIndex;
    var j, s := DirIndexOf(g, root, n);
    var j', s' := DirIndexOf(g, root, n');
    SectorsDiffer(g, root, j, s, j', s');
  }

  /** Rewriting slot i of directory sector n changes slot 16 n + i alone. */
  lemma DirWrite(g: Geo, rest: seq<Sector>, root: seq<nat>, n: nat, i: nat, sec: Sector)
    requires Distinct(root) && n < |DirIndex(g, root)| && DirIndex(g, root)[n] < |rest| && i < SLOTS
    requires forall t :: 0 <= t < SLOTS && t != i ==> SlotIn(sec, t) == SlotIn(rest[DirIndex(g, root)[n]], t)
    ensures var idx := DirIndex(g, root);
            DirSlots(rest[idx[n] := sec], idx) == DirSlots(rest, idx)[SLOTS * n + i := SlotIn(sec, i)]
  {
    var idx := DirIndex(g, root);
    var r' := rest[idx[n] := sec];
    var d, d' := DirSlots(rest, idx), DirSlots(r', idx);
    forall k | 0 <= k < |d|
      ensures d'[k] == d[SLOTS * n + i := SlotIn(sec, i)][k]
    {
      var n', t := k / SLOTS, k % SLOTS;
      assert k == SLOTS * n' + t;
      if n' == n {
        SlotOfSector(rest, idx, n, t);
        SlotOfSector(r', idx, n, t);
      } else if idx[n'] == idx[n] {
        DirIndexInjective(g, root, n, n');
        assert false;
      }
    }
  }

  /** Rewriting a cluster outside the root directory leaves the directory alone. */
  lemma DirFrame(g: Geo, rest: seq<Sector>, rest': seq<Sector>, root: seq<nat>, c: nat)
    requires SameOutside(g, rest, rest', c) && c >= 2 && c !in root && Distinct(root)
    ensures DirSlots(rest', DirIndex(g, root)) == DirSlots(rest, DirIndex(g, root))
  {
    var idx := DirIndex(g, root);
    var d, d' := DirSlots(rest, idx), DirSlots(rest', idx);
    forall k | 0 <= k < |d|
      ensures d'[k] == d[k]
    {
      var n := k / SLOTS;
      assert n < |idx|;
      var j, s := DirIndexOf(g, root, n);
      if root[j] < c {
        BaseStep(g, root[j], c);
      } else {
        BaseStep(g, c, root[j]);
      }
    }
  }
}
