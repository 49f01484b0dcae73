/** What a mounted FAT32 volume means: cluster chains, their owners, the root
    directory and the bytes of a file; and what each on-disk update does to it. */
module FatTheory {
  import opened FatBytes
  import opened Products

  const EOC: nat := 0x0FFF_FFF8
  const EOC_MARK: nat := 0x0FFF_FFFF

  /** What stays the same while a volume is mounted: the constants of the boot sector and,
      for the statements, the clusters of what lies outside the root directory. */
  datatype Geo = Geo(fatStart: nat, fatSize: nat, fatCount: nat, spc: nat, total: nat, root: nat, foreign: set<nat>) {
    function DataStart(): nat {
      fatStart + fatCount * fatSize
    }

    function MaxCluster(): nat
      requires spc > 0
    {
      if total <= DataStart() then 2 else (total - DataStart()) / spc + 2
    }

    function BytesPerCluster(): nat {
      spc * SECTOR_SIZE
    }

    ghost predicate Valid() {
      && 1 <= fatCount < 256 && 1 <= spc < 256
      && DataStart() < total < 0x1000_0000
      && MaxCluster() <= 128 * fatSize
    }

    function ClusterToLba(c: nat): nat {
      DataStart() + Base(c)
    }

    /** First sector of a cluster, counted from the start of the data area. */
    function Base(c: nat): nat {
      if c >= 2 then (c - 2) * spc else 0
    }
  }

  /** Who holds a cluster: nobody, something outside the root directory, or link
      `index` of the chain of slot `key` (-1 is the root directory itself). */
  datatype Owner = Free | Foreign | Link(key: int, index: nat)

  datatype Meta = Meta(chains: map<int, seq<nat>>, own: seq<Owner>)

  const ROOT: int := -1

  ghost predicate ChainOk(fat: seq<nat>, own: seq<Owner>, key: int, ch: seq<nat>)
    requires |own| == |fat|
  {
    && |ch| > 0
    && (forall i {:trigger ch[i]} :: 0 <= i < |ch| ==> 2 <= ch[i] < |fat|)
    && (forall i {:trigger own[ch[i]]} :: 0 <= i < |ch| ==>
          own[ch[i]] == Link(key, i) && (if i + 1 < |ch| then fat[ch[i]] == ch[i + 1] else fat[ch[i]] >= EOC))
  }

  /** Cluster c is free exactly if its entry is zero, and its owner is who says so. */
  ghost predicate CensusAt(fat: seq<nat>, m: Meta, leak: set<nat>, c: int)
    requires 0 <= c < |fat| == |m.own|
  {
    match m.own[c]
    case Free => fat[c] == 0 <==> c !in leak
    case Foreign => fat[c] != 0 && c !in leak
    case Link(k, i) => k in m.chains && i < |m.chains[k]| && m.chains[k][i] == c && c !in leak && fat[c] != 0
  }

  /** Every chain is in range, acyclic, ended and disjoint from the others; every
      cluster whose FAT entry is nonzero is owned, but for those in `leak`. */
  ghost predicate ChainsWf(fat: seq<nat>, m: Meta, leak: set<nat>) {
    && |m.own| == |fat| && ROOT in m.chains
    && (forall k :: k in m.chains ==> ChainOk(fat, m.own, k, m.chains[k]))
    && (forall c :: 2 <= c < |fat| ==> CensusAt(fat, m, leak, c))
  }

  ghost predicate DirWf(bpc: nat, dir: seq<Slot>, chains: map<int, seq<nat>>) {
    && (forall k :: 0 <= k < |dir| && Live(dir[k]) ==>
          if k in chains then FirstOf(dir[k]) == Head(chains[k]) && FirstOf(dir[k]) >= 2 && SizeOf(dir[k]) <= |chains[k]| * bpc
          else FirstOf(dir[k]) == 0 && SizeOf(dir[k]) == 0)
    && (forall k :: k in chains && k != ROOT ==> 0 <= k < |dir| && Live(dir[k]))
    && (forall j, k :: 0 <= j < k < |dir| && Live(dir[j]) && Live(dir[k]) ==> NameOf(dir[j]) != NameOf(dir[k]))
    && (forall j, k :: 0 <= j < k < |dir| && dir[j][0] == 0 ==> dir[k][0] == 0)
  }

  function Head(ch: seq<nat>): nat {
    if ch == [] then 0 else ch[0]
  }

  function Last(ch: seq<nat>): nat {
    if ch == [] then 0 else ch[|ch| - 1]
  }

  /** Only the clusters outside the root directory's reach are nobody's here. */
  ghost predicate ForeignIs(g: Geo, own: seq<Owner>) {
    forall c: nat :: 2 <= c < |own| ==> (own[c].Foreign? <==> c in g.foreign)
  }

  // ----- consequences: disjoint, acyclic, conserved -------------------------------

  /** No cluster is on two chains, or twice on one. */
  lemma ChainsDisjoint(fat: seq<nat>, m: Meta, leak: set<nat>, j: int, a: nat, k: int, b: nat)
    requires ChainsWf(fat, m, leak) && j in m.chains && k in m.chains
    requires a < |m.chains[j]| && b < |m.chains[k]| && m.chains[j][a] == m.chains[k][b]
    ensures j == k && a == b
  {
    assert m.own[m.chains[j][a]] == Link(j, a);
    assert m.own[m.chains[k][b]] == Link(k, b);
  }

  // ----- chain updates --------------------------------------------------------------

  /** Marking a free cluster as an end of chain leaves it nonzero and unowned. */
  lemma MarkFree(fat: seq<nat>, m: Meta, n: nat)
    requires ChainsWf(fat, m, {}) && 2 <= n < |fat| && fat[n] == 0
    ensures ChainsWf(fat[n := EOC_MARK], m, {n}) && m.own[n] == Free
  {
    var fat' := fat[n := EOC_MARK];
    assert CensusAt(fat, m, {}, n);
    forall k | k in m.chains
      ensures ChainOk(fat', m.own, k, m.chains[k])
    {
      var ch := m.chains[k];
      assert ChainOk(fat, m.own, k, ch);
      forall i | 0 <= i < |ch|
        ensures m.own[ch[i]] == Link(k, i) && fat'[ch[i]] == fat[ch[i]]
      {
        assert m.own[ch[i]] == Link(k, i);
      }
    }
    forall c | 2 <= c < |fat|
      ensures CensusAt(fat', m, {n}, c)
    {
      assert CensusAt(fat, m, {}, c);
    }
  }

  ghost function Extended(m: Meta, k: int, n: nat): Meta
    requires k in m.chains && n < |m.own|
  {
    Meta(m.chains[k := m.chains[k] + [n]], m.own[n := Link(k, |m.chains[k]|)])
  }

  /** Linking the marked cluster behind the last one of chain k makes it owned. */
  lemma LinkMarked(fat: seq<nat>, m: Meta, k: int, n: nat)
    requires 2 <= n < |fat| && n < EOC && ChainsWf(fat, m, {n}) && fat[n] >= EOC && k in m.chains
    requires m.own[n] == Free
    ensures |m.chains[k]| > 0 && Last(m.chains[k]) < |fat|
    ensures ChainsWf(fat[Last(m.chains[k]) := n], Extended(m, k, n), {})
  {
    var ch := m.chains[k];
    assert ChainOk(fat, m.own, k, ch);
    var t := ch[|ch| - 1];
    assert m.own[t] == Link(k, |ch| - 1);
    var fat' := fat[t := n];
    var m' := Extended(m, k, n);
    forall j | j in m'.chains
      ensures ChainOk(fat', m'.own, j, m'.chains[j])
    {
      assert j in m.chains && ChainOk(fat, m.own, j, m.chains[j]);
      hide ChainsWf, ChainOk;
      if j == k {
        ChainExtends(fat, m.own, k, ch, n);
      } else {
        ChainKeeps(fat, m, j, k, n);
      }
    }
    assert forall c :: 2 <= c < |fat| ==> CensusAt(fat', m', {}, c) by {
      hide ChainOk;
      forall c | 2 <= c < |fat|
        ensures CensusAt(fat', m', {}, c)
      {
        assert CensusAt(fat, m, {n}, c);
      }
    }
    hide ChainOk, CensusAt;
  }

  /** Extending chain k leaves chain j as it was. */
  lemma ChainKeeps(fat: seq<nat>, m: Meta, j: int, k: int, n: nat)
    requires |m.own| == |fat| && 2 <= n < |fat| && m.own[n] == Free && j != k && j in m.chains && k in m.chains
    requires ChainOk(fat, m.own, j, m.chains[j]) && ChainOk(fat, m.own, k, m.chains[k])
    ensures ChainOk(fat[Last(m.chains[k]) := n], m.own[n := Link(k, |m.chains[k]|)], j, m.chains[j])
  {
    var t, ch := Last(m.chains[k]), m.chains[j];
    assert m.own[m.chains[k][|m.chains[k]| - 1]] == Link(k, |m.chains[k]| - 1);
    var fat', own' := fat[t := n], m.own[n := Link(k, |m.chains[k]|)];
    forall i | 0 <= i < |ch|
      ensures own'[ch[i]] == Link(j, i) && (if i + 1 < |ch| then fat'[ch[i]] == ch[i + 1] else fat'[ch[i]] >= EOC)
    {
      assert m.own[ch[i]] == Link(j, i);
    }
  }

  lemma ChainExtends(fat: seq<nat>, own: seq<Owner>, k: int, ch: seq<nat>, n: nat)
    requires |own| == |fat| && ChainOk(fat, own, k, ch) && 2 <= n < |fat| && own[n] == Free && fat[n] >= EOC
    ensures ChainOk(fat[ch[|ch| - 1] := n], own[n := Link(k, |ch|)], k, ch + [n])
  {
    var t, ch' := ch[|ch| - 1], ch + [n];
    var fat', own' := fat[t := n], own[n := Link(k, |ch|)];
    assert own[t] == Link(k, |ch| - 1);
    forall i | 0 <= i < |ch'|
      ensures own'[ch'[i]] == Link(k, i)
      ensures if i + 1 < |ch'| then fat'[ch'[i]] == ch'[i + 1] else fat'[ch'[i]] >= EOC
    {
      if i < |ch| {
        assert own[ch[i]] == Link(k, i);
      }
    }
  }

  /** A marked cluster can also start the chain of a slot that had none. */
  lemma StartChain(fat: seq<nat>, m: Meta, k: int, n: nat)
    requires 2 <= n < |fat| && ChainsWf(fat, m, {n}) && fat[n] >= EOC && k !in m.chains
    requires m.own[n] == Free
    ensures ChainsWf(fat, Meta(m.chains[k := [n]], m.own[n := Link(k, 0)]), {})
  {
    var m' := Meta(m.chains[k := [n]], m.own[n := Link(k, 0)]);
    forall j | j in m'.chains
      ensures ChainOk(fat, m'.own, j, m'.chains[j])
    {
      if j != k {
        ChainElsewhere(fat, m.own, j, m.chains[j], n, Link(k, 0));
      }
    }
    forall c | 2 <= c < |fat|
      ensures CensusAt(fat, m', {}, c)
    {
      assert CensusAt(fat, m, {n}, c);
    }
  }

  lemma ChainElsewhere(fat: seq<nat>, own: seq<Owner>, j: int, ch: seq<nat>, n: nat, o: Owner)
    requires |own| == |fat| && 2 <= n < |fat| && own[n] == Free && ChainOk(fat, own, j, ch)
    ensures ChainOk(fat, own[n := o], j, ch)
  {
    forall i | 0 <= i < |ch|
      ensures own[n := o][ch[i]] == Link(j, i)
    {
      assert own[ch[i]] == Link(j, i);
    }
  }

  /** The FAT with the entries of the given clusters cleared, in order. */
  function ZeroAll(fat: seq<nat>, ch: seq<nat>): (r: seq<nat>)
    ensures |r| == |fat|
    ensures forall c :: 0 <= c < |fat| ==> r[c] == if c in ch then 0 else fat[c]
  {
    if ch == [] then fat
    else
      var r := ZeroAll(fat, ch[..|ch| - 1]);
      assert ch == ch[..|ch| - 1] + [ch[|ch| - 1]];
      if ch[|ch| - 1] < |fat| then r[ch[|ch| - 1] := 0] else r
  }

  ghost function Unowned(own: seq<Owner>, k: int): (r: seq<Owner>)
    ensures |r| == |own|
    ensures forall c :: 0 <= c < |own| ==> r[c] == if own[c].Link? && own[c].key == k then Free else own[c]
  {
    seq(|own|, c requires 0 <= c < |own| => if own[c].Link? && own[c].key == k then Free else own[c])
  }

  ghost function Dropped(m: Meta, k: int): Meta {
    Meta(m.chains - {k}, Unowned(m.own, k))
  }

  /** The clusters of chain k are exactly those it owns. */
  lemma OwnedIsMember(fat: seq<nat>, m: Meta, leak: set<nat>, k: int, c: nat)
    requires ChainsWf(fat, m, leak) && k in m.chains && 2 <= c < |fat|
    ensures c in m.chains[k] <==> m.own[c].Link? && m.own[c].key == k
  {
    assert CensusAt(fat, m, leak, c);
    assert ChainOk(fat, m.own, k, m.chains[k]);
    if c in m.chains[k] {
      var b :| 0 <= b < |m.chains[k]| && m.chains[k][b] == c;
      assert m.own[m.chains[k][b]] == Link(k, b);
    }
  }

  /** Clearing all entries of chain k frees exactly its clusters. */
  lemma FreeChain(fat: seq<nat>, m: Meta, k: int)
    requires ChainsWf(fat, m, {}) && k in m.chains && k != ROOT
    ensures ChainsWf(ZeroAll(fat, m.chains[k]), Dropped(m, k), {})
  {
    var ch, m' := m.chains[k], Dropped(m, k);
    var fat' := ZeroAll(fat, ch);
    forall j | j in m'.chains
      ensures ChainOk(fat', m'.own, j, m'.chains[j])
    {
      assert ChainOk(fat, m.own, j, m.chains[j]);
      forall i | 0 <= i < |m.chains[j]|
        ensures m'.own[m.chains[j][i]] == Link(j, i) && fat'[m.chains[j][i]] == fat[m.chains[j][i]]
      {
        assert m.own[m.chains[j][i]] == Link(j, i);
        OwnedIsMember(fat, m, {}, k, m.chains[j][i]);
      }
    }
    forall c | 2 <= c < |fat|
      ensures CensusAt(fat', m', {}, c)
    {
      assert CensusAt(fat, m, {}, c);
      OwnedIsMember(fat, m, {}, k, c);
    }
  }

  // ----- directory updates ------------------------------------------------------------

  /** Rewriting slot k keeps the directory well formed if the new slot fits. */
  lemma RewriteSlot(bpc: nat, dir: seq<Slot>, chains: map<int, seq<nat>>, k: nat, e: Slot, chains': map<int, seq<nat>>)
    requires DirWf(bpc, dir, chains) && k < |dir|
    requires forall j :: j != k ==> (j in chains' <==> j in chains) && (j in chains ==> chains'[j] == chains[j])
    requires Live(e) ==>
               if k in chains' then FirstOf(e) == Head(chains'[k]) && FirstOf(e) >= 2 && SizeOf(e) <= |chains'[k]| * bpc
               else FirstOf(e) == 0 && SizeOf(e) == 0
    requires k in chains' ==> Live(e)
    requires Live(e) ==> forall j :: 0 <= j < |dir| && j != k && Live(dir[j]) ==> NameOf(dir[j]) != NameOf(e)
    requires e[0] != 0 && forall j :: 0 <= j < k ==> dir[j][0] != 0
    ensures DirWf(bpc, dir[k := e], chains')
  {
  }

  // ----- file contents -------------------------------------------------------------------

  function Flatten(secs: seq<Sector>): (b: seq<byte>)
    ensures |b| == SECTOR_SIZE * |secs|
  {
    if secs == [] then [] else Flatten(secs[..|secs| - 1]) + secs[|secs| - 1]
  }

  lemma {:induction false} FlattenUpdate(secs: seq<Sector>, s: nat, sec: Sector)
    requires s < |secs|
    ensures Flatten(secs[s := sec]) == Splice(Flatten(secs), SECTOR_SIZE * s, sec)
  {
    var n := |secs| - 1;
    if s == n {
      assert secs[s := sec][..n] == secs[..n];
    } else {
      FlattenUpdate(secs[..n], s, sec);
      assert secs[s := sec][..n] == secs[..n][s := sec];
    }
  }

  lemma {:induction false} FlattenAt(secs: seq<Sector>, s: nat)
    requires s < |secs|
    ensures Flatten(secs)[SECTOR_SIZE * s..SECTOR_SIZE * s + SECTOR_SIZE] == secs[s]
  {
    var n := |secs| - 1;
    if s < n {
      FlattenAt(secs[..n], s);
      SliceOfPrefix(Flatten(secs[..n]), secs[n], SECTOR_SIZE * s, SECTOR_SIZE * s + SECTOR_SIZE);
    } else {
      assert (Flatten(secs[..n]) + secs[n])[SECTOR_SIZE * n..SECTOR_SIZE * n + SECTOR_SIZE] == secs[n];
    }
  }

  lemma SliceOfPrefix(a: seq<byte>, b: seq<byte>, i: nat, j: nat)
    requires i <= j <= |a|
    ensures (a + b)[i..j] == a[i..j]
  {
  }

  ghost predicate InRest(g: Geo, rest: seq<Sector>, c: nat) {
    c >= 2 && g.Base(c) + g.spc <= |rest|
  }

  /** The bytes of one cluster. */
  ghost function ClusterBytes(g: Geo, rest: seq<Sector>, c: nat): (b: seq<byte>)
    ensures |b| == g.BytesPerCluster()
  {
    if InRest(g, rest, c) then Flatten(rest[g.Base(c)..g.Base(c) + g.spc]) else Zeros(g.BytesPerCluster())
  }

  /** The bytes of a chain of clusters, end to end. */
  ghost function ChainBytes(g: Geo, rest: seq<Sector>, ch: seq<nat>): (b: seq<byte>)
    ensures |b| == |ch| * g.BytesPerCluster()
  {
    if ch == [] then [] else ChainBytes(g, rest, ch[..|ch| - 1]) + ClusterBytes(g, rest, ch[|ch| - 1])
  }

  lemma BaseStep(g: Geo, c: nat, d: nat)
    requires 2 <= c < d
    ensures g.Base(c) + g.spc <= g.Base(d)
  {
    StepFits(c - 2, d - 2, g.spc);
  }

  /** Every valid cluster lies inside the data area. */
  lemma ClusterInRange(g: Geo, c: nat)
    requires g.Valid() && 2 <= c < g.MaxCluster()
    ensures g.Base(c) + g.spc <= g.total - g.DataStart()
  {
    var n := g.total - g.DataStart();
    assert n == g.spc * (n / g.spc) + n % g.spc;
    BaseStep(g, c, n / g.spc + 2);
    assert n / g.spc * g.spc <= n;
  }

  /** Two data areas that differ at most in the sectors of cluster c. */
  ghost predicate SameOutside(g: Geo, r: seq<Sector>, r': seq<Sector>, c: nat) {
    |r| == |r'| && forall x :: 0 <= x < |r| && !(g.Base(c) <= x < g.Base(c) + g.spc) ==> r'[x] == r[x]
  }

  /** Rewriting one cluster leaves every other cluster alone. */
  lemma OtherCluster(g: Geo, r: seq<Sector>, r': seq<Sector>, c: nat, d: nat)
    requires c >= 2 && d >= 2 && c != d && SameOutside(g, r, r', c)
    ensures ClusterBytes(g, r', d) == ClusterBytes(g, r, d)
  {
    if c < d {
      BaseStep(g, c, d);
    } else {
      BaseStep(g, d, c);
    }
    if InRest(g, r, d) {
      assert r'[g.Base(d)..g.Base(d) + g.spc] == r[g.Base(d)..g.Base(d) + g.spc];
    }
  }

  lemma SameCluster(g: Geo, rest: seq<Sector>, c: nat, s: nat, sec: Sector)
    requires InRest(g, rest, c) && s < g.spc
    ensures ClusterBytes(g, rest[g.Base(c) + s := sec], c) == Splice(ClusterBytes(g, rest, c), SECTOR_SIZE * s, sec)
    ensures SameOutside(g, rest, rest[g.Base(c) + s := sec], c)
  {
    var secs := rest[g.Base(c)..g.Base(c) + g.spc];
    assert rest[g.Base(c) + s := sec][g.Base(c)..g.Base(c) + g.spc] == secs[s := sec];
    FlattenUpdate(secs, s, sec);
  }

  /** Rewriting a cluster that is not on a chain leaves the chain's bytes alone. */
  lemma {:induction false} ChainUntouched(g: Geo, r: seq<Sector>, r': seq<Sector>, c: nat, ch: seq<nat>)
    requires c >= 2 && c !in ch && SameOutside(g, r, r', c)
    requires forall i :: 0 <= i < |ch| ==> ch[i] >= 2
    ensures ChainBytes(g, r', ch) == ChainBytes(g, r, ch)
  {
    if ch != [] {
      ChainUntouched(g, r, r', c, ch[..|ch| - 1]);
      OtherCluster(g, r, r', c, ch[|ch| - 1]);
    }
  }

  lemma ChainSnoc(g: Geo, rest: seq<Sector>, ch: seq<nat>, c: nat)
    ensures ChainBytes(g, rest, ch + [c]) == ChainBytes(g, rest, ch) + ClusterBytes(g, rest, c)
  {
    assert (ch + [c])[..|ch|] == ch;
  }

  // ----- directory slots as data ------------------------------------------------------------

  function Range(b: nat, n: nat): (r: seq<nat>)
    ensures |r| == n && forall s :: 0 <= s < n ==> r[s] == b + s
  {
    if n == 0 then [] else Range(b, n - 1) + [b + n - 1]
  }

  /** The sectors of the root directory, in chain order, counted from the data area. */
  ghost function DirIndex(g: Geo, root: seq<nat>): (r: seq<nat>)
    ensures |r| == |root| * g.spc
  {
    if root == [] then [] else DirIndex(g, root[..|root| - 1]) + Range(g.Base(root[|root| - 1]), g.spc)
  }

  ghost function DirSlots(rest: seq<Sector>, idx: seq<nat>): (d: seq<Slot>)
    ensures |d| == SLOTS * |idx|
    ensures forall k :: 0 <= k < |d| && idx[k / SLOTS] < |rest| ==> d[k] == SlotIn(rest[idx[k / SLOTS]], k % SLOTS)
  {
    seq(SLOTS * |idx|, k requires 0 <= k < SLOTS * |idx| =>
      if idx[k / SLOTS] < |rest| then SlotIn(rest[idx[k / SLOTS]], k % SLOTS) else ZERO_SLOT)
  }

  lemma {:induction false} DirIndexAt(g: Geo, root: seq<nat>, j: nat, s: nat)
    requires j < |root| && s < g.spc
    ensures j * g.spc + s < |root| * g.spc
    ensures DirIndex(g, root)[j * g.spc + s] == g.Base(root[j]) + s
  {
    var n := |root| - 1;
    StepFits(j, |root|, g.spc);
    if j < n {
      StepFits(j, n, g.spc);
      DirIndexAt(g, root[..n], j, s);
    }
  }

  lemma {:induction false} DirIndexOf(g: Geo, root: seq<nat>, n: nat) returns (j: nat, s: nat)
    requires n < |root| * g.spc
    ensures j < |root| && s < g.spc && n == j * g.spc + s && DirIndex(g, root)[n] == g.Base(root[j]) + s
  {
    var m := |root| - 1;
    if n < m * g.spc {
      j, s := DirIndexOf(g, root[..m], n);
    } else {
      j, s := m, n - m * g.spc;
      assert |root| * g.spc == m * g.spc + g.spc;
    }
  }
}
