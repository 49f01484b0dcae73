/** A freshly formatted volume: where every history of calls can start. */
module FatFormat {
  import opened FatBytes
  import opened FatTheory
  import opened FatDisk
  import opened FileMaps
  import opened FatView
  import opened FatSearch

  /** A root directory of one cluster without a used slot, and no other cluster taken. */
  ghost predicate Formatted(g: Geo, d: seq<Sector>) {
    && Fits(g, d) && CopiesAgree(g, d) && 2 <= g.root < g.MaxCluster() && g.foreign == {}
    && Fat(g, d)[g.root] >= EOC
    && (forall c :: 2 <= c < g.MaxCluster() && c != g.root ==> Fat(g, d)[c] == 0)
    && EmptyRoot(g, Rest(g, d))
  }

  ghost predicate EmptyRoot(g: Geo, rest: seq<Sector>) {
    && g.Base(g.root) + g.spc <= |rest|
    && forall s: nat, i: nat {:trigger SlotIn(rest[g.Base(g.root) + s], i)} :: s < g.spc && i < SLOTS ==>
         SlotIn(rest[g.Base(g.root) + s], i)[0] == 0
  }

  ghost function FormattedMeta(g: Geo, n: nat): (m: Meta)
    ensures |m.own| == n && m.chains == map[ROOT := [g.root]]
    ensures forall c :: 0 <= c < n ==> m.own[c] == if c == g.root then Link(ROOT, 0) else Free
  {
    Meta(map[ROOT := [g.root]], seq(n, c requires 0 <= c < n => if c == g.root then Link(ROOT, 0) else Free))
  }

  lemma FormattedChains(fat: seq<nat>, g: Geo)
    requires 2 <= g.root < |fat| && fat[g.root] >= EOC && forall c :: 2 <= c < |fat| && c != g.root ==> fat[c] == 0
    ensures ChainsWf(fat, FormattedMeta(g, |fat|), {})
  {
    var m := FormattedMeta(g, |fat|);
    assert ChainOk(fat, m.own, ROOT, m.chains[ROOT]);
    forall c | 2 <= c < |fat| ensures CensusAt(fat, m, {}, c) {
    }
  }

  lemma RootSlotsUnused(g: Geo, rest: seq<Sector>, k: nat)
    requires EmptyRoot(g, rest) && g.spc > 0 && k < SLOTS * |DirIndex(g, [g.root])|
    ensures DirSlots(rest, DirIndex(g, [g.root]))[k][0] == 0
  {
    var s, i := k / SLOTS, k % SLOTS;
    assert |DirIndex(g, [g.root])| == g.spc;
    DirIndexAt(g, [g.root], 0, s);
    assert SlotIn(rest[g.Base(g.root) + s], i)[0] == 0;
  }

  lemma {:induction false} NoFiles(items: seq<Item>)
    requires forall k :: 0 <= k < |items| ==> items[k] == Absent
    ensures FileMap(items) == map[]
  {
    if items != [] {
      NoFiles(items[1..]);
    }
  }

  /** It is healthy, and holds no file. */
  lemma FormattedHealthy(g: Geo, d: seq<Sector>) returns (m: Meta)
    requires Formatted(g, d)
    ensures HealthyDisk(g, d, m) && Files(g, d, m) == map[]
  {
    hide ChainsWf, CopiesAgree, EmptyRoot, DirSlots, DirIndex, SlotIn;
    m := FormattedMeta(g, g.MaxCluster());
    FormattedChains(Fat(g, d), g);
    var dir := Dir(g, d, m);
    assert RootChain(m) == [g.root];
    forall k: nat | k < |dir| ensures dir[k][0] == 0 {
      RootSlotsUnused(g, Rest(g, d), k);
    }
    NoFiles(Listing(g, d, m));
  }
}
