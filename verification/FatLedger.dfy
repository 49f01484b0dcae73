/** Conservation: free clusters, chain lengths and foreign clusters add up to the volume. */
module FatLedger {
  import opened FatBytes
  import opened FatTheory
  import opened FatDisk
  import opened FatView
  import opened FatSearch
  import opened FatFs
  import opened FatOps
  import opened FatAppend

  ghost function Clusters(n: nat): (s: set<nat>)
    ensures forall c :: c in s <==> 2 <= c < n
  {
    if n <= 2 then {} else Clusters(n - 1) + {n - 1}
  }

  lemma {:induction false} ClustersSize(n: nat)
    requires n >= 2
    ensures |Clusters(n)| == n - 2
  {
    if n == 2 {
      assert Clusters(n) == {};
    } else {
      ClustersSize(n - 1);
      assert Clusters(n) == Clusters(n - 1) + {n - 1};
    }
  }

  /** The clusters on chains whose key is in `keys`. */
  ghost function OwnedBy(own: seq<Owner>, keys: set<int>): (s: set<nat>)
    ensures forall c :: c in s <==> 2 <= c < |own| && own[c].Link? && own[c].key in keys
  {
    set c | 2 <= c < |own| && own[c].Link? && own[c].key in keys
  }

  ghost function ForeignClusters(own: seq<Owner>): (s: set<nat>)
    ensures forall c :: c in s <==> 2 <= c < |own| && own[c].Foreign?
  {
    set c | 2 <= c < |own| && own[c].Foreign?
  }

  ghost function FreeClusters(fat: seq<nat>): (s: set<nat>)
    ensures forall c :: c in s <==> 2 <= c < |fat| && fat[c] == 0
  {
    set c | 2 <= c < |fat| && fat[c] == 0
  }

  lemma {:induction false} FreeCountIsSize(fat: seq<nat>)
    ensures FreeCount(fat) == |FreeClusters(fat)|
  {
    if |fat| <= 2 {
      assert FreeClusters(fat) == {};
    } else {
      var last := |fat| - 1;
      FreeCountIsSize(fat[..last]);
      if fat[last] == 0 {
        assert FreeClusters(fat) == FreeClusters(fat[..last]) + {last};
      } else {
        assert FreeClusters(fat) == FreeClusters(fat[..last]);
      }
    }
  }

  function Length(chains: map<int, seq<nat>>, k: int): nat {
    if k in chains then |chains[k]| else 0
  }

  /** Total length of the root chain and of the chains of the first n slots. */
  function Lengths(chains: map<int, seq<nat>>, n: nat): nat {
    if n == 0 then Length(chains, ROOT) else Lengths(chains, n - 1) + Length(chains, n - 1)
  }

  ghost function Keys(n: nat): (s: set<int>)
    ensures forall k :: k in s <==> -1 <= k < n
  {
    if n == 0 then {ROOT} else Keys(n - 1) + {n - 1}
  }

  lemma ChainSize(fat: seq<nat>, m: Meta, leak: set<nat>, k: int)
    requires ChainsWf(fat, m, leak)
    ensures |OwnedBy(m.own, {k})| == Length(m.chains, k)
  {
    if k !in m.chains {
      forall c: nat | 2 <= c < |fat|
        ensures c !in OwnedBy(m.own, {k})
      {
        assert CensusAt(fat, m, leak, c);
      }
      assert OwnedBy(m.own, {k}) == {};
      return;
    }
    var ch := m.chains[k];
    ChainFacts(fat, m, leak, k);
    ElemsSize(ch);
    forall c: nat
      ensures c in OwnedBy(m.own, {k}) <==> c in Elems(ch)
    {
      if 2 <= c < |fat| {
        OwnedIsMember(fat, m, leak, k, c);
      }
    }
    assert OwnedBy(m.own, {k}) == Elems(ch);
  }

  lemma {:induction false} LengthsAreSizes(fat: seq<nat>, m: Meta, leak: set<nat>, n: nat)
    requires ChainsWf(fat, m, leak)
    ensures |OwnedBy(m.own, Keys(n))| == Lengths(m.chains, n)
  {
    hide ChainsWf, Length, OwnedBy;
    if n == 0 {
      ChainSize(fat, m, leak, ROOT);
    } else {
      LengthsAreSizes(fat, m, leak, n - 1);
      ChainSize(fat, m, leak, n - 1);
      OwnedMore(m.own, Keys(n - 1), n - 1);
    }
  }

  /** The clusters of one more chain. */
  lemma OwnedMore(own: seq<Owner>, keys: set<int>, k: int)
    requires k !in keys
    ensures |OwnedBy(own, keys + {k})| == |OwnedBy(own, keys)| + |OwnedBy(own, {k})|
  {
    assert OwnedBy(own, keys + {k}) == OwnedBy(own, keys) + OwnedBy(own, {k});
    assert OwnedBy(own, keys) !! OwnedBy(own, {k});
  }

  /** Every cluster is free, on exactly one chain, foreign, or leaked. */
  lemma Conservation(fat: seq<nat>, m: Meta, leak: set<nat>, n: nat)
    requires ChainsWf(fat, m, leak) && |fat| >= 2 && forall c :: c in leak ==> 2 <= c < |fat|
    requires forall k :: k in m.chains ==> -1 <= k < n
    ensures FreeCount(fat) + Lengths(m.chains, n) + |ForeignClusters(m.own)| + |leak| == |fat| - 2
  {
    var free, owned, foreign := FreeClusters(fat), OwnedBy(m.own, Keys(n)), ForeignClusters(m.own);
    LengthsAreSizes(fat, m, leak, n);
    FreeCountIsSize(fat);
    ClustersSize(|fat|);
    forall c: nat | 2 <= c < |fat|
      ensures InOneOf(c, free, owned, foreign, leak)
    {
      assert CensusAt(fat, m, leak, c);
    }
    Partition(|fat|, free, owned, foreign, leak);
  }

  ghost predicate InOneOf(c: nat, free: set<nat>, owned: set<nat>, foreign: set<nat>, leak: set<nat>) {
    && c in free + owned + foreign + leak
    && !(c in free && c in owned) && !(c in free && c in foreign) && !(c in owned && c in foreign)
    && (c in leak ==> c !in free && c !in owned && c !in foreign)
  }

  lemma Partition(n: nat, free: set<nat>, owned: set<nat>, foreign: set<nat>, leak: set<nat>)
    requires n >= 2 && forall c :: 2 <= c < n ==> InOneOf(c, free, owned, foreign, leak)
    requires free + owned + foreign + leak <= Clusters(n)
    ensures |free| + |owned| + |foreign| + |leak| == n - 2
  {
    ClustersSize(n);
    forall c | c in Clusters(n)
      ensures InOneOf(c, free, owned, foreign, leak) && c in free + owned + foreign + leak
    {
    }
    assert free + owned + foreign + leak == Clusters(n);
    assert free !! owned && (free + owned) !! foreign && (free + owned + foreign) !! leak;
    Disjoint4(free, owned, foreign, leak);
  }

  lemma Disjoint4(a: set<nat>, b: set<nat>, c: set<nat>, d: set<nat>)
    requires a !! b && (a + b) !! c && (a + b + c) !! d
    ensures |a + b + c + d| == |a| + |b| + |c| + |d|
  {
    assert |a + b + c| == |a + b| + |c|;
  }

  /** The clusters of the volume that belong to what lies outside its root directory. */
  ghost function Outside(g: Geo): (s: set<nat>)
    requires g.spc > 0
    ensures forall c :: c in s <==> 2 <= c < g.MaxCluster() && c in g.foreign
  {
    set c | 2 <= c < g.MaxCluster() && c in g.foreign
  }

  /** Who owns what inside the directory may change, but never what lies outside it. */
  lemma OutsideStays(g: Geo, d: seq<Sector>, m: Meta)
    requires HealthyDisk(g, d, m)
    ensures g.spc > 0 && ForeignClusters(m.own) == Outside(g)
  {
    hide Dir, DirWf, CopiesAgree, ChainOk, CensusAt, DirSlots, DirIndex;
  }

  /** Freeing the chain of a file makes exactly as many clusters free as it had. */
  lemma ChainGivenBack(g: Geo, d: seq<Sector>, m: Meta, n: seq<byte>, k: nat)
    requires EntryAt(g, d, m, n, k)
    ensures Fits(g, d) && FreeCount(ZeroAll(Fat(g, d), ChainOf(g, d, m, n))) == FreeCount(Fat(g, d)) + |ChainOf(g, d, m, n)|
  {
    ChainOfIs(g, d, m, n, k);
    assert ChainsWf(Fat(g, d), m, {});
    hide EntryAt, Dir, DirWf, CopiesAgree, DirSlots, DirIndex, Fat, ChainOf;
    if k in m.chains {
      ChainCount(Fat(g, d), m, k);
    }
  }

  lemma ChainCount(fat: seq<nat>, m: Meta, k: int)
    requires ChainsWf(fat, m, {}) && k in m.chains
    ensures FreeCount(ZeroAll(fat, m.chains[k])) == FreeCount(fat) + |m.chains[k]|
  {
    ChainFacts(fat, m, {}, k);
    var ch := m.chains[k];
    hide *;
    forall c | c in ch
      ensures InUse(fat, c)
    {
      var i :| 0 <= i < |ch| && ch[i] == c;
      InChain(fat, ch, i);
    }
    ElemsSize(ch);
    ClearedCount(fat, ch);
  }

  /** A cluster that is not free. */
  ghost predicate InUse(fat: seq<nat>, c: nat) {
    2 <= c < |fat| && fat[c] != 0
  }

  lemma InChain(fat: seq<nat>, ch: seq<nat>, i: nat)
    requires i < |ch| && 2 <= ch[i] < |fat|
    requires if i + 1 < |ch| then fat[ch[i]] == ch[i + 1] >= 2 else fat[ch[i]] >= EOC
    ensures InUse(fat, ch[i])
  {
  }

  lemma ClearedCount(fat: seq<nat>, ch: seq<nat>)
    requires |Elems(ch)| == |ch| && forall c :: c in ch ==> InUse(fat, c)
    ensures FreeCount(ZeroAll(fat, ch)) == FreeCount(fat) + |ch|
  {
    hide FreeCount, ZeroAll, Elems;
    FreeCountIsSize(fat);
    FreeCountIsSize(ZeroAll(fat, ch));
    assert FreeClusters(ZeroAll(fat, ch)) == FreeClusters(fat) + Elems(ch);
    assert FreeClusters(fat) !! Elems(ch);
  }

  /** In every healthy volume the books balance with nothing leaked. */
  lemma VolumeBalances(g: Geo, d: seq<Sector>, m: Meta)
    requires HealthyDisk(g, d, m)
    ensures Fits(g, d) && g.MaxCluster() >= 2
    ensures FreeCount(Fat(g, d)) + Lengths(m.chains, |Dir(g, d, m)|) + |Outside(g)| == g.MaxCluster() - 2
    ensures g.foreign == {} ==> FreeCount(Fat(g, d)) + Lengths(m.chains, |Dir(g, d, m)|) == g.MaxCluster() - 2
  {
    OutsideStays(g, d, m);
    hide Dir, Fat, CopiesAgree, Lengths, FreeCount, Geo.MaxCluster, ChainOk, CensusAt, DirSlots, DirIndex;
    AtLeastTwo(g);
    Conservation(Fat(g, d), m, {}, |Dir(g, d, m)|);
  }

  lemma AtLeastTwo(g: Geo)
    requires g.Valid()
    ensures g.MaxCluster() >= 2
  {
    hide Geo.DataStart;
    if g.total > g.DataStart() {
      QuotientNonNeg(g.total - g.DataStart(), g.spc);
    }
  }

  lemma QuotientNonNeg(a: int, b: int)
    requires a >= 0 && b > 0
    ensures a / b >= 0
  {
  }
}
