/** The kernel heap of memory/allocator.c: best fit, splitting and coalescing. */
module Heap {

  const HEAP_SIZE: nat := 229376
  const HEADER: nat := 12
  const NULL: int := -1

  type u32 = x: int | 0 <= x < 0x1_0000_0000

  /** A block header as it lies in heap_memory; `next` is an offset or NULL. */
  datatype Header = Header(size: nat, inUse: bool, next: int)

  // ----- the heap as a list of blocks ------------------------------------------------------

  /** A block: the offset of its header, its payload size, and whether it is handed out. */
  datatype Block = Block(start: nat, size: nat, inUse: bool) {
    function End(): nat {
      start + HEADER + size
    }
  }

  /** Block i + 1 starts where block i ends. */
  ghost predicate Adjoins(v: seq<Block>, i: int) {
    0 <= i < |v| - 1 && v[i].End() == v[i + 1].start
  }

  /** Blocks i and i + 1 are not both free. */
  ghost predicate Apart(v: seq<Block>, i: int) {
    0 <= i < |v| - 1 && (v[i].inUse || v[i + 1].inUse)
  }

  /** The blocks lie end to end from `start` to the end of the heap. */
  ghost predicate Tiles(v: seq<Block>, start: nat) {
    && |v| > 0 && v[0].start == start && v[|v| - 1].End() == HEAP_SIZE
    && forall i :: 0 <= i < |v| - 1 ==> Adjoins(v, i)
  }

  ghost predicate NoFreePair(v: seq<Block>) {
    forall i :: 0 <= i < |v| - 1 ==> Apart(v, i)
  }

  /** The blocks handed out, in address order. */
  function Used(v: seq<Block>): seq<Block> {
    if v == [] then []
    else if v[|v| - 1].inUse then Used(v[..|v| - 1]) + [v[|v| - 1]]
    else Used(v[..|v| - 1])
  }

  predicate Fits(b: Block, size: nat) {
    !b.inUse && b.size >= size
  }

  /** The first of the smallest free blocks that are large enough. */
  ghost predicate BestFit(v: seq<Block>, size: nat, i: nat) {
    && i < |v| && Fits(v[i], size)
    && (forall j :: 0 <= j < |v| && Fits(v[j], size) ==> v[i].size <= v[j].size)
    && (forall j :: 0 <= j < i && Fits(v[j], size) ==> v[i].size < v[j].size)
  }

  /** What taking `size` bytes of a free block leaves: the used part, and a free rest if
      it can hold a header and at least a byte. */
  function Carved(b: Block, size: nat): seq<Block>
    requires size <= b.size
  {
    if b.size - size > HEADER
    then [Block(b.start, size, true), Block(b.start + HEADER + size, b.size - size - HEADER, false)]
    else [Block(b.start, b.size, true)]
  }

  function Allocated(v: seq<Block>, i: nat, size: nat): seq<Block>
    requires i < |v| && size <= v[i].size
  {
    v[..i] + Carved(v[i], size) + v[i + 1..]
  }

  /** One pass from the left: a free block swallows the free blocks right of it. */
  function Coalesced(v: seq<Block>): seq<Block>
    decreases |v|
  {
    if |v| <= 1 then v
    else if !v[0].inUse && !v[1].inUse
    then Coalesced([Block(v[0].start, v[0].size + HEADER + v[1].size, false)] + v[2..])
    else [v[0]] + Coalesced(v[1..])
  }

  function Released(v: seq<Block>, i: nat): seq<Block>
    requires i < |v|
  {
    Coalesced(v[i := v[i].(inUse := false)])
  }

  // ----- what the operations keep --------------------------------------------------------------

  lemma {:induction false} StartsIncrease(v: seq<Block>, start: nat, i: nat, j: nat)
    requires Tiles(v, start) && i < j < |v|
    ensures v[i].End() <= v[j].start
    decreases j - i
  {
    if i + 1 < j {
      StartsIncrease(v, start, i, j - 1);
      assert Adjoins(v, j - 1);
    } else {
      assert Adjoins(v, i);
    }
  }

  /** Blocks, headers included, do not overlap and lie in the heap. */
  lemma BlocksDisjoint(v: seq<Block>, i: nat, j: nat)
    requires Tiles(v, 0) && i < |v| && j < |v| && i != j
    ensures v[i].End() <= v[j].start || v[j].End() <= v[i].start
    ensures v[i].End() <= HEAP_SIZE
  {
    if i < j {
      StartsIncrease(v, 0, i, j);
    } else {
      StartsIncrease(v, 0, j, i);
    }
    if i < |v| - 1 {
      StartsIncrease(v, 0, i, |v| - 1);
    }
  }

  /** Block k of the list after allocation, in terms of the list before. */
  lemma AllocatedAt(v: seq<Block>, i: nat, size: nat, k: nat)
    requires i < |v| && size <= v[i].size && k < |Allocated(v, i, size)|
    ensures var w, c := Allocated(v, i, size), Carved(v[i], size);
            && |w| == |v| + |c| - 1
            && w[k] == if k < i then v[k] else if k < i + |c| then c[k - i] else v[k - |c| + 1]
  {
  }

  lemma AllocatedTiles(v: seq<Block>, start: nat, i: nat, size: nat)
    requires Tiles(v, start) && i < |v| && size <= v[i].size
    ensures Tiles(Allocated(v, i, size), start)
  {
    var w, c := Allocated(v, i, size), Carved(v[i], size);
    AllocatedAt(v, i, size, 0);
    AllocatedAt(v, i, size, |w| - 1);
    hide Allocated;
    forall k | 0 <= k < |w| - 1
      ensures Adjoins(w, k)
    {
      AllocatedAt(v, i, size, k);
      AllocatedAt(v, i, size, k + 1);
      if k < i {
        assert Adjoins(v, k);
      } else if k >= i + |c| - 1 {
        assert Adjoins(v, k - |c| + 1);
      }
    }
  }

  lemma AllocatedNoPair(v: seq<Block>, i: nat, size: nat)
    requires NoFreePair(v) && i < |v| && !v[i].inUse && size <= v[i].size
    ensures NoFreePair(Allocated(v, i, size))
  {
    var w, c := Allocated(v, i, size), Carved(v[i], size);
    hide Allocated;
    forall k | 0 <= k < |w| - 1
      ensures Apart(w, k)
    {
      AllocatedAt(v, i, size, k);
      AllocatedAt(v, i, size, k + 1);
      if k < i {
        assert Apart(v, k);
      } else if k >= i + |c| - 1 {
        assert Apart(v, k - |c| + 1);
      }
    }
  }

  lemma {:induction false} UsedConcat(a: seq<Block>, b: seq<Block>)
    ensures Used(a + b) == Used(a) + Used(b)
  {
    if b == [] {
      assert a + b == a;
    } else {
      UsedConcat(a, b[..|b| - 1]);
      assert (a + b)[..|a + b| - 1] == a + b[..|b| - 1];
    }
  }

  lemma UsedBetween(a: seq<Block>, c: seq<Block>, b: seq<Block>)
    ensures Used(a + c + b) == Used(a) + Used(c) + Used(b)
  {
    hide Used;
    UsedConcat(a + c, b);
    UsedConcat(a, c);
  }

  /** Of what is carved from a free block, just the first piece is used. */
  lemma UsedOfCarved(b: Block, size: nat)
    requires size <= b.size
    ensures Used(Carved(b, size)) == [Carved(b, size)[0]]
  {
    var c := Carved(b, size);
    UsedOfOne(c[0]);
    if |c| == 2 {
      assert c == [c[0]] + [c[1]];
      UsedConcat([c[0]], [c[1]]);
      UsedOfOne(c[1]);
    } else {
      assert c == [c[0]];
    }
  }

  /** Allocation hands out exactly one more block, at the place of the one it carves. */
  lemma AllocatedUsed(v: seq<Block>, i: nat, size: nat)
    requires i < |v| && !v[i].inUse && size <= v[i].size
    ensures Used(v) == Used(v[..i]) + Used(v[i + 1..])
    ensures Used(Allocated(v, i, size)) == Used(v[..i]) + [Carved(v[i], size)[0]] + Used(v[i + 1..])
  {
    hide Used, Carved;
    assert v == v[..i] + [v[i]] + v[i + 1..];
    UsedBetween(v[..i], [v[i]], v[i + 1..]);
    UsedOfOne(v[i]);
    assert Used(v[..i]) + [] == Used(v[..i]);
    UsedBetween(v[..i], Carved(v[i], size), v[i + 1..]);
    UsedOfCarved(v[i], size);
  }

  lemma UsedOfOne(b: Block)
    ensures Used([b]) == if b.inUse then [b] else []
  {
    assert [b][..0] == [];
  }

  lemma {:induction false} CoalescedTiles(v: seq<Block>, start: nat)
    requires Tiles(v, start)
    ensures Tiles(Coalesced(v), start) && Coalesced(v)[0].inUse == v[0].inUse
    decreases |v|
  {
    if |v| > 1 {
      if !v[0].inUse && !v[1].inUse {
        var w := [Block(v[0].start, v[0].size + HEADER + v[1].size, false)] + v[2..];
        MergedTiles(v, start);
        CoalescedTiles(w, start);
      } else {
        assert Adjoins(v, 0);
        TailTiles(v, start);
        CoalescedTiles(v[1..], v[1].start);
        HeadTiles(v[0], Coalesced(v[1..]));
      }
    }
  }

  lemma MergedTiles(v: seq<Block>, start: nat)
    requires Tiles(v, start) && |v| > 1
    ensures Tiles([Block(v[0].start, v[0].size + HEADER + v[1].size, false)] + v[2..], start)
  {
    var w := [Block(v[0].start, v[0].size + HEADER + v[1].size, false)] + v[2..];
    assert Adjoins(v, 0);
    forall i | 0 <= i < |w| - 1
      ensures Adjoins(w, i)
    {
      assert Adjoins(v, i + 1);
    }
  }

  lemma TailTiles(v: seq<Block>, start: nat)
    requires Tiles(v, start) && |v| > 1
    ensures Tiles(v[1..], v[1].start)
  {
    forall i | 0 <= i < |v[1..]| - 1
      ensures Adjoins(v[1..], i)
    {
      assert Adjoins(v, i + 1);
    }
  }

  lemma HeadTiles(b: Block, v: seq<Block>)
    requires Tiles(v, b.End())
    ensures Tiles([b] + v, b.start)
  {
    forall i | 0 <= i < |[b] + v| - 1
      ensures Adjoins([b] + v, i)
    {
      assert i > 0 ==> Adjoins(v, i - 1);
    }
  }

  lemma {:induction false} CoalescedNoPair(v: seq<Block>)
    requires |v| > 0
    ensures NoFreePair(Coalesced(v)) && |Coalesced(v)| > 0 && Coalesced(v)[0].inUse == v[0].inUse
    decreases |v|
  {
    if |v| > 1 {
      if !v[0].inUse && !v[1].inUse {
        CoalescedNoPair([Block(v[0].start, v[0].size + HEADER + v[1].size, false)] + v[2..]);
      } else {
        CoalescedNoPair(v[1..]);
        var w := Coalesced(v[1..]);
        forall i | 0 <= i < |[v[0]] + w| - 1
          ensures Apart([v[0]] + w, i)
        {
          if i > 0 {
            assert Apart(w, i - 1);
          }
        }
      }
    }
  }

  lemma {:induction false} CoalescedUsed(v: seq<Block>)
    ensures Used(Coalesced(v)) == Used(v)
    decreases |v|
  {
    if |v| > 1 {
      if !v[0].inUse && !v[1].inUse {
        var b := Block(v[0].start, v[0].size + HEADER + v[1].size, false);
        CoalescedUsed([b] + v[2..]);
        assert v == [v[0]] + ([v[1]] + v[2..]);
        UsedConcat([v[0]], [v[1]] + v[2..]);
        UsedConcat([v[1]], v[2..]);
        UsedConcat([b], v[2..]);
        UsedOfOne(v[0]);
        UsedOfOne(v[1]);
        UsedOfOne(b);
      } else {
        CoalescedUsed(v[1..]);
        assert v == [v[0]] + v[1..];
        UsedConcat([v[0]], v[1..]);
        UsedConcat([v[0]], Coalesced(v[1..]));
      }
    }
  }

  /** Releasing takes back exactly that block. */
  lemma ReleasedUsed(v: seq<Block>, i: nat)
    requires i < |v| && v[i].inUse
    ensures Used(v) == Used(v[..i]) + [v[i]] + Used(v[i + 1..])
    ensures Used(Released(v, i)) == Used(v[..i]) + Used(v[i + 1..])
  {
    hide Coalesced, Used;
    var b := v[i].(inUse := false);
    CoalescedUsed(v[i := b]);
    assert v == v[..i] + [v[i]] + v[i + 1..] && v[i := b] == v[..i] + [b] + v[i + 1..];
    UsedConcat(v[..i] + [v[i]], v[i + 1..]);
    UsedConcat(v[..i], [v[i]]);
    UsedConcat(v[..i] + [b], v[i + 1..]);
    UsedConcat(v[..i], [b]);
    UsedOfOne(v[i]);
    UsedOfOne(b);
  }

  lemma ReleasedGood(v: seq<Block>, i: nat)
    requires Tiles(v, 0) && i < |v|
    ensures Tiles(Released(v, i), 0) && NoFreePair(Released(v, i))
  {
    var w := v[i := v[i].(inUse := false)];
    forall k | 0 <= k < |w| - 1
      ensures Adjoins(w, k)
    {
      assert Adjoins(v, k);
    }
    CoalescedTiles(w, 0);
    CoalescedNoPair(w);
  }

  lemma {:induction false} NoneUsed(v: seq<Block>, i: nat)
    requires Used(v) == [] && i < |v|
    ensures !v[i].inUse
  {
    if i < |v| - 1 {
      NoneUsed(v[..|v| - 1], i);
    }
  }

  /** With everything given back, in whatever order, the heap is one free block again. */
  lemma AllReleased(v: seq<Block>)
    requires Tiles(v, 0) && NoFreePair(v) && Used(v) == []
    ensures v == [Block(0, HEAP_SIZE - HEADER, false)]
  {
    NoneUsed(v, 0);
    assert |v| > 1 ==> Apart(v, 0);
    if |v| > 1 {
      NoneUsed(v, 1);
    }
    assert v == [v[0]];
  }

  // ----- the code --------------------------------------------------------------------------------

  /** The header of block i, as the list of blocks says it. */
  function HeaderOf(v: seq<Block>, i: nat): Header
    requires i < |v|
  {
    Header(v[i].size, v[i].inUse, if i + 1 < |v| then v[i + 1].start else NULL)
  }

  /** The headers in memory are those of the blocks. */
  ghost predicate Linked(h: map<int, Header>, v: seq<Block>) {
    forall i :: 0 <= i < |v| ==> LinkedAt(h, v, i)
  }

  ghost predicate LinkedAt(h: map<int, Header>, v: seq<Block>, i: int) {
    0 <= i < |v| && v[i].start in h && h[v[i].start] == HeaderOf(v, i)
  }

  class Heap {
    var headers: map<int, Header>
    var freeList: int
    ghost var blocks: seq<Block>

    ghost predicate Valid()
      reads this
    {
      freeList == 0 && Tiles(blocks, 0) && NoFreePair(blocks) && Linked(headers, blocks)
    }

    /** heap_init: one free block. */
    constructor ()
      ensures Valid() && blocks == [Block(0, HEAP_SIZE - HEADER, false)] && Used(blocks) == []
    {
      freeList := 0;
      headers := map[0 := Header(HEAP_SIZE - HEADER, false, NULL)];
      blocks := [Block(0, HEAP_SIZE - HEADER, false)];
      new;
      UsedOfOne(blocks[0]);
    }

    /** The scan of kmalloc: the first of the smallest free blocks that fit, or NULL. */
    method FindBest(size: nat) returns (best: int, ghost i: nat)
      requires Valid()
      ensures best == NULL ==> forall j :: 0 <= j < |blocks| ==> !Fits(blocks[j], size)
      ensures best != NULL ==> BestFit(blocks, size, i) && best == blocks[i].start
    {
      var current := freeList;
      var bestSize := 0xFFFF_FFFF;
      best := NULL;
      i := 0;
      ghost var n := 0;
      while current != NULL
        invariant 0 <= n <= |blocks| && current == if n < |blocks| then blocks[n].start else NULL
        invariant best == NULL ==> bestSize == 0xFFFF_FFFF && forall j :: 0 <= j < n ==> !Fits(blocks[j], size)
        invariant best != NULL ==> i < n && best == blocks[i].start && bestSize == blocks[i].size && BestFit(blocks[..n], size, i)
        decreases |blocks| - n
      {
        assert LinkedAt(headers, blocks, n);
        BlockSmall(blocks, n);
        var h := headers[current];
        if !h.inUse && h.size >= size {
          if h.size < bestSize {
            best, bestSize, i := current, h.size, n;
          }
        }
        current := h.next;
        n := n + 1;
      }
      assert blocks[..|blocks|] == blocks;
    }

    /** kmalloc: NULL exactly when nothing is asked for or no free block fits; otherwise
        the payload of a best fit, carved out of it. */
    method Kmalloc(size: u32) returns (ptr: int)
      requires Valid()
      modifies this
      ensures Valid()
      ensures ptr == NULL <==> size == 0 || forall j :: 0 <= j < |old(blocks)| ==> !Fits(old(blocks)[j], size)
      ensures ptr == NULL ==> blocks == old(blocks) && headers == old(headers)
      ensures ptr != NULL ==> exists i: nat :: BestFit(old(blocks), size, i) && Handed(old(blocks), i, size, blocks, ptr)
    {
      if size == 0 || freeList == NULL {
        return NULL;
      }
      var best;
      ghost var i;
      best, i := FindBest(size);
      if best == NULL {
        return NULL;
      }
      ghost var v := blocks;
      assert LinkedAt(headers, v, i);
      var h := headers[best];
      var remaining := h.size - size;
      CarvedLinked(headers, v, i, size);
      if remaining > HEADER {
        var rest := best + HEADER + size;
        headers := headers[rest := Header(remaining - HEADER, false, h.next)];
        h := Header(size, h.inUse, rest);
      }
      headers := headers[best := h.(inUse := true)];
      blocks := Allocated(v, i, size);
      AllocatedTiles(v, 0, i, size);
      AllocatedNoPair(v, i, size);
      AllocatedUsed(v, i, size);
      ptr := best + HEADER;
      assert Handed(v, i, size, blocks, ptr);
    }

    /** The coalescing pass of kfree over the whole list. */
    method Coalesce(ghost v: seq<Block>)
      requires freeList == 0 && Tiles(v, 0) && Linked(headers, v)
      modifies this
      ensures freeList == 0 && Linked(headers, Coalesced(v)) && blocks == old(blocks)
    {
      hide Tiles, Linked, Coalesced;
      var current := freeList;
      ghost var done: seq<Block>, rest := [], v;
      assert done + rest == v;
      FirstIsAt0(v);
      while current != NULL
        invariant freeList == 0 && blocks == old(blocks) && Coalesced(v) == done + Coalesced(rest)
        invariant Tiles(done + rest, 0) && Linked(headers, done + rest)
        invariant current == if rest != [] then rest[0].start else NULL
        decreases |rest|
      {
        HeadersAt(headers, done, rest);
        ghost var before := headers;
        var h := headers[current];
        if !h.inUse && h.next != NULL && !headers[h.next].inUse {
          var n := headers[h.next];
          headers := headers[current := Header(h.size + HEADER + n.size, h.inUse, n.next)];
          MergeLinked(before, done, rest);
          rest := [Merged(rest)] + rest[2..];
        } else {
          KeepsOn(done, rest);
          current := h.next;
          done, rest := done + [rest[0]], rest[1..];
        }
      }
      assert done + rest == done;
      NothingLeft(rest);
    }

    /** kfree: NULL is ignored; a pointer that kmalloc gave and was not given back is. */
    method Kfree(ptr: int, ghost i: nat)
      requires Valid()
      requires ptr != NULL ==> i < |blocks| && blocks[i].inUse && ptr == blocks[i].start + HEADER
      modifies this
      ensures Valid()
      ensures ptr == NULL ==> blocks == old(blocks) && headers == old(headers)
      ensures ptr != NULL ==> blocks == Released(old(blocks), i)
      ensures ptr != NULL ==> Used(old(blocks)) == Used(old(blocks)[..i]) + [old(blocks)[i]] + Used(old(blocks)[i + 1..])
                              && Used(blocks) == Used(old(blocks)[..i]) + Used(old(blocks)[i + 1..])
    {
      if ptr == NULL || freeList == NULL {
        return;
      }
      ghost var v := blocks;
      ghost var w := v[i := v[i].(inUse := false)];
      var block := ptr - HEADER;
      assert LinkedAt(headers, v, i);
      headers := headers[block := headers[block].(inUse := false)];
      FreedLinked(old(headers), v, i);
      ReleasedGood(v, i);
      ReleasedUsed(v, i);
      Coalesce(w);
      blocks := Coalesced(w);
    }
  }

  /** Distinct blocks have distinct headers. */
  lemma StartsDiffer(v: seq<Block>, i: nat, j: nat)
    requires Tiles(v, 0) && i < |v| && j < |v| && i != j
    ensures v[i].start != v[j].start
  {
    BlocksDisjoint(v, i, j);
  }

  /** The headers after block i gave up what lies past `size` bytes. */
  function CarvedHeaders(h: map<int, Header>, v: seq<Block>, i: nat, size: nat): map<int, Header>
    requires i < |v| && size <= v[i].size
  {
    var remaining, rest, next := v[i].size - size, v[i].start + HEADER + size, HeaderOf(v, i).next;
    if remaining > HEADER
    then h[rest := Header(remaining - HEADER, false, next)][v[i].start := Header(size, true, rest)]
    else h[v[i].start := Header(v[i].size, true, next)]
  }

  lemma CarvedLinked(h: map<int, Header>, v: seq<Block>, i: nat, size: nat)
    requires Linked(h, v) && Tiles(v, 0) && i < |v| && size <= v[i].size
    ensures Linked(CarvedHeaders(h, v, i, size), Allocated(v, i, size))
  {
    var h', w, c := CarvedHeaders(h, v, i, size), Allocated(v, i, size), Carved(v[i], size);
    hide Allocated;
    forall k | 0 <= k < |w|
      ensures LinkedAt(h', w, k)
    {
      AllocatedAt(v, i, size, k);
      if k + 1 < |w| {
        AllocatedAt(v, i, size, k + 1);
      }
      if k < i || k >= i + |c| {
        var j := if k < i then k else k - |c| + 1;
        BlocksDisjoint(v, i, j);
        assert LinkedAt(h, v, j);
      }
    }
  }

  function Merged(rest: seq<Block>): Block
    requires |rest| > 1
  {
    Block(rest[0].start, rest[0].size + HEADER + rest[1].size, false)
  }

  /** The list after a merge behind the blocks already done. */
  function AfterMerge(done: seq<Block>, rest: seq<Block>): (w: seq<Block>)
    requires |rest| > 1
    ensures |w| == |done| + |rest| - 1
    ensures forall k :: 0 <= k < |w| ==> w[k] == if k < |done| then done[k] else if k == |done| then Merged(rest) else rest[k - |done| + 1]
  {
    done + ([Merged(rest)] + rest[2..])
  }

  lemma MergeTiles(done: seq<Block>, rest: seq<Block>)
    requires |rest| > 1 && Tiles(done + rest, 0)
    ensures Tiles(AfterMerge(done, rest), 0)
  {
    hide AfterMerge;
    var v, w, n := done + rest, AfterMerge(done, rest), |done|;
    assert v[n] == rest[0] && v[n + 1] == rest[1] && Adjoins(v, n);
    forall k | 0 <= k < |w| - 1
      ensures Adjoins(w, k)
    {
      assert Adjoins(v, if k < n then k else k + 1);
    }
  }

  /** One merge: in memory, in the list, and nothing changed in what the pass will make. */
  /** What the cursor of the pass reads: the header of its block, and of the next one if any. */
  lemma HeadersAt(h: map<int, Header>, done: seq<Block>, rest: seq<Block>)
    requires rest != [] && Linked(h, done + rest)
    ensures rest[0].start in h && h[rest[0].start] == HeaderOf(done + rest, |done|) == HeaderOf(rest, 0)
    ensures |rest| > 1 ==> rest[1].start in h && h[rest[1].start] == HeaderOf(done + rest, |done| + 1) == HeaderOf(rest, 1)
  {
    assert LinkedAt(h, done + rest, |done|);
    if |rest| > 1 {
      assert LinkedAt(h, done + rest, |done| + 1);
    }
  }

  lemma FirstIsAt0(v: seq<Block>)
    requires Tiles(v, 0)
    ensures v != [] && v[0].start == 0
  {
  }

  lemma NothingLeft(rest: seq<Block>)
    requires rest == []
    ensures Coalesced(rest) == []
  {
  }

  lemma MergeLinked(h: map<int, Header>, done: seq<Block>, rest: seq<Block>)
    requires |rest| > 1 && !rest[0].inUse && !rest[1].inUse && Tiles(done + rest, 0) && Linked(h, done + rest)
    ensures var w := done + ([Merged(rest)] + rest[2..]);
            && Tiles(w, 0) && Coalesced(rest) == Coalesced([Merged(rest)] + rest[2..])
            && Linked(h[rest[0].start := Header(Merged(rest).size, false, HeaderOf(done + rest, |done| + 1).next)], w)
  {
    MergeTiles(done, rest);
    var v, n, w := done + rest, |done|, AfterMerge(done, rest);
    var h' := h[rest[0].start := Header(Merged(rest).size, false, HeaderOf(v, n + 1).next)];
    forall k | 0 <= k < |w|
      ensures LinkedAt(h', w, k)
    {
      MergedAt(h, done, rest, k);
    }
  }

  lemma MergedAt(h: map<int, Header>, done: seq<Block>, rest: seq<Block>, k: nat)
    requires |rest| > 1 && Tiles(done + rest, 0) && Linked(h, done + rest) && k < |AfterMerge(done, rest)|
    ensures LinkedAt(h[rest[0].start := Header(Merged(rest).size, false, HeaderOf(done + rest, |done| + 1).next)],
                     AfterMerge(done, rest), k)
  {
    hide AfterMerge, Coalesced;
    var v, n := done + rest, |done|;
    var j := if k <= n then k else k + 1;
    assert LinkedAt(h, v, j);
    if k != n {
      StartsDiffer(v, n, j);
    }
    hide Tiles, Linked;
  }

  /** A block that cannot merge with its right neighbour is done. */
  lemma KeepsOn(done: seq<Block>, rest: seq<Block>)
    requires rest != [] && (|rest| > 1 ==> rest[0].inUse || rest[1].inUse)
    ensures Coalesced(rest) == [rest[0]] + Coalesced(rest[1..])
    ensures done + [rest[0]] + rest[1..] == done + rest
    ensures done + Coalesced(rest) == done + [rest[0]] + Coalesced(rest[1..])
  {
    hide *;
    KeepsFirst(rest);
    Concat3(done, [rest[0]], Coalesced(rest[1..]));
    Concat3(done, [rest[0]], rest[1..]);
    assert [rest[0]] + rest[1..] == rest;
  }

  lemma Concat3(a: seq<Block>, b: seq<Block>, c: seq<Block>)
    ensures a + b + c == a + (b + c)
  {
  }

  lemma KeepsFirst(rest: seq<Block>)
    requires rest != [] && (|rest| > 1 ==> rest[0].inUse || rest[1].inUse)
    ensures Coalesced(rest) == [rest[0]] + Coalesced(rest[1..])
  {
    if |rest| == 1 {
      assert rest[1..] == [] && Coalesced(rest[1..]) == [];
    }
  }

  lemma FreedLinked(h: map<int, Header>, v: seq<Block>, i: nat)
    requires Linked(h, v) && Tiles(v, 0) && i < |v|
    ensures var w := v[i := v[i].(inUse := false)];
            Tiles(w, 0) && v[i].start in h && Linked(h[v[i].start := h[v[i].start].(inUse := false)], w)
  {
    assert LinkedAt(h, v, i);
    var w := v[i := v[i].(inUse := false)];
    var h' := h[v[i].start := h[v[i].start].(inUse := false)];
    forall k | 0 <= k < |w| - 1
      ensures Adjoins(w, k)
    {
      assert Adjoins(v, k);
    }
    forall k | 0 <= k < |w|
      ensures LinkedAt(h', w, k)
    {
      assert LinkedAt(h, v, k);
      if k != i {
        StartsDiffer(v, i, k);
      }
    }
  }

  lemma BlockSmall(v: seq<Block>, i: nat)
    requires Tiles(v, 0) && i < |v|
    ensures v[i].size < 0xFFFF_FFFF
  {
    if |v| > 1 {
      BlocksDisjoint(v, i, if i == 0 then 1 else 0);
    }
  }

  /** What kmalloc gives: a block of at least the size asked for, the rest as it was. */
  ghost predicate Handed(v: seq<Block>, i: nat, size: nat, v': seq<Block>, ptr: int) {
    && i < |v| && size <= v[i].size && v' == Allocated(v, i, size) && ptr == v[i].start + HEADER
    && v'[i].inUse && v'[i].start == v[i].start && v'[i].size >= size
    && Used(v') == Used(v[..i]) + [v'[i]] + Used(v[i + 1..]) && Used(v) == Used(v[..i]) + Used(v[i + 1..])
  }

  // ----- whole runs ------------------------------------------------------------------------------------

  /** p points at the payload of a block of the list. */
  ghost predicate PointsInto(u: seq<Block>, p: int) {
    exists b :: b in u && p == b.start + HEADER
  }

  lemma {:induction false} UsedMember(v: seq<Block>, b: Block)
    ensures b in Used(v) <==> b in v && b.inUse
  {
    if v != [] {
      UsedMember(v[..|v| - 1], b);
      assert v == v[..|v| - 1] + [v[|v| - 1]];
    }
  }

  /** The block a live pointer belongs to. */
  lemma LiveBlock(v: seq<Block>, p: int) returns (i: nat)
    requires PointsInto(Used(v), p)
    ensures i < |v| && v[i].inUse && p == v[i].start + HEADER
  {
    var b :| b in Used(v) && p == b.start + HEADER;
    UsedMember(v, b);
    i :| 0 <= i < |v| && v[i] == b;
  }

  /** No other block handed out has the same payload. */
  lemma LiveElsewhere(v: seq<Block>, i: nat, p: int)
    requires Tiles(v, 0) && i < |v| && p == v[i].start + HEADER
    ensures !PointsInto(Used(v[..i]) + Used(v[i + 1..]), p)
  {
    forall b | b in Used(v[..i]) + Used(v[i + 1..])
      ensures p != b.start + HEADER
    {
      UsedMember(v[..i], b);
      UsedMember(v[i + 1..], b);
      if b in v[..i] {
        var j :| 0 <= j < i && v[j] == b;
        StartsDiffer(v, i, j);
      } else {
        var j :| 0 <= j < |v[i + 1..]| && v[i + 1..][j] == b;
        StartsDiffer(v, i, i + 1 + j);
      }
    }
  }

  lemma PointsMore(a: seq<Block>, b: Block, c: seq<Block>, p: int)
    ensures PointsInto(a + [b] + c, p) <==> PointsInto(a + c, p) || p == b.start + HEADER
  {
    if PointsInto(a + c, p) {
      var x :| x in a + c && p == x.start + HEADER;
      assert x in a + [b] + c;
    }
    if p == b.start + HEADER {
      assert b in a + [b] + c;
    }
  }

  datatype Request = Alloc(size: u32) | Free(ptr: int)

  /** Any sequence of allocations and of releases of pointers that are live: the heap stays
      tiled, without neighbouring free blocks, its used blocks are just those of the live
      pointers, and once none is live it is the single block it started as. */
  method Run(h: Heap, requests: seq<Request>) returns (live: set<int>)
    requires h.Valid() && Used(h.blocks) == []
    modifies h
    ensures h.Valid() && forall p :: p in live <==> PointsInto(Used(h.blocks), p)
    ensures live == {} ==> h.blocks == [Block(0, HEAP_SIZE - HEADER, false)]
  {
    hide Tiles, Linked, NoFreePair, Used, Allocated, Carved, Released;
    live := {};
    assert forall p :: !PointsInto(Used(h.blocks), p);
    for n := 0 to |requests|
      invariant h.Valid() && forall p :: p in live <==> PointsInto(Used(h.blocks), p)
    {
      ghost var v := h.blocks;
      match requests[n] {
        case Alloc(size) =>
          var ptr := h.Kmalloc(size);
          if ptr != NULL {
            live := live + {ptr};
            HandedLive(v, size, h.blocks, ptr);
          }
        case Free(ptr) =>
          if ptr in live {
            ghost var i := LiveBlock(v, ptr);
            h.Kfree(ptr, i);
            live := live - {ptr};
            FreedLive(v, i, h.blocks, ptr);
          }
      }
    }
    if live == {} {
      NothingLive(h.blocks);
      AllReleased(h.blocks);
    }
  }

  lemma HandedLive(v: seq<Block>, size: nat, v': seq<Block>, ptr: int)
    requires exists i: nat :: BestFit(v, size, i) && Handed(v, i, size, v', ptr)
    ensures forall p :: PointsInto(Used(v'), p) <==> PointsInto(Used(v), p) || p == ptr
  {
    var i: nat :| BestFit(v, size, i) && Handed(v, i, size, v', ptr);
    hide PointsInto, Used, Allocated;
    forall p
      ensures PointsInto(Used(v'), p) <==> PointsInto(Used(v), p) || p == ptr
    {
      PointsMore(Used(v[..i]), v'[i], Used(v[i + 1..]), p);
    }
  }

  lemma FreedLive(v: seq<Block>, i: nat, v': seq<Block>, ptr: int)
    requires Tiles(v, 0) && i < |v| && ptr == v[i].start + HEADER
    requires Used(v) == Used(v[..i]) + [v[i]] + Used(v[i + 1..]) && Used(v') == Used(v[..i]) + Used(v[i + 1..])
    ensures forall p :: PointsInto(Used(v'), p) <==> PointsInto(Used(v), p) && p != ptr
  {
    hide PointsInto, Used, Tiles;
    LiveElsewhere(v, i, ptr);
    forall p
      ensures PointsInto(Used(v'), p) <==> PointsInto(Used(v), p) && p != ptr
    {
      PointsMore(Used(v[..i]), v[i], Used(v[i + 1..]), p);
    }
  }

  lemma NothingLive(v: seq<Block>)
    requires forall p :: !PointsInto(Used(v), p)
    ensures Used(v) == []
  {
    if Used(v) != [] {
      assert PointsInto(Used(v), Used(v)[0].start + HEADER);
    }
  }
}
