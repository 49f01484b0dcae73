/** The physical page allocator of memory/pmm.c: a bitmap of used pages and their count. */
module Pmm {
  import opened Bits

  type u32 = x: int | 0 <= x < 0x1_0000_0000

  const PAGE_SIZE: nat := 4096
  const TOTAL_PAGES: nat := 8192
  const BITMAP_BYTES: nat := 1024

  // ----- bits ------------------------------------------------------------------------------

  function WithBit(b: byte, k: nat): byte
    requires k < 8
  {
    b | Mask(k)
  }

  function WithoutBit(b: byte, k: nat): byte
    requires k < 8
  {
    b & !Mask(k)
  }

  lemma OneBitEffect(b: byte, m: byte, n: byte)
    requires OneBit(m) && OneBit(n)
    ensures (b | m) & n != 0 <==> m == n || b & n != 0
    ensures (b & !m) & n != 0 <==> m != n && b & n != 0
  {
  }

  /** Setting or clearing bit k changes bit k alone. */
  lemma BitEffect(b: byte, k: nat, j: nat)
    requires k < 8 && j < 8
    ensures BitOf(WithBit(b, k), j) <==> k == j || BitOf(b, j)
    ensures BitOf(WithoutBit(b, k), j) <==> k != j && BitOf(b, j)
  {
    hide Mask, OneBit;
    MaskIs(k, j);
    MaskIs(j, k);
    OneBitEffect(b, Mask(k), Mask(j));
  }

  lemma AllBits(k: nat)
    requires k < 8
    ensures BitOf(0xFF, k)
  {
  }

  // ----- the bitmap as a set of pages ------------------------------------------------------

  predicate IsUsedIn(bits: seq<byte>, p: nat)
    requires |bits| == BITMAP_BYTES && p < TOTAL_PAGES
  {
    BitOf(bits[p / 8], p % 8)
  }

  /** The pages whose bit is set. */
  ghost function UsedPages(bits: seq<byte>): (s: set<nat>)
    requires |bits| == BITMAP_BYTES
    ensures forall p: nat :: p in s <==> p < TOTAL_PAGES && IsUsedIn(bits, p)
  {
    set p: nat | p < TOTAL_PAGES && IsUsedIn(bits, p)
  }

  lemma MarkEffect(bits: seq<byte>, p: nat, used: bool)
    requires |bits| == BITMAP_BYTES && p < TOTAL_PAGES
    ensures var b := bits[p / 8];
            UsedPages(bits[p / 8 := if used then WithBit(b, p % 8) else WithoutBit(b, p % 8)])
            == if used then UsedPages(bits) + {p} else UsedPages(bits) - {p}
  {
    hide BitOf, WithBit, WithoutBit, UsedPages;
    var b := bits[p / 8];
    var bits' := bits[p / 8 := if used then WithBit(b, p % 8) else WithoutBit(b, p % 8)];
    forall q: nat
      ensures q in UsedPages(bits') <==> if used then q in UsedPages(bits) || q == p else q in UsedPages(bits) && q != p
    {
      if q < TOTAL_PAGES {
        BitEffect(b, p % 8, q % 8);
        assert q / 8 == p / 8 && q % 8 == p % 8 ==> q == p;
      }
    }
  }

  /** Whether a page is kept from the start: kernel and below, or the VGA window. */
  predicate Reserved(p: nat, firstFree: nat) {
    p < firstFree || 0xA0 <= p <= 0xBF
  }

  ghost function ReservedPages(firstFree: nat, n: nat): (s: set<nat>)
    ensures forall p: nat :: p in s <==> p < TOTAL_PAGES && (p >= n || Reserved(p, firstFree))
  {
    set p: nat | p < TOTAL_PAGES && (p >= n || Reserved(p, firstFree))
  }

  ghost function Pages(n: nat): (s: set<nat>)
    ensures forall p: nat :: p in s <==> p < n
    ensures |s| == n
  {
    if n == 0 then {}
    else
      var rest := Pages(n - 1);
      assert n - 1 !in rest;
      rest + {n - 1}
  }

  class Allocator {
    var bitmap: array<byte>
    var usedCount: u32

    /** The count is the number of set bits. */
    ghost predicate Valid()
      reads this, bitmap
    {
      bitmap.Length == BITMAP_BYTES && usedCount == |UsedPages(bitmap[..])|
    }

    ghost function Used(): set<nat>
      requires Valid()
      reads this, bitmap
    {
      UsedPages(bitmap[..])
    }

    method MarkUsed(p: nat)
      requires bitmap.Length == BITMAP_BYTES && p < TOTAL_PAGES
      modifies bitmap
      ensures UsedPages(bitmap[..]) == UsedPages(old(bitmap[..])) + {p}
    {
      hide BitOf, WithBit, UsedPages;
      ghost var m := bitmap[..];
      MarkEffect(m, p, true);
      bitmap[p / 8] := WithBit(bitmap[p / 8], p % 8);
      assert bitmap[..] == m[p / 8 := WithBit(m[p / 8], p % 8)];
    }

    method MarkFree(p: nat)
      requires bitmap.Length == BITMAP_BYTES && p < TOTAL_PAGES
      modifies bitmap
      ensures UsedPages(bitmap[..]) == UsedPages(old(bitmap[..])) - {p}
    {
      hide BitOf, WithoutBit, UsedPages;
      ghost var m := bitmap[..];
      MarkEffect(m, p, false);
      bitmap[p / 8] := WithoutBit(bitmap[p / 8], p % 8);
      assert bitmap[..] == m[p / 8 := WithoutBit(m[p / 8], p % 8)];
    }

    method IsUsed(p: nat) returns (used: bool)
      requires bitmap.Length == BITMAP_BYTES && p < TOTAL_PAGES
      ensures used <==> p in UsedPages(bitmap[..])
    {
      used := BitOf(bitmap[p / 8], p % 8);
    }

    /** pmm_init: everything used, then freed from the kernel's end up, but for the VGA window. */
    constructor (kernelEnd: u32)
      ensures Valid() && fresh(bitmap)
      ensures forall p: nat :: p in Used() <==> p < TOTAL_PAGES && Reserved(p, (kernelEnd + PAGE_SIZE - 1) % 0x1_0000_0000 / PAGE_SIZE)
    {
      bitmap := new byte[BITMAP_BYTES];
      usedCount := TOTAL_PAGES;
      new;
      MarkAll();
      FreeFrom((kernelEnd + PAGE_SIZE - 1) % 0x1_0000_0000 / PAGE_SIZE);
    }

    method MarkAll()
      requires bitmap.Length == BITMAP_BYTES
      modifies this`usedCount, bitmap
      ensures usedCount == TOTAL_PAGES && UsedPages(bitmap[..]) == Pages(TOTAL_PAGES)
    {
      hide BitOf, UsedPages, Pages;
      for i := 0 to BITMAP_BYTES
        invariant forall j :: 0 <= j < i ==> bitmap[j] == 0xFF
      {
        bitmap[i] := 0xFF;
      }
      AllSet(bitmap[..]);
      usedCount := TOTAL_PAGES;
    }

    method FreeFrom(firstFree: nat)
      requires bitmap.Length == BITMAP_BYTES && usedCount == TOTAL_PAGES && UsedPages(bitmap[..]) == Pages(TOTAL_PAGES)
      modifies this`usedCount, bitmap
      ensures Valid() && forall p: nat :: p in Used() <==> p < TOTAL_PAGES && Reserved(p, firstFree)
    {
      hide BitOf, UsedPages, Pages, ReservedPages;
      var i := firstFree;
      Nothing(firstFree);
      while i < TOTAL_PAGES
        invariant i >= firstFree && usedCount == |UsedPages(bitmap[..])|
        invariant UsedPages(bitmap[..]) == ReservedPages(firstFree, i)
      {
        NextReserved(firstFree, i);
        if !(0xA0 <= i <= 0xBF) {
          MarkFree(i);
          usedCount := usedCount - 1;
        }
        i := i + 1;
      }
    }

    /** pmm_alloc_page: the address of the lowest free page, now used; 0 if there is none. */
    method AllocPage() returns (phys: u32)
      requires Valid()
      modifies this`usedCount, bitmap
      ensures Valid() && bitmap == old(bitmap)
      ensures (exists p: nat :: p < TOTAL_PAGES && p !in old(Used())) ==>
                var p := phys / PAGE_SIZE; phys == p * PAGE_SIZE && p < TOTAL_PAGES && p !in old(Used()) && Used() == old(Used()) + {p}
                                           && forall q :: 0 <= q < p ==> q in old(Used())
      ensures (forall p: nat :: p < TOTAL_PAGES ==> p in old(Used())) ==> phys == 0 && Used() == old(Used())
      ensures phys == 0 && 0 in old(Used()) ==> Used() == old(Used()) && forall p: nat :: p < TOTAL_PAGES ==> p in old(Used())
    {
      hide BitOf, UsedPages;
      ghost var before := Used();
      for i := 0 to TOTAL_PAGES
        invariant bitmap == old(bitmap) && bitmap[..] == old(bitmap[..]) && usedCount == old(usedCount)
        invariant forall q :: 0 <= q < i ==> q in before
      {
        var used := IsUsed(i);
        if !used {
          MarkUsed(i);
          CountBound(before, i);
          usedCount := usedCount + 1;
          assert i * PAGE_SIZE / PAGE_SIZE == i;
          return i * PAGE_SIZE;
        }
      }
      phys := 0;
    }

    /** pmm_free_page: the page is free again; freeing a free page, or one beyond, is ignored. */
    method FreePage(phys: u32)
      requires Valid()
      modifies this`usedCount, bitmap
      ensures Valid() && bitmap == old(bitmap) && Used() == old(Used()) - {phys / PAGE_SIZE}
    {
      hide BitOf, UsedPages;
      var p := phys / PAGE_SIZE;
      if p < TOTAL_PAGES {
        var used := IsUsed(p);
        if used {
          MarkFree(p);
          usedCount := usedCount - 1;
        }
      }
    }
  }

  lemma CountBound(s: set<nat>, p: nat)
    requires p !in s && p < TOTAL_PAGES && forall q :: q in s ==> q < TOTAL_PAGES
    ensures |s + {p}| == |s| + 1 <= TOTAL_PAGES
  {
    hide Pages;
    SubsetSize(s + {p}, Pages(TOTAL_PAGES));
  }

  lemma {:induction false} SubsetSize(a: set<nat>, b: set<nat>)
    requires a <= b
    ensures |a| <= |b|
  {
    if a != {} {
      var x :| x in a;
      SubsetSize(a - {x}, b - {x});
    }
  }

  lemma AllSet(bits: seq<byte>)
    requires |bits| == BITMAP_BYTES && forall j :: 0 <= j < |bits| ==> bits[j] == 0xFF
    ensures UsedPages(bits) == Pages(TOTAL_PAGES) && |UsedPages(bits)| == TOTAL_PAGES
  {
    hide BitOf, UsedPages, Pages;
    forall p: nat
      ensures p in UsedPages(bits) <==> p in Pages(TOTAL_PAGES)
    {
      if p < TOTAL_PAGES {
        AllBits(p % 8);
      }
    }
  }

  lemma Nothing(firstFree: nat)
    ensures ReservedPages(firstFree, firstFree) == Pages(TOTAL_PAGES)
  {
    hide Pages, ReservedPages;
    forall p: nat
      ensures p in ReservedPages(firstFree, firstFree) <==> p in Pages(TOTAL_PAGES)
    {
    }
  }

  lemma NextReserved(firstFree: nat, i: nat)
    requires firstFree <= i < TOTAL_PAGES
    ensures i in ReservedPages(firstFree, i)
    ensures ReservedPages(firstFree, i + 1) == if 0xA0 <= i <= 0xBF then ReservedPages(firstFree, i) else ReservedPages(firstFree, i) - {i}
  {
  }
}
