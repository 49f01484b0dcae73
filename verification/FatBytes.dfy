/** Sectors, little-endian fields and directory slots of fs/fat32.c, at byte level. */
module FatBytes {

  type byte = x: int | 0 <= x < 256
  type u16 = x: int | 0 <= x < 0x1_0000
  type u32 = x: int | 0 <= x < 0x1_0000_0000

  const SECTOR_SIZE: nat := 512
  const SLOT_SIZE: nat := 32
  const SLOTS: nat := 16
  const MASK28: int := 0x1000_0000

  function Zeros(n: nat): (s: seq<byte>)
    ensures |s| == n && forall i :: 0 <= i < n ==> s[i] == 0
  {
    seq(n, _ => 0)
  }

  type Sector = s: seq<byte> | |s| == SECTOR_SIZE witness Zeros(512)
  type Slot = s: seq<byte> | |s| == SLOT_SIZE witness Zeros(32)

  /** s with the bytes from `off` on replaced by t. */
  function Splice(s: seq<byte>, off: nat, t: seq<byte>): (r: seq<byte>)
    requires off + |t| <= |s|
    ensures |r| == |s|
  {
    s[..off] + t + s[off + |t|..]
  }

  /** What a splice does to a part of the sequence that it misses, or that it falls into. */
  lemma SplicePart(s: seq<byte>, off: nat, t: seq<byte>, lo: nat, hi: nat)
    requires off + |t| <= |s| && lo <= hi <= |s|
    ensures hi <= off || off + |t| <= lo ==> Splice(s, off, t)[lo..hi] == s[lo..hi]
    ensures lo <= off && off + |t| <= hi ==> Splice(s, off, t)[lo..hi] == Splice(s[lo..hi], off - lo, t)
  {
  }

  function Rd16(s: seq<byte>, off: nat): u16
    requires off + 2 <= |s|
  {
    (s[off] as int) + 256 * (s[off + 1] as int)
  }

  function Rd32(s: seq<byte>, off: nat): u32
    requires off + 4 <= |s|
  {
    (s[off] as int) + 256 * (s[off + 1] as int) + 65536 * (s[off + 2] as int) + 0x100_0000 * (s[off + 3] as int)
  }

  function Le16(v: u16): (t: seq<byte>)
    ensures |t| == 2 && Rd16(t, 0) == v
  {
    [v % 256, v / 256]
  }

  function Le32(v: u32): (t: seq<byte>)
    ensures |t| == 4 && Rd32(t, 0) == v
  {
    var q1: int := v / 256;
    var q2: int := q1 / 256;
    var q3: int := q2 / 256;
    [v % 256, q1 % 256, q2 % 256, q3]
  }

  // ----- FAT sectors: 128 entries of four bytes ---------------------------------

  function FatEntry(sec: Sector, j: nat): nat
    requires j < 128
  {
    Rd32(sec, 4 * j) % MASK28
  }

  lemma SpliceAll(s: seq<byte>, t: seq<byte>)
    requires |t| == |s|
    ensures Splice(s, 0, t) == t
  {
  }

  lemma FatEntryUpdate(sec: Sector, j: nat, v: nat)
    requires j < 128 && v < MASK28
    ensures var sec' := Splice(sec, 4 * j, Le32(v));
            forall i :: 0 <= i < 128 ==> FatEntry(sec', i) == if i == j then v else FatEntry(sec, i)
  {
    hide Splice, Le32;
    var sec' := Splice(sec, 4 * j, Le32(v));
    SpliceAll(sec[4 * j..4 * j + 4], Le32(v));
    forall i | 0 <= i < 128
      ensures FatEntry(sec', i) == if i == j then v else FatEntry(sec, i)
    {
      SplicePart(sec, 4 * j, Le32(v), 4 * i, 4 * i + 4);
      assert Rd32(sec', 4 * i) == Rd32(sec'[4 * i..4 * i + 4], 0);
      assert Rd32(sec, 4 * i) == Rd32(sec[4 * i..4 * i + 4], 0);
    }
  }

  // ----- directory sectors: 16 slots of 32 bytes --------------------------------

  function SlotIn(sec: Sector, i: nat): Slot
    requires i < SLOTS
  {
    sec[SLOT_SIZE * i..SLOT_SIZE * i + SLOT_SIZE]
  }

  /** Writing inside slot i changes that slot alone. */
  lemma SlotUpdate(sec: Sector, i: nat, o: nat, t: seq<byte>)
    requires i < SLOTS && o + |t| <= SLOT_SIZE
    ensures var sec' := Splice(sec, SLOT_SIZE * i + o, t);
            forall j :: 0 <= j < SLOTS ==> SlotIn(sec', j) == if j == i then Splice(SlotIn(sec, i), o, t) else SlotIn(sec, j)
  {
    hide Splice;
    forall j | 0 <= j < SLOTS
      ensures SlotIn(Splice(sec, SLOT_SIZE * i + o, t), j) == if j == i then Splice(SlotIn(sec, i), o, t) else SlotIn(sec, j)
    {
      SplicePart(sec, SLOT_SIZE * i + o, t, SLOT_SIZE * j, SLOT_SIZE * j + SLOT_SIZE);
    }
  }

  function NameOf(e: Slot): (n: seq<byte>)
    ensures |n| == 11
  {
    e[..11]
  }

  function Attr(e: Slot): byte { e[11] }

  function FirstOf(e: Slot): u32 {
    Rd16(e, 20) * 0x1_0000 + Rd16(e, 26)
  }

  function SizeOf(e: Slot): u32 {
    Rd32(e, 28)
  }

  /** valid_file_entry: in use, not a long-name part, not a volume label. */
  predicate Live(e: Slot) {
    e[0] != 0x00 && e[0] != 0xE5 && Attr(e) != 0x0F && Attr(e) / 8 % 2 == 0
  }

  predicate IsDirectory(e: Slot) {
    Attr(e) / 16 % 2 == 1
  }

  /** The slot with its cluster and size fields rewritten. */
  function WithExtent(e: Slot, first: u32, size: u32): (r: Slot)
    ensures NameOf(r) == NameOf(e) && Attr(r) == Attr(e) && r[0] == e[0]
    ensures FirstOf(r) == first && SizeOf(r) == size
  {
    var hi, lo, sz := Le16(first / 0x1_0000), Le16(first % 0x1_0000), Le32(size);
    var r := Splice(Splice(Splice(e, 20, hi), 26, lo), 28, sz);
    assert r[20..22] == hi && r[26..28] == lo && r[28..32] == sz;
    assert Rd16(r, 20) == Rd16(r[20..22], 0) && Rd16(r, 26) == Rd16(r[26..28], 0) && Rd32(r, 28) == Rd32(r[28..32], 0);
    r
  }

  function WithSize(e: Slot, size: u32): (r: Slot)
    ensures NameOf(r) == NameOf(e) && Attr(r) == Attr(e) && r[0] == e[0]
    ensures FirstOf(r) == FirstOf(e) && SizeOf(r) == size
  {
    var r := Splice(e, 28, Le32(size));
    assert r[28..32] == Le32(size) && r[20..28] == e[20..28];
    assert Rd32(r, 28) == Rd32(r[28..32], 0);
    assert Rd16(r, 20) == Rd16(r[20..28], 0) && Rd16(e, 20) == Rd16(e[20..28], 0);
    assert Rd16(r, 26) == Rd16(r[20..28], 6) && Rd16(e, 26) == Rd16(e[20..28], 6);
    r
  }

  function WithName(e: Slot, name: seq<byte>): (r: Slot)
    requires |name| == 11
    ensures NameOf(r) == name && Attr(r) == Attr(e) && FirstOf(r) == FirstOf(e) && SizeOf(r) == SizeOf(e)
  {
    var r := Splice(e, 0, name);
    assert r[..11] == name && r[11..] == e[11..];
    assert Rd16(r, 20) == Rd16(r[11..], 9) && Rd16(e, 20) == Rd16(e[11..], 9);
    assert Rd16(r, 26) == Rd16(r[11..], 15) && Rd16(e, 26) == Rd16(e[11..], 15);
    assert Rd32(r, 28) == Rd32(r[11..], 17) && Rd32(e, 28) == Rd32(e[11..], 17);
    r
  }

  const ZERO_SLOT: Slot := Zeros(32)

  /** A fresh archive entry, empty, as fs_create writes it. */
  function NewSlot(name: seq<byte>): (r: Slot)
    requires |name| == 11
    ensures NameOf(r) == name && Attr(r) == 0x20 && FirstOf(r) == 0 && SizeOf(r) == 0
  {
    var z := ZERO_SLOT;
    assert forall i :: 0 <= i < 32 ==> z[i] == 0;
    var r := Splice(Splice(z, 0, name), 11, [0x20]);
    assert r[..11] == name && r[11] == 0x20 && forall i :: 12 <= i < 32 ==> r[i] == 0;
    r
  }

  /** A deleted entry: all zero but the 0xE5 mark. */
  function DeletedSlot(): (r: Slot)
    ensures r[0] == 0xE5 && !Live(r)
  {
    Splice(ZERO_SLOT, 0, [0xE5])
  }
}
