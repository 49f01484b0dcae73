/** The bits of a byte. */
module Bits {

  type byte = bv8

  /** The bit of weight 2^k. */
  function Mask(k: nat): (m: byte)
    requires k < 8
  {
    match k
    case 0 => 0x01
    case 1 => 0x02
    case 2 => 0x04
    case 3 => 0x08
    case 4 => 0x10
    case 5 => 0x20
    case 6 => 0x40
    case _ => 0x80
  }

  predicate BitOf(b: byte, k: nat)
    requires k < 8
  {
    b & Mask(k) != 0
  }

  predicate OneBit(m: byte) {
    m == 0x80 || m == 0x40 || m == 0x20 || m == 0x10 || m == 0x08 || m == 0x04 || m == 0x02 || m == 0x01
  }

  lemma MaskIs(k: nat, j: nat)
    requires k < 8 && j < 8
    ensures OneBit(Mask(k)) && (Mask(k) == Mask(j) <==> k == j)
  {
  }
}
