/** Bits of a framebuffer byte, numbered from the least significant. */
module Bits {
  /** 1 << k, as a table. */
  function BitMask(k: nat): (m: bv8)
    requires k < 8
  {
    if k < 4 then
      if k < 2 then (if k == 0 then 0x01 else 0x02) else (if k == 2 then 0x04 else 0x08)
    else
      if k < 6 then (if k == 4 then 0x10 else 0x20) else (if k == 6 then 0x40 else 0x80)
  }

  lemma BitMaskIsShift(k: nat)
    requires k < 8
    ensures BitMask(k) == 1 << k
  {}

  predicate Bit(b: bv8, k: nat)
    requires k < 8
  {
    b & BitMask(k) != 0
  }

  /** Bit k counted from the most significant one. */
  predicate Msb(b: bv8, k: nat)
    requires k < 8
  {
    Bit(b, 7 - k)
  }

  lemma OrBit(b: bv8, m: bv8, k: nat)
    requires k < 8
    ensures Bit(b | m, k) == (Bit(b, k) || Bit(m, k))
  {}

  lemma XorBit(b: bv8, m: bv8, k: nat)
    requires k < 8
    ensures Bit(b ^ m, k) == (Bit(b, k) != Bit(m, k))
  {
    XorMask(b, m, BitMask(k));
  }

  lemma XorMask(b: bv8, m: bv8, one: bv8)
    requires one & (one - 1) == 0
    ensures ((b ^ m) & one != 0) == ((b & one != 0) != (m & one != 0))
  {}

  lemma AndNotBit(b: bv8, m: bv8, k: nat)
    requires k < 8
    ensures Bit(b & !m, k) == (Bit(b, k) && !Bit(m, k))
  {}

  /** Mask m selects exactly the rows lo..hi of a page. */
  ghost predicate BitsFromTo(m: bv8, lo: nat, hi: nat) {
    forall k: nat | k < 8 :: Bit(m, k) == (lo <= k < hi)
  }

  lemma OneBit(j: nat)
    requires j < 8
    ensures BitsFromTo(BitMask(j), j, j + 1)
  {}

  /** The n lowest bits, as the source's 0xFF >> (8 - n). */
  function LowMask(n: nat): (m: bv8)
    requires n <= 8
    ensures BitsFromTo(m, 0, n)
  {
    if n < 4 then
      if n < 2 then (if n == 0 then 0x00 else 0x01) else (if n == 2 then 0x03 else 0x07)
    else if n < 8 then
      if n < 6 then (if n == 4 then 0x0F else 0x1F) else (if n == 6 then 0x3F else 0x7F)
    else 0xFF
  }

  lemma LowMaskIsShift(n: nat)
    requires n <= 8
    ensures LowMask(n) == 0xFF >> (8 - n)
  {}

  const PREMASK: seq<bv8> := [0x00, 0x80, 0xC0, 0xE0, 0xF0, 0xF8, 0xFC, 0xFE]
  const POSTMASK: seq<bv8> := [0x00, 0x01, 0x03, 0x07, 0x0F, 0x1F, 0x3F, 0x7F]

  lemma PremaskBits(n: nat)
    requires n < 8
    ensures BitsFromTo(PREMASK[n], 8 - n, 8)
  {}

  lemma PostmaskBits(n: nat)
    requires n < 8
    ensures BitsFromTo(POSTMASK[n], 0, n)
  {}

  lemma WholeByte()
    ensures BitsFromTo(0xFF, 0, 8)
  {}

  lemma AndBits(a: bv8, b: bv8, lo: nat, hi: nat)
    requires BitsFromTo(a, lo, 8) && BitsFromTo(b, 0, hi)
    ensures BitsFromTo(a & b, lo, hi)
  {
    var both := a & b;
    forall k: nat | k < 8 ensures Bit(both, k) == (lo <= k < hi) {
      AndBit(a, b, k);
    }
  }

  lemma AndBit(a: bv8, b: bv8, k: nat)
    requires k < 8
    ensures Bit(a & b, k) == (Bit(a, k) && Bit(b, k))
  {}

  /** The mask of a vertical line's top, partial byte: the rows of the page from 8 - mod on, at most t of them. */
  function TopMask(mod: nat, t: nat): (m: bv8)
    requires 0 < mod < 8
    ensures BitsFromTo(m, 8 - mod, if t < mod then 8 - mod + t else 8)
  {
    PremaskBits(mod);
    if t < mod then
      AndBits(PREMASK[mod], LowMask(8 - (mod - t)), 8 - mod, 8 - (mod - t));
      PREMASK[mod] & LowMask(8 - (mod - t))
    else
      PREMASK[mod]
  }

  lemma SameBits(a: bv8, b: bv8)
    requires forall k: nat | k < 8 :: Bit(a, k) == Bit(b, k)
    ensures a == b
  {
    assert Bit(a, 0) == Bit(b, 0) && Bit(a, 1) == Bit(b, 1) && Bit(a, 2) == Bit(b, 2) && Bit(a, 3) == Bit(b, 3);
    assert Bit(a, 4) == Bit(b, 4) && Bit(a, 5) == Bit(b, 5) && Bit(a, 6) == Bit(b, 6) && Bit(a, 7) == Bit(b, 7);
  }
}
