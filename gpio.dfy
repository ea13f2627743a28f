/** The net effect of the two output requests the clock makes of the GPIO
    block, on its 32-bit output latch (bit k is the output value of line k).
    Only the value left in the latch is modelled, not the hardware registers,
    and not the output inversion set up for some lines, which makes a set bit
    drive its pin low. */
module Gpio {

  /** Whether latch bit k is set in o. */
  predicate LineOn(o: bv32, k: bv5)
  {
    (o >> k) & 1 == 1
  }

  /** gpio_clr_mask: clear every latch bit in mask. */
  function ClrMask(o: bv32, mask: bv32): (r: bv32)
    ensures r & mask == 0
    ensures r & !mask == o & !mask
  {
    o & !mask
  }

  /** gpio_put_masked: toggle the latch bits in mask that differ from
      value, so that they end up equal to value's bits. */
  function PutMasked(o: bv32, mask: bv32, value: bv32): (r: bv32)
    ensures r & mask == value & mask
    ensures r & !mask == o & !mask
  {
    o ^ ((o ^ value) & mask)
  }

  /** Clearing one set of lines and then putting a disjoint set leaves the
      cleared lines clear and every line outside both sets untouched. */
  lemma ClearThenPut(o: bv32, clear: bv32, mask: bv32, value: bv32)
    requires clear & mask == 0
    ensures PutMasked(ClrMask(o, clear), mask, value) & clear == 0
    ensures PutMasked(ClrMask(o, clear), mask, value) & !(clear | mask) == o & !(clear | mask)
  {
  }
}
