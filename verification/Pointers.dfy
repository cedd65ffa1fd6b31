/** The 64-bit address space, and the window TrampolineAlloc asks for
    (tmemutil-3rd/src/mhook-lib/mhook.c). */
module Pointers {
  const ADDRESSES: int := 0x1_0000_0000_0000_0000

  /** The size of the 64-bit trampoline structure. */
  const STRUCT_SIZE: nat := 136

  /** TrampolineAlloc's bounds, in 64-bit pointer arithmetic. */
  function Lower(p: int, nLimitUp: int): (r: nat)
    ensures r < ADDRESSES
  {
    var a := (p + nLimitUp) % ADDRESSES;
    if a < 0x8000_0000 then 1 else a - 0x7fff0000
  }

  function Upper(p: int, nLimitDown: int): (r: nat)
    ensures r <= 0xffff_ffff_fff8_0000
  {
    var a := (p + nLimitDown) % ADDRESSES;
    if a < 0xffff_ffff_8000_0000 then a + 0x7ff80000 else 0xffff_ffff_fff8_0000
  }
}
