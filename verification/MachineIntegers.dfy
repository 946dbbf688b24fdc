/** The fixed-width integers the number parser accumulates in. Every operation on them
    is checked to stay in range. */
module MachineIntegers {

  newtype uint32 = x: int | 0 <= x < 0x1_0000_0000

  newtype uint64 = x: int | 0 <= x < 0x1_0000_0000_0000_0000

  predicate InInt32(x: int) {
    -0x8000_0000 <= x < 0x8000_0000
  }

  /** `static_cast<int32_t>(~i + 1)`. */
  function Negated32(i: uint32): (r: int)
    ensures i <= 0x8000_0000 ==> r == 0 - (i as int) && InInt32(r)
  {
    var u := (0xFFFF_FFFF - i as int + 1) % 0x1_0000_0000;
    if u < 0x8000_0000 then u else u - 0x1_0000_0000
  }

  /** `static_cast<int64_t>(~i64 + 1)`. */
  function Negated64(i: uint64): (r: int)
    ensures i <= 0x8000_0000_0000_0000 ==> r == 0 - (i as int)
  {
    var u := (0xFFFF_FFFF_FFFF_FFFF - i as int + 1) % 0x1_0000_0000_0000_0000;
    if u < 0x8000_0000_0000_0000 then u else u - 0x1_0000_0000_0000_0000
  }
}
