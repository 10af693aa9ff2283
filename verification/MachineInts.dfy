/**
  Go's fixed-width integers as subset types. Arithmetic on them is exact; a value is checked
  against its width wherever it is stored or passed on, so a project that verifies proves that
  no stored machine result overflows.
 */
module MachineInts {
  type byte = x: int | 0 <= x < 0x100
  type int8 = x: int | -0x80 <= x < 0x80
  type int32 = x: int | -0x8000_0000 <= x < 0x8000_0000
  type int64 = x: int | -0x8000_0000_0000_0000 <= x < 0x8000_0000_0000_0000
  type uint16 = x: int | 0 <= x < 0x1_0000
  type uint32 = x: int | 0 <= x < 0x1_0000_0000
  type uint64 = x: int | 0 <= x < 0x1_0000_0000_0000_0000

  /** The bitwise or of two numbers that share no bit: `lo` lies below `unit`, `hi` is a multiple of it. */
  function OrDisjoint(lo: nat, hi: nat, unit: nat): nat
    requires unit > 0 && lo < unit && hi % unit == 0
  {
    lo + hi
  }

  /** The number a byte string denotes, least significant byte first. */
  ghost function LittleEndian(s: seq<byte>): (n: nat)
  {
    if s == [] then 0 else s[0] + 0x100 * LittleEndian(s[1..])
  }
}
