/**
 * The shift/rotate unit (shift.h) as the C0/C1 handlers see it.
 *
 * shift.h is not part of this model: its fourteen operations are the
 * fields of a `ShiftUnit` value that the handlers receive, so what is
 * proved about the handlers holds for any implementation of them. The
 * signatures follow the calls: the rotates return only the rotated value;
 * the others return the value together with the carry-out; RCL, RCR, SHR
 * and SAR also take the current carry flag.
 */
module Shift {
  import opened Machine

  /** `ShiftRes8`: an 8-bit result and the carry to store in CF. */
  datatype ShiftRes8 = ShiftRes8(result: u8, carry: bool)

  /** `ShiftRes32`: a 32-bit result and the carry to store in CF. */
  datatype ShiftRes32 = ShiftRes32(result: u32, carry: bool)

  /** `rol8`, `ror8`, `rcl8`, `rcr8`, `shl8`, `shr8`, `sar8` and their 32-bit counterparts; the count is the normalised imm8. */
  datatype ShiftUnit = ShiftUnit(
    rol8: (u8, u8) -> u8,
    ror8: (u8, u8) -> u8,
    rcl8: (u8, u8, bool) -> ShiftRes8,
    rcr8: (u8, u8, bool) -> ShiftRes8,
    shl8: (u8, u8) -> ShiftRes8,
    shr8: (u8, u8, bool) -> ShiftRes8,
    sar8: (u8, u8, bool) -> ShiftRes8,
    rol32: (u32, u8) -> u32,
    ror32: (u32, u8) -> u32,
    rcl32: (u32, u8, bool) -> ShiftRes32,
    rcr32: (u32, u8, bool) -> ShiftRes32,
    shl32: (u32, u8) -> ShiftRes32,
    shr32: (u32, u8, bool) -> ShiftRes32,
    sar32: (u32, u8, bool) -> ShiftRes32)
}
