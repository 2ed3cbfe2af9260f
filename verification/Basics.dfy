/**
 Types and constants of the platform that several models share.
 */
module Basics {

  type Byte = b: int | 0 <= b < 256

  datatype Option<+T> = None | Some(value: T)

  const PAGE_SIZE: nat := 4096

  /** SIZE_MAX and UINTPTR_MAX of the 32-bit platform */
  const SIZE_MAX: nat := 0xffff_ffff

  /** size_to_blocks of kernel/lib/miscmath.c */
  function SizeToBlocks(size: nat, unit: nat): nat
    requires unit > 0
  {
    if size % unit == 0 then size / unit else size / unit + 1
  }
}
