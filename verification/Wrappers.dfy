/** What all components share: results that may be missing, and the kernel's 64-bit numbers. */
module Wrappers {
  const U64 := 0x1_0000_0000_0000_0000

  type u64 = x: int | 0 <= x < U64

  /** A value that may be missing: the kernel's NULL, -1 or -EINVAL results. */
  datatype Option<+T> = None | Some(value: T) {
    function GetOr(default: T): T {
      if Some? then value else default
    }
  }
}
