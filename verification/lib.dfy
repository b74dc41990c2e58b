/** The configuration handed to the core: flash size and start address. */
module Lib {
  import opened Bytes

  /** `Params<T>` without its input handle, which is file I/O. */
  datatype Params = Params(flashSize: u32, startAddr: u32)
}
