/** What several of the modules need. */
module Basics {

  /** Addresses, and most numbers that are kept, have 32 bits. */
  const WORD_LIMIT := 0x1_0000_0000

  /** The most bytes of memory in one request or reply. */
  const BLOCK := 64

  datatype Option<T> = None | Some(value: T)
}
