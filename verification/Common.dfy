// What the parts of the kernel's model share: machine words, bytes, and a value that
// may be missing.
module Common {

  datatype Option<T> = None | Some(value: T)

  type Byte = b: int | 0 <= b < 256

  /** One more than the largest 64-bit word. */
  const WORD: nat := 0x1_0000_0000_0000_0000

  const INT64_MIN: int := -0x8000_0000_0000_0000
  const INT64_MAX: int := 0x7FFF_FFFF_FFFF_FFFF

  /** Asking is what opens a predicate that is kept closed. */
  predicate Asked(u: int) { true }

  /** A signed 64-bit number. */
  predicate Fits(v: int) { INT64_MIN <= v <= INT64_MAX }
}
