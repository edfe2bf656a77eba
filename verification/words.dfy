/**
 Machine-level vocabulary shared by the transfer callbacks and the boot decision:
 32-bit words (the width of `size_t`, `uintptr_t` and pointers on the Cortex-M
 targets), the wrap-around of address arithmetic, and byte fills.
 */
module Words {

  /** Number of distinct 32-bit values. */
  const WORD_SIZE: int := 0x1_0000_0000

  /** A 32-bit unsigned quantity: an address, an offset or a length. */
  type Word = x: int | 0 <= x < 0x1_0000_0000

  /** The all-ones word, which is what erased flash reads as. */
  const ERASED_WORD: Word := 0xFFFF_FFFF

  /** Reduces an integer to the 32-bit word the hardware computes for it. */
  function Wrap(x: int): (w: Word)
    ensures 0 <= x < WORD_SIZE ==> w == x
    ensures WORD_SIZE <= x < 2 * WORD_SIZE ==> w == x - WORD_SIZE
    ensures -WORD_SIZE <= x < 0 ==> w == x + WORD_SIZE
  {
    x % WORD_SIZE
  }

  datatype Option<+T> = None | Some(value: T)

  /** `n` copies of the byte `b`, as `memset` leaves a buffer of length `n`. */
  function Fill(b: bv8, n: nat): (s: seq<bv8>)
    ensures |s| == n
    ensures forall i :: 0 <= i < n ==> s[i] == b
  {
    seq(n, _ => b)
  }

  function Min(a: int, b: int): (m: int)
    ensures m <= a && m <= b
    ensures m == a || m == b
  {
    if a <= b then a else b
  }
}
