/**
 * Fixed-width words as the gcov reader assembles them from bytes: 32- and 64-bit
 * little- and big-endian decoding, byte swaps and rotation (the operations of
 * the `byteorder` crate and of Rust's `u32`/`u64` that the reader uses).
 */
module Words {

  type byte = bv8

  /** The 32-bit word whose least significant byte comes first. */
  function LE32(b: seq<byte>): bv32
    requires |b| == 4
  {
    (b[0] as bv32) | ((b[1] as bv32) << 8) | ((b[2] as bv32) << 16) | ((b[3] as bv32) << 24)
  }

  /** The 32-bit word whose most significant byte comes first. */
  function BE32(b: seq<byte>): bv32
    requires |b| == 4
  {
    (b[3] as bv32) | ((b[2] as bv32) << 8) | ((b[1] as bv32) << 16) | ((b[0] as bv32) << 24)
  }

  /** `u32::swap_bytes`. */
  function SwapBytes32(w: bv32): bv32
  {
    ((w & 0xff) << 24) | (((w >> 8) & 0xff) << 16) | (((w >> 16) & 0xff) << 8) | (w >> 24)
  }

  /** The 64-bit word whose least significant byte comes first. */
  function LE64(b: seq<byte>): bv64
    requires |b| == 8
  {
    Combine64(LE32(b[..4]), LE32(b[4..]))
  }

  /** The 64-bit word with low half `lo` and high half `hi`. */
  function Combine64(lo: bv32, hi: bv32): bv64
  {
    (lo as bv64) | ((hi as bv64) << 32)
  }

  /** `u64::swap_bytes`. */
  function SwapBytes64(w: bv64): bv64
  {
    Combine64(SwapBytes32((w >> 32) as bv32), SwapBytes32((w & 0xffff_ffff) as bv32))
  }

  /** Byte `k` (0 = most significant) of a 32-bit word, as `Display for Version` extracts it. */
  function ByteOf(w: bv32, k: nat): byte
    requires k < 4
  {
    if k == 0 then (w >> 24) as byte
    else if k == 1 then ((w >> 16) & 0xff) as byte
    else if k == 2 then ((w >> 8) & 0xff) as byte
    else (w & 0xff) as byte
  }

  /** Swapping the bytes of a little-endian read gives the big-endian read of the same bytes. */
  lemma SwapLE32IsBE32(b: seq<byte>)
    requires |b| == 4
    ensures SwapBytes32(LE32(b)) == BE32(b)
    ensures SwapBytes32(BE32(b)) == LE32(b)
  {
  }

  /**
   * Rotating a 64-bit word by 32 and swapping its bytes swaps the bytes of each
   * 32-bit half in place: together with `SwapLE32IsBE32`, a 64-bit value read
   * little-endian and then rotated and swapped has as LOW word the first four
   * bytes and as high word the last four, each read big-endian.
   */
  lemma RotateSwap64(lo: bv32, hi: bv32)
    ensures SwapBytes64(Combine64(lo, hi).RotateLeft(32)) == Combine64(SwapBytes32(lo), SwapBytes32(hi))
  {
    RotatedHalves(lo, hi);
  }

  lemma RotatedHalves(lo: bv32, hi: bv32)
    ensures (Combine64(lo, hi).RotateLeft(32) & 0xffff_ffff) as bv32 == hi
    ensures (Combine64(lo, hi).RotateLeft(32) >> 32) as bv32 == lo
  {
  }

  /** The four bytes of a word, most significant first, read back big-endian give the word. */
  lemma BE32OfBytes(w: bv32)
    ensures BE32([ByteOf(w, 0), ByteOf(w, 1), ByteOf(w, 2), ByteOf(w, 3)]) == w
  {
  }

  /** A double word's low and high halves are the words it was combined from. */
  lemma Combine64Halves(lo: bv32, hi: bv32)
    ensures (Combine64(lo, hi) & 0xffff_ffff) as bv32 == lo
    ensures (Combine64(lo, hi) >> 32) as bv32 == hi
  {
  }

  /** Whether bit `j` (0 = least significant) of `w` is set: `w & 1 << j != 0`. */
  predicate BitSet(w: bv32, j: nat)
    requires j < 32
  {
    w & (1 << j) != 0
  }
}
