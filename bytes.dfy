/** Option type used for the source's nullable pointer results. */
module Wrappers {
  datatype Option<T> = None | Some(value: T)
}

/**
 * Machine words and byte order, fixed for a little-endian host:
 * htons/ntohs swap the two bytes of a 16-bit word, htonl/ntohl reverse the
 * four bytes of a 32-bit word, and a word stored in memory lies low byte first.
 *
 * The lemmas here each state one small fact, so that the proofs built from
 * them stay cheap for the solver.
 */
module Bytes {
  /** htons, ntohs and bswap_16 on a little-endian host. */
  function Bswap16(x: bv16): bv16 { (x << 8) | (x >> 8) }

  /** htonl and ntohl on a little-endian host. */
  function Bswap32(x: bv32): bv32 {
    (x << 24) | ((x << 8) & 0x00ff_0000) | ((x >> 8) & 0x0000_ff00) | (x >> 24)
  }

  /** The two bytes of a 16-bit host word as it lies in memory (low byte first). */
  function LE16(w: bv16): (r: seq<bv8>)
    ensures |r| == 2
  {
    [(w & 0xff) as bv8, (w >> 8) as bv8]
  }

  /** The four bytes of a 32-bit host word as it lies in memory. */
  function LE32(d: bv32): (r: seq<bv8>)
    ensures |r| == 4
  {
    [(d & 0xff) as bv8, ((d >> 8) & 0xff) as bv8, ((d >> 16) & 0xff) as bv8, (d >> 24) as bv8]
  }

  /** A 16-bit host word loaded from two bytes in memory. */
  function LoadLE16(b0: bv8, b1: bv8): bv16 { (b0 as bv16) | ((b1 as bv16) << 8) }

  /** A 32-bit host word loaded from four bytes in memory. */
  function LoadLE32(b0: bv8, b1: bv8, b2: bv8, b3: bv8): bv32 {
    (b0 as bv32) | ((b1 as bv32) << 8) | ((b2 as bv32) << 16) | ((b3 as bv32) << 24)
  }

  /** The value of a big-endian 16-bit field on the wire. */
  function BE16Value(b0: bv8, b1: bv8): bv16 { ((b0 as bv16) << 8) | (b1 as bv16) }

  /** A 16-bit value as a big-endian wire field. */
  function BE16(w: bv16): (r: seq<bv8>)
    ensures |r| == 2
  {
    [(w >> 8) as bv8, (w & 0xff) as bv8]
  }

  /** A 32-bit value as a big-endian wire field. */
  function BE32(d: bv32): (r: seq<bv8>)
    ensures |r| == 4
  {
    [(d >> 24) as bv8, ((d >> 16) & 0xff) as bv8, ((d >> 8) & 0xff) as bv8, (d & 0xff) as bv8]
  }

  /** The cast `(uint16_t) v`: keep the low 16 bits. */
  function ZeroExtend16(v: bv32): bv32 { v & 0xffff }

  /** The cast `(int16_t) v` widened back to 32 bits: sign-extend the low 16 bits. */
  function SignExtend16(v: bv32): bv32 {
    ((v & 0xffff) ^ 0x8000) - 0x8000
  }

  /**
   * `a < b` for two int32_t values given as their bit patterns: flipping
   * the sign bit maps two's complement order onto unsigned order.
   */
  predicate SignedLess(a: bv32, b: bv32) {
    (a ^ 0x8000_0000) < (b ^ 0x8000_0000)
  }

  /** SHRT_MIN, SHRT_MAX and USHRT_MAX as 32-bit patterns. */
  const S16_MIN: bv32 := 0xffff_8000
  const S16_MAX: bv32 := 0x7fff
  const U16_MAX: bv32 := 0xffff

  /** Loading what PutWord stored gives the word back. */
  lemma LoadStore16(w: bv16)
    ensures LoadLE16(LE16(w)[0], LE16(w)[1]) == w
  {
  }

  /** Storing a word loaded from two bytes gives the bytes back. */
  lemma StoreLoad16(a: bv8, b: bv8)
    ensures LE16(LoadLE16(a, b)) == [a, b]
  {
  }

  /** Storing bswap_16 of a loaded word gives the two bytes exchanged. */
  lemma StoreSwappedLoad16(a: bv8, b: bv8)
    ensures LE16(Bswap16(LoadLE16(a, b))) == [b, a]
  {
  }

  lemma LoadStore32(x: bv32)
    ensures LoadLE32(LE32(x)[0], LE32(x)[1], LE32(x)[2], LE32(x)[3]) == x
  {
  }

  lemma StoreLoad32(a: bv8, b: bv8, c: bv8, d: bv8)
    ensures LE32(LoadLE32(a, b, c, d)) == [a, b, c, d]
  {
  }

  /** A value written big-endian is its memory bytes in reverse. */
  lemma BigEndianIsReversed(x: bv32)
    ensures BE32(x) == [LE32(x)[3], LE32(x)[2], LE32(x)[1], LE32(x)[0]]
  {
  }

  /** htonl reverses the memory bytes of a value. */
  lemma HtonlReversesBytes(a: bv8, b: bv8, c: bv8, d: bv8)
    ensures LoadLE32(d, c, b, a) == Bswap32(LoadLE32(a, b, c, d))
  {
  }

  /** Loading only the two low bytes of a value keeps its low 16 bits. */
  lemma LoadLowHalf(x: bv32)
    ensures LoadLE32(LE32(x)[0], LE32(x)[1], 0, 0) == x & 0xffff
  {
  }

  /** Both narrowings keep the two low memory bytes. */
  lemma NarrowingKeepsLowBytes(x: bv32)
    ensures LE32(ZeroExtend16(x))[0..2] == LE32(x)[0..2]
    ensures LE32(SignExtend16(x))[0..2] == LE32(x)[0..2]
  {
  }

  /** Both narrowings look only at the low 16 bits. */
  lemma NarrowingReadsLowHalf(x: bv32)
    ensures ZeroExtend16(x & 0xffff) == ZeroExtend16(x)
    ensures SignExtend16(x & 0xffff) == SignExtend16(x)
  {
  }

  lemma Bswap16Twice(w: bv16)
    ensures Bswap16(Bswap16(w)) == w
  {
  }

  /** ntohs of a word loaded from memory is the big-endian value of its two bytes. */
  lemma NtohsLoad(b0: bv8, b1: bv8)
    ensures Bswap16(LoadLE16(b0, b1)) == BE16Value(b0, b1)
  {
  }

  /** Storing htons(w) puts w on the wire big-endian. */
  lemma StoreHtons(w: bv16)
    ensures LE16(Bswap16(w)) == BE16(w)
  {
  }

  lemma BE16RoundTrip(w: bv16)
    ensures BE16Value(BE16(w)[0], BE16(w)[1]) == w
  {
  }

  /** A value that fits in 16 bits has zero high bytes in memory. */
  lemma SmallHasZeroHighBytes(v: bv32)
    requires v <= 0xffff
    ensures LE32(v)[2] == 0 && LE32(v)[3] == 0
  {
  }

  /** A value whose two low bytes are zero narrows to 0. */
  lemma NarrowingOfHighBytes(c: bv8, d: bv8)
    ensures ZeroExtend16(LoadLE32(0, 0, c, d)) == 0
    ensures SignExtend16(LoadLE32(0, 0, c, d)) == 0
  {
  }

  /** A uint16_t widened to 32 bits is unchanged by the 16-bit narrowing. */
  lemma ZeroExtendWord(x: bv16)
    ensures ZeroExtend16(x as bv32) == x as bv32
  {
  }

  /** Writing back the value of a big-endian field gives its two bytes. */
  lemma EchoField(hi: bv8, lo: bv8)
    ensures BE16(BE16Value(hi, lo)) == [hi, lo]
  {
  }
}
