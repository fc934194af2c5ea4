/** Bytes and 16-bit words as the driver exchanges them with the sensor:
    the split of a word into two bytes, the packing of two bytes back into a
    word, and the two's-complement reading of a word.

    Words are integers in [0, 2^16); the source's bit operations on them are
    written arithmetically: `w >> 8` is `w / 256`, `w & 0xFF` is `w % 256`,
    and `(hi << 8) | lo` is `hi * 256 + lo` (the two bytes do not overlap). */
module Words {

  /** A byte on the bus (`uint8_t`). */
  type Byte = b: int | 0 <= b < 0x100

  /** A register address or a register value (`uint16_t`). */
  type Word = w: int | 0 <= w < 0x1_0000

  /** A register value read as two's complement (`int16_t`). */
  type Int16 = s: int | -0x8000 <= s < 0x8000

  datatype Option<T> = None | Some(value: T)

  /** The word both reads return when the bus exchange fails. */
  const SENTINEL: Word := 0xFFFF

  /** Most significant byte of a word, sent first: `w >> 8`. */
  function Hi(w: Word): (h: Byte)
    ensures 256 * h <= w < 256 * (h + 1)
  {
    w / 256
  }

  /** Least significant byte of a word, sent second: `w & 0xFF`. */
  function Lo(w: Word): (l: Byte)
    ensures (w - l) % 256 == 0
  {
    w % 256
  }

  /** Two bytes, most significant first, packed into a word:
      `(hi << 8) | lo`. Splitting the result gives the two bytes back. */
  function Pack(hi: Byte, lo: Byte): (w: Word)
    ensures Hi(w) == hi && Lo(w) == lo
  {
    hi * 256 + lo
  }

  /** Splitting a word and packing its two bytes is the identity. */
  lemma PackSplit(w: Word)
    ensures Pack(Hi(w), Lo(w)) == w
  {
  }

  /** The same 16 bits read as two's complement (the cast to `int16_t`):
      negative exactly when the top bit is set, and congruent to the word
      modulo 2^16. */
  function ToSigned(w: Word): (s: Int16)
    ensures s < 0 <==> w >= 0x8000
    ensures (w - s) % 0x1_0000 == 0
  {
    if w < 0x8000 then w else w - 0x1_0000
  }

  /** The bit pattern of a two's-complement value: the inverse of ToSigned. */
  function FromSigned(s: Int16): (w: Word)
    ensures ToSigned(w) == s
  {
    if s < 0 then s + 0x1_0000 else s
  }

  /** ToSigned loses nothing: the bit pattern is recovered from the value. */
  lemma SignedRoundTrip(w: Word)
    ensures FromSigned(ToSigned(w)) == w
  {
  }

  /** The failure sentinel, read as a signed value, is -1. */
  lemma SentinelIsMinusOne()
    ensures ToSigned(SENTINEL) == -1
  {
  }
}
