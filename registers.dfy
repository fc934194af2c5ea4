/** The sensor's register map as the driver uses it: fixed addresses, the
    pixel-address function, the refresh-rate bits of the configuration word
    and the six-byte EEPROM write command. */
module Registers {
  import opened Words

  /** The sensor's 7-bit bus address (`MLX90642_ADDR`). */
  const SENSOR_ADDR: nat := 0x66

  /** Number of pixels in a frame (`NUM_PIXELS`). */
  const NUM_PIXELS: nat := 768

  /** Address of pixel 0 (`FRAME_ADDR`); pixel i sits 2*i further on. */
  const FRAME_ADDR: Word := 0x342C

  /** Frame-write progress counter. */
  const PROGRESS_ADDR: Word := 0x3C10

  /** Sensor (die) temperature, hundredths of a degree. */
  const TA_ADDR: Word := 0x3A2C

  /** Configuration word whose bits 0..2 hold the refresh-rate code. */
  const CONFIG_ADDR: Word := 0x11F0

  /** Header of the EEPROM write command: opcode, then sub-opcode. */
  const EEPROM_OPCODE: Byte := 0x3A
  const EEPROM_SUBOPCODE: Byte := 0x2E

  /** Word address of a pixel (`pix_addr`): 0 for an index past the frame.
      The sum is truncated to 16 bits on return, as the `uint16_t` result
      type does; for a valid index no truncation happens. */
  function PixAddr(pxl: Word): (a: Word)
    ensures pxl < NUM_PIXELS ==> a == FRAME_ADDR + 2 * pxl
    ensures pxl >= NUM_PIXELS ==> a == 0
  {
    if pxl >= NUM_PIXELS then 0 else (FRAME_ADDR + pxl * 2) % 0x1_0000
  }

  /** The pixel whose register sits at address a, if any: the inverse of
      PixAddr on the pixel region. */
  function PixelAt(a: Word): (p: Option<Word>)
    ensures p.Some? ==> p.value < NUM_PIXELS
  {
    if FRAME_ADDR <= a < FRAME_ADDR + 2 * NUM_PIXELS && (a - FRAME_ADDR) % 2 == 0
    then Some((a - FRAME_ADDR) / 2)
    else None
  }

  /** Every valid pixel address is even and lies in 0x342C..0x3A2A. */
  lemma PixAddrInRegion(pxl: Word)
    requires pxl < NUM_PIXELS
    ensures PixAddr(pxl) % 2 == 0
    ensures 0x342C <= PixAddr(pxl) <= 0x3A2A
  {
  }

  /** PixelAt inverts PixAddr: a is the address of pixel p exactly when
      PixelAt(a) names p. Hence distinct pixels have distinct addresses. */
  lemma PixelAtInverse(a: Word, p: Word)
    ensures PixelAt(a) == Some(p) <==> p < NUM_PIXELS && PixAddr(p) == a
  {
  }

  /** Distinct pixels are read from distinct registers. */
  lemma PixAddrInjective(p: Word, q: Word)
    requires p < NUM_PIXELS && q < NUM_PIXELS && p != q
    ensures PixAddr(p) != PixAddr(q)
  {
    PixelAtInverse(PixAddr(p), p);
    PixelAtInverse(PixAddr(q), q);
  }

  /** The refresh-rate codes `setRefreshRate` accepts: 2, 3, 4, 5
      (2, 4, 8 and 16 Hz). A valid code fits in bits 0..2, so setting it
      cannot disturb bits 3..15. */
  function ValidRate(rate: Byte): (ok: bool)
    ensures ok ==> RateBits(rate) == rate
  {
    !(rate < 2 || rate > 5)
  }

  /** The valid codes are exactly 2, 3, 4 and 5. */
  lemma ValidRateCodes(rate: Byte)
    ensures ValidRate(rate) <==> rate in {2, 3, 4, 5}
  {
  }

  /** Bits 0..2 of the configuration word (`ctrl & 0x07`). */
  function RateBits(ctrl: Word): (r: nat)
    ensures r < 8
  {
    ctrl % 8
  }

  /** The configuration word with bits 0..2 cleared (`ctrl &= ~0b111`):
      bits 3..15 are kept. */
  function ClearRate(ctrl: Word): (r: Word)
    ensures r / 8 == ctrl / 8 && RateBits(r) == 0
  {
    ctrl / 8 * 8
  }

  /** A code set into a word whose bits 0..2 are clear (`ctrl |= rate`):
      the bits do not overlap, so the OR is an addition. Bits 3..15 are
      kept and bits 0..2 become the code. */
  function SetRate(cleared: Word, rate: Byte): (r: Word)
    requires RateBits(cleared) == 0 && rate < 8
    ensures r / 8 == cleared / 8 && RateBits(r) == rate
  {
    cleared + rate
  }

  /** The configuration word with its rate bits replaced: cleared, then
      set to the code. */
  function WithRate(ctrl: Word, rate: Byte): (r: Word)
    requires rate < 8
    ensures r / 8 == ctrl / 8
    ensures RateBits(r) == rate
  {
    SetRate(ClearRate(ctrl), rate)
  }

  /** A word equal to the failure sentinel has rate bits 7, which is never a
      valid code: a re-read that confirms a valid code is never the sentinel,
      so the sentinel test before the final comparison never decides the
      outcome. */
  lemma SentinelNeverConfirms(reread: Word, rate: Byte)
    requires ValidRate(rate)
    ensures RateBits(reread) == rate ==> reread != SENTINEL
  {
  }

  /** The word written for a valid code is never the sentinel. */
  lemma WithRateNotSentinel(ctrl: Word, rate: Byte)
    requires ValidRate(rate)
    ensures WithRate(ctrl, rate) != SENTINEL
  {
  }

  /** The six bytes of an EEPROM write: opcode, sub-opcode, the address
      most significant byte first, the value most significant byte first. */
  function EepromCommand(addr: Word, val: Word): (cmd: seq<Byte>)
    ensures |cmd| == 6 && cmd[0] == EEPROM_OPCODE && cmd[1] == EEPROM_SUBOPCODE
    ensures Pack(cmd[2], cmd[3]) == addr && Pack(cmd[4], cmd[5]) == val
  {
    [EEPROM_OPCODE, EEPROM_SUBOPCODE, Hi(addr), Lo(addr), Hi(val), Lo(val)]
  }
}
