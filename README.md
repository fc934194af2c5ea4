# MLX90642 driver: register protocol model

A Dafny model of the register-level logic of the Arduino driver for the
Melexis MLX90642 32x24 thermal sensor. The driver talks to the sensor over a
two-wire bus. It reads 16-bit words from RAM and EEPROM by sending a 16-bit
address, and writes EEPROM words with a six-byte command. On top of these
it builds:

- frame-ready detection, by watching a progress counter wrap;
- the raw frame read, 768 pixel words in index order;
- the sensor-temperature read;
- a checked refresh-rate update of the configuration word at 0x11F0.

The model has five modules:

- `Words`: bytes, 16-bit words and the two's-complement view. The
  source's bit operations are written arithmetically:
  - `w >> 8` is `w / 256`;
  - `w & 0xFF` is `w % 256`;
  - `(hi << 8) | lo` is `hi * 256 + lo`;
  - `ctrl &= ~0b111` is `ctrl / 8 * 8`;
  - `ctrl |= rate` is an addition, since the low three bits are clear.
- `Registers`: the constants of the register map, `pix_addr`, the
  refresh-rate bits and the EEPROM write command.
- `TwoWire`: an abstract bus standing in for the Arduino `Wire` library.
  - The sensor is a sparse map from word addresses to words, plus the
    register pointer that an address write latches. An address never
    written reads 0.
  - Every transaction goes into a log. Write transactions carry their
    bytes, their stop flag and their status; reads carry the quantity
    asked for and the number of bytes delivered.
  - Faults are injected by transaction number. A write in `nacks` is not
    acknowledged. A read in `shorts` delivers at most one byte. An EEPROM
    command in `uncommitted` is acknowledged but not stored.
- `Protocol`: what each driver operation does to the bus and what it
  returns, as functions of the bus before the call. It also holds the
  lemmas stating what the driver promises about them.
- `Driver`: the class `Mlx90642`. Its fields are the bus it talks to
  (in the source, the global `Wire` object; here a value held by the
  object) and the last progress reading. Its methods follow the
  source statement by statement: early returns, the in-place update of
  `ctrl`, and the loop filling the caller's array. Each method is proved
  to have exactly the effect and result the `Protocol` function gives.

## Model

| member | source | states |
|---|---|---|
| `Words.Hi` | MLX90642.cpp:47 | The first byte sent is the word's high byte: the word lies in [256 * h, 256 * (h + 1)). |
| `Words.Lo` | MLX90642.cpp:48 | The second byte sent is the word's low byte: it is congruent to the word modulo 256. |
| `Words.Pack` | MLX90642.cpp:52-54 | Splitting the packed word gives back the high byte and the low byte. |
| `Words.PackSplit` | MLX90642.cpp:47-54 | Splitting an address into its two bytes and packing them again gives back the address. |
| `Words.ToSigned` | MLX90642.cpp:67 | The signed value is negative exactly when the top bit is set, and it is congruent to the word modulo 2^16. |
| `Words.FromSigned` | MLX90642.cpp:67 | Gives the bit pattern of a signed value: reading it back as signed yields the value. |
| `Words.SignedRoundTrip` | MLX90642.cpp:67 | The signed reading loses nothing: the 16 bits are recovered from it. |
| `Words.SentinelIsMinusOne` | MLX90642.cpp:62-64 | The failure word 0xFFFF, read as signed, is -1. |
| `Registers.PixAddr` | MLX90642.cpp:154-157 | A pixel below 768 sits at 0x342C + 2 * pixel with no 16-bit truncation; any other index gives 0. |
| `Registers.PixelAt` | MLX90642.cpp:154-157 | The pixel found at an address is always below 768. |
| `Registers.PixAddrInRegion` | MLX90642.cpp:154-157 | Every valid pixel address is even and lies in 0x342C..0x3A2A. |
| `Registers.PixelAtInverse` | MLX90642.cpp:154-157 | An address is pixel p's address exactly when PixelAt names p, and p is below 768. |
| `Registers.PixAddrInjective` | MLX90642.cpp:154-157 | Distinct pixels have distinct addresses. |
| `Registers.ValidRate` | MLX90642.cpp:113 | A code that passes the check fits in bits 0..2. |
| `Registers.ValidRateCodes` | MLX90642.cpp:112-113 | The check accepts exactly the codes 2, 3, 4 and 5. |
| `Registers.RateBits` | MLX90642.cpp:122 | The rate field of a word is below 8. |
| `Registers.ClearRate` | MLX90642.cpp:116 | Clearing keeps bits 3..15 and leaves bits 0..2 zero. |
| `Registers.SetRate` | MLX90642.cpp:117 | Setting a code into a cleared word keeps bits 3..15 and makes bits 0..2 the code. |
| `Registers.WithRate` | MLX90642.cpp:116-117 | The word written back keeps the old word's bits 3..15 and carries the code in bits 0..2. |
| `Registers.SentinelNeverConfirms` | MLX90642.cpp:120-122 | For a valid code, a re-read whose rate bits equal the code is never 0xFFFF. |
| `Registers.WithRateNotSentinel` | MLX90642.cpp:113-117 | The word written for a valid code is never 0xFFFF. |
| `Registers.EepromCommand` | MLX90642.cpp:97-104 | The command is six bytes: 0x3A, 0x2E, then bytes that pack back to the address and to the value. |
| `TwoWire.CommandRoundTrip` | MLX90642.cpp:99-104 | The sensor decodes a byte sequence as a write of a value to an address exactly when it is the driver's command for them. |
| `TwoWire.CommandStores` | MLX90642.cpp:97-105 | On a fault-free transaction the command is acknowledged, stores exactly its value at exactly its address, and leaves the pointer alone. |
| `TwoWire.Bus.Transmit` | MLX90642.cpp:46-49 | A write is logged with its bytes and status. It succeeds exactly when it is addressed to 0x66 and not failed. A failed write changes nothing in the sensor; a successful 2-byte write latches the address its bytes pack to. |
| `TwoWire.Bus.Request` | MLX90642.cpp:50-53 | A read is logged. It delivers at most the bytes asked for, and never more than two. It delivers two exactly when it is addressed to 0x66, asks for two and is not cut short; those two pack to the word at the pointer. |
| `Protocol.ReadValue` | MLX90642.cpp:49-54 | A register read returns 0xFFFF when the address is not acknowledged or the reply is short, and the stored word otherwise. |
| `Protocol.ReadEffect` | MLX90642.cpp:45-55 | A register read never changes memory or the fault schedule. It takes one transaction when the address is not acknowledged and two otherwise. |
| `Protocol.AddressPhase` | MLX90642.cpp:46-49 | The address phase is acknowledged exactly when not failed. When it fails, it leaves the bus as a failed register read does and no request follows. When it succeeds, the pointer is latched at the very address. |
| `Protocol.DataPhase` | MLX90642.cpp:50-54 | After the address is latched, the reply is short exactly when the read fails. Otherwise its two bytes pack to the stored word, and the bus ends as ReadEffect says. |
| `Protocol.WriteOk` | MLX90642.cpp:105 | The EEPROM write reports success exactly when its transaction, whatever bytes it carries, ends with status 0. |
| `Protocol.WriteEffect` | MLX90642.cpp:97-108 | An EEPROM write adds exactly one transaction and changes neither the pointer nor the fault schedule. |
| `Protocol.RefreshOutcome` | MLX90642.cpp:111-123 | The bus and result of a refresh-rate update; it never changes the fault schedule. What it promises is stated by the lemmas below and by `Driver.Mlx90642.SetRefreshRate`. |
| `Protocol.RefreshGuarantees` | MLX90642.cpp:111-118 | An invalid code leaves the bus untouched and returns false. A failed first read returns false after that read alone, with no write. Memory is unchanged, or only 0x11F0 changes, to the old word carrying the new code. |
| `Protocol.RefreshSuccess` | MLX90642.cpp:113-122 | Success implies a valid code, a good first read and an acknowledged write. After it, the stored word carries the code in bits 0..2 and the old bits 3..15. |
| `Protocol.RefreshConfirms` | MLX90642.cpp:120-122 | Once the first read and the write have gone through, the result is true exactly when the re-read's rate bits equal the code. |
| `Protocol.RefreshHealthy` | MLX90642.cpp:111-123 | With no fault in five transactions and a readable word, the update succeeds, stores the merged word and uses five transactions. |
| `Protocol.RefreshStoredSentinel` | MLX90642.cpp:114-115 | A configuration word that really holds 0xFFFF is taken for a failed read: the update returns false after that read, with no write, whatever the faults. |
| `Protocol.RefreshRereadFails` | MLX90642.cpp:120-121 | If the verification read is not acknowledged, the update fails although the new word was stored. |
| `Protocol.RefreshExample` | MLX90642.cpp:111-123 | Configuration word 0x1235 updated to code 4 on a fault-free bus: true, and 0x1234 is stored. |
| `Protocol.Wraps` | MLX90642.cpp:36-42 | Over successive polls, poll i reports a new frame exactly when its reading is below the previous one; the first poll compares with the stored reading. |
| `Protocol.WrapsSnoc` | MLX90642.cpp:38-40 | One more poll adds one report: whether its reading is below the previous reading. |
| `Protocol.Advance` | MLX90642.cpp:38 | The sensor moving its progress counter between polls: 0x3C10 then holds the new value, and no other word, the log, the pointer or the fault schedule changes. |
| `Protocol.PollBus` | MLX90642.cpp:36-42 | Polling never changes the fault schedule and never shortens the log. |
| `Protocol.PollReadings` | MLX90642.cpp:36-55 | One reading per poll; reading i is the counter value the sensor had reached before poll i, or 0xFFFF when that read failed. |
| `Protocol.PollReadingsAt` | MLX90642.cpp:36-55 | Reading i is a register read of 0x3C10 on the bus the earlier polls left, once the sensor has set the counter to its i-th value; so it is 0xFFFF exactly when that read fails. |
| `Protocol.PollHealthy` | MLX90642.cpp:36-55 | On a fault-free bus each poll takes two transactions and returns exactly the counter value the sensor had reached. |
| `Protocol.PollWrapsExample` | MLX90642.cpp:36-42 | A fault-free sensor whose counter runs 10, 50, 90, 5, 40 makes a fresh driver's polls report a new frame at the fourth call only. |
| `Protocol.FirstPollNeverWraps` | MLX90642.cpp:37-39 | From the initial stored reading 0, the first poll never reports a new frame. |
| `Protocol.WrapsExample` | MLX90642.cpp:36-42 | Readings 10, 50, 90, 5, 40 report false, false, false, true, false. |
| `Protocol.FrameBus` | MLX90642.cpp:85-89 | A frame read leaves memory and the fault schedule unchanged; its log only grows, keeping the earlier transactions as they were. |
| `Protocol.FrameValues` | MLX90642.cpp:85-89 | A frame read of n pixels yields n values. |
| `Protocol.FramePixelSource` | MLX90642.cpp:85-89 | Entry i of a frame comes from pixel i's register alone: that register's word, or the failure sentinel. |
| `Protocol.FrameHealthy` | MLX90642.cpp:85-89 | On a fault-free bus every entry is its pixel's word, and the frame takes two transactions per pixel. |
| `Protocol.ReadSendsAddress` | MLX90642.cpp:46-49 | A register read sends exactly one address, the one it reads, whatever faults occur. |
| `Protocol.PixelAddresses` | MLX90642.cpp:154-157 | The addresses of pixels 0..n-1 are pix_addr of each index and strictly increasing. |
| `Protocol.FrameAddresses` | MLX90642.cpp:86-87 | A frame read sends exactly the addresses of pixels 0..767, in that order, whatever faults occur. |
| `Driver.Mlx90642.constructor` | MLX90642.cpp:31-37 | A new driver is on the given bus, with the stored progress reading 0. |
| `Driver.Mlx90642.IsNewDataAvailable` | MLX90642.cpp:36-42 | One read of 0x3C10. The result is true exactly when the reading is below the stored one, and the reading is always stored. |
| `Driver.PollNewData` | MLX90642.cpp:36-42 | Successive calls on one driver, the sensor setting its counter before each, report exactly what Wraps gives for the readings returned, starting from the stored reading; on a fault-free bus, what Wraps gives for the counter values themselves. The stored reading ends as the last reading returned, or unchanged when there were no calls. |
| `Driver.Mlx90642.ReadUnsigned` | MLX90642.cpp:45-55 | Returns the stored word, or 0xFFFF when the address is not acknowledged or the reply is short; the bus ends as ReadEffect says. |
| `Driver.Mlx90642.ReadSigned` | MLX90642.cpp:58-68 | The same exchange, returning the signed reading of that word (-1 on failure). |
| `Driver.Mlx90642.ReadTa` | MLX90642.cpp:73-74 | The raw signed read of 0x3A2C. |
| `Driver.Mlx90642.ReadTempC` | MLX90642.cpp:85-89 | Entry i of the array is the signed read of pixel i, done in index order. The bus ends as FrameBus says, and entries past 768 are untouched. |
| `Driver.Mlx90642.WriteEeprom` | MLX90642.cpp:97-108 | Sends the six-byte command with a stop and returns true exactly when it is acknowledged; the bus ends as WriteEffect says. |
| `Driver.Mlx90642.SetRefreshRate` | MLX90642.cpp:111-123 | The bus and result are those of RefreshOutcome: validate, read, clear and set, write, re-read, compare. |

## Left out

- The `Wire` library itself is not part of this model. Beyond the
  transaction model, its internals (bus speed, clock stretching, buffering,
  `available`/`read` byte by byte) are replaced by `TwoWire.Bus`.
- The `delay(10)` after the EEPROM write and `delay(20)` before the re-read
  are wall-clock waits. They are no-ops here.
- The float scaling, `/ 100.0f` in `readTa` and `/ 50.0f` in `readTempC`, is
  floating point. The model returns the raw signed register values.
- `Driver.Mlx90642.ReadTempC`: the caller's array holds `float` in the
  source. Here it holds the raw `int16` values that the source divides by 50.
- `Driver.Mlx90642`: the bus is held by each driver object here, while in
  the source every object shares the one `Wire` object and the one sensor
  at 0x66. Interleaved use of two driver objects, where one object's
  transactions move the other's register pointer and log, is not captured.
- `Driver.Mlx90642.IsNewDataAvailable`: in the source the stored reading is
  a function-local `static`, shared by every driver object. Here it is a
  field of the one object modelled, so interleaved calls on two objects are
  not captured.
- `Protocol.FramePixelSource`: the sensor's own updates of its RAM (pixel
  words, Ta, the progress counter) are not modelled during a frame read. A
  frame read sees one unchanging snapshot, so entry i is the word pixel i
  held when the frame began; in the device it is the word at the moment of
  read i. Only `Protocol.PollBus` lets the sensor move a register on its
  own, the progress counter between polls.
- `Driver.Mlx90642.ReadTempC`: for the same reason, a frame read that
  overlaps the sensor writing the next frame is not captured.
- `Protocol.Wraps` detects a new frame only when a reading falls below the
  previous one. Several frames completed between two polls, or a counter
  that lands above the previous reading after wrapping, are not seen. The
  model states this behaviour; it does not claim more.
- `printFrame` depends on the lengths that `snprintf("%.1f")` produces for
  floats and on `Serial.write`; it is not modelled and no claim is made
  about its buffer bounds.
- `printFullPixelMap` and the `DEBUG` prints in `readTa` are console output
  only; the addresses they print are `Registers.PixAddr`.
- `I2C_SPEED`, `POR_DELAY`, `REFRESH_RATE` and `FRAME_BUFFER_SIZE` from the
  header configure timing and printing only.
