# AT93C86A Microwire EEPROM driver, modelled in Dafny

`spi_flash.c` drives an AT93C86A serial EEPROM (1024 words of 16 bits) from a
Raspberry Pi Pico over SPI used as a 3-wire Microwire bus. This project models
its command layer in two parts.

- **Bit framer** (`framer.dfy`, module `Framer`). The driver packs each
  command into an exact MSB-first byte frame with fixed-width shifts and
  masks, and unpacks the two bytes of a read response into a word. Those
  steps are modelled as functions on `bv8`, `bv16` and `bv32`, the widths of
  the driver's `uint8_t`, `uint16_t` and `uint32_t` values. The commands are:
  - EWEN and EWDS (5-bit opcodes);
  - READ and ERASE (3-bit opcode, 10-bit address);
  - WRITE (a 32-bit command of opcode, address and data, shifted left once).

  Lemmas state:
  - the exact bytes of each frame;
  - where every bit field lands;
  - that the C `int` arithmetic stored back into `uint16_t` cuts nothing off;
  - that frames depend on the address only modulo 1024;
  - that the write frame is injective in (address mod 1024, data);
  - what the response decoder keeps and what it discards.
- **Transaction sequencer** (`trace.dfy`, `transactions.dfy`, `dump.dfy`,
  `driver.dfy`). Class `Driver.Eeprom` holds:
  - the chip-select level;
  - the driver's `dump_flag`;
  - the append-only trace of what the driver has done.

  Trace events are CS edges, sleeps, bus writes, bus reads, and the three
  console outputs that depend on the driver's state: the response echo of a
  read, the dump's row header and the dump's word cells. The class invariant
  `Valid` says two things: `cs` is the level the trace leaves the pin at, and
  no bus transfer has ever happened with CS low.

  Each driver function is a method built from the Pico SDK calls it makes, in
  the same order. Each is proved to append exactly the events of a function in
  `Transactions` or `Dump`, and lemmas there prove what that sequence
  promises:
  - each operation starts with deselect then select;
  - each operation transfers only with CS high and ends with CS low;
  - there is exactly one bus write per operation, and one 2-byte read after it for READ;
  - the sleeps come in the right order and at the right CS level;
  - the dump reads the 1024 addresses in ascending order, prints 64 rows, and never echoes a response.

The chip select is active high in this driver: `cs_select` drives the pin to
1 and `cs_deselect` drives it to 0.

## Model

| member | source | states |
|---|---|---|
| Framer.MaskIsMod | spi_flash.c:74 | masking an address with 0x3FF is reducing it modulo 1024 |
| Framer.Split16 | spi_flash.c:58 | a 16-bit command splits into 2 bytes that reassemble MSB-first to the command |
| Framer.Split32 | spi_flash.c:104-109 | a 32-bit command splits into 4 bytes that reassemble MSB-first to the command |
| Framer.SplitJoin16 | spi_flash.c:58 | splitting is also a left inverse: 2 bytes joined and split again are the same bytes |
| Framer.SplitJoin32 | spi_flash.c:104-109 | the same for 4 bytes |
| Framer.ControlCommand | spi_flash.c:48 | the EWEN command word `opcode << 11` (EWDS alike at line 65), held in 16 bits; its properties are the next two rows |
| Framer.ControlCommandNoTruncation | spi_flash.c:48 | `opcode << 11` computed at 32 bits equals the stored 16-bit command, so nothing is cut off |
| Framer.ControlCommandLayout | spi_flash.c:48 | the 5-bit opcode sits in bits 15:11 and bits 10:0 are zero |
| Framer.WriteEnableFrame | spi_flash.c:48-58 | the EWEN frame is exactly 0x98 0x00 |
| Framer.WriteDisableFrame | spi_flash.c:65-66 | the EWDS frame is exactly 0x80 0x00 |
| Framer.AddressCommand | spi_flash.c:74 | the READ command word (ERASE alike at line 163) `(opcode << 13) \| ((addr & 0x3FF) << 3)`, held in 16 bits; its properties are the next two rows |
| Framer.ReadFrame | spi_flash.c:74-75 | the READ command split MSB-first into its 2 bytes; the frame has length 2 |
| Framer.EraseFrame | spi_flash.c:163-164 | the ERASE command split MSB-first into its 2 bytes; the frame has length 2 |
| Framer.AddressCommandNoTruncation | spi_flash.c:74 | the READ/ERASE command computed at 32 bits equals the stored 16-bit command |
| Framer.AddressCommandLayout | spi_flash.c:74 | opcode in bits 15:13, address mod 1024 in bits 12:3, bits 2:0 zero |
| Framer.ReadFrameFields | spi_flash.c:74-75 | the 2 READ bytes carry opcode 0b110 and the address mod 1024, low 3 bits zero |
| Framer.EraseFrameFields | spi_flash.c:163-164 | the 2 ERASE bytes carry opcode 0b111 and the address mod 1024, low 3 bits zero |
| Framer.AddressCommandMod | spi_flash.c:74 | addresses equal modulo 1024 give the same command |
| Framer.ReadFrameDeterminedByAddress | spi_flash.c:74-75 | two READ frames are equal if and only if the addresses agree modulo 1024 |
| Framer.EraseFrameDeterminedByAddress | spi_flash.c:163-164 | two ERASE frames are equal if and only if the addresses agree modulo 1024 |
| Framer.ReadFrameIsNotEraseFrame | spi_flash.c:14-16 | no READ frame equals any ERASE frame |
| Framer.ReadEraseFrameExamples | spi_flash.c:74-75 | READ of 0x10 is C0 80; ERASE of 0x11 is E0 88 |
| Framer.WriteCommandUnshifted | spi_flash.c:95-97 | the 32-bit write command `(5 << 27) \| ((addr & 0x3FF) << 17) \| data` before the shift |
| Framer.ShiftOut | spi_flash.c:99 | `cmd <<= 1` on a `uint32_t` |
| Framer.WriteCommand | spi_flash.c:95-99 | the write command after the shift; its layout is stated by WriteCommandLayout |
| Framer.WriteFrame | spi_flash.c:95-109 | the write command split MSB-first into its 4 bytes; the frame has length 4 |
| Framer.WriteCommandFits | spi_flash.c:95-97 | the write command before `cmd <<= 1` fits in 30 bits |
| Framer.WriteShiftLossless | spi_flash.c:99 | `cmd <<= 1` loses no bit: shifting back gives the unshifted command |
| Framer.WriteCommandLayout | spi_flash.c:95-99 | bit 31 zero, opcode in 30:28, address mod 1024 in 27:18, bit 17 zero, data in 16:1, bit 0 zero |
| Framer.WriteFrameFields | spi_flash.c:95-109 | address mod 1024 and data are both recovered exactly from the 4 bytes |
| Framer.WriteCommandMasked | spi_flash.c:96 | only `addr & 0x3FF` enters the write command |
| Framer.WriteFrameAddressMod | spi_flash.c:95-109 | addresses equal modulo 1024 give the same write frame |
| Framer.WriteFrameInjective | spi_flash.c:95-109 | two write frames are equal if and only if the addresses agree mod 1024 and the data are equal |
| Framer.WriteFrameExample | spi_flash.c:95-109 | for (0x10, 0xDEAD) the unshifted command is 0x2820DEAD and the frame is 50 41 BD 5A |
| Framer.DecodeWord | spi_flash.c:80 | the response decode `(databuf[0] << 7) \| (databuf[1] >> 1)` stored in a `uint16_t`; its properties are the rows below |
| Framer.DecodeNoTruncation | spi_flash.c:80 | the decode computed at 32 bits equals the stored 16-bit word |
| Framer.DecodeLayout | spi_flash.c:80 | the first byte lands in bits 14:7 and the top 7 bits of the second in bits 6:0; the word is below 0x8000 |
| Framer.DecodeReplyFor | spi_flash.c:80 | every word below 0x8000 is the decode of some response |
| Framer.DecodeIgnoresLastBit | spi_flash.c:80 | responses that differ only in the last bit of the second byte decode alike |
| Framer.DecodeWordDetermines | spi_flash.c:80 | responses that decode alike differ at most in that bit |
| Framer.HighWordsUnreadable | spi_flash.c:80 | no response decodes to a word with bit 15 set, so such a written word never reads back as itself |
| Trace.Select | spi_flash.c:34-37 | `cs_select`: one rising CS edge, no transfer |
| Trace.Deselect | spi_flash.c:39-42 | `cs_deselect`: one falling CS edge, no transfer |
| Trace.BracketByCalls | spi_flash.c:34-42 | a history extended call by call with deselect, the extra pauses, select, the body, deselect and the trailing pauses is extended by exactly one bracketed operation |
| Trace.BracketIsTransaction | spi_flash.c:34-42 | deselect, select, transfers, deselect form a transaction: starts low, then high, ends low, and transfers only while high, from either starting level |
| Trace.BracketSleeps | spi_flash.c:34-42 | the pauses of a bracketed operation, with the CS level at each |
| Trace.TransactionExtends | spi_flash.c:34-42 | after a transaction the whole history still transfers only with CS high, and CS is low |
| Transactions.WriteEnableEvents | spi_flash.c:44-61 | EWEN: deselect, select, write the EWEN frame, deselect; facts in WriteEnableSequence |
| Transactions.WriteDisableEvents | spi_flash.c:62-69 | EWDS: the same with the EWDS frame; facts in WriteDisableSequence |
| Transactions.ReadEvents | spi_flash.c:71-87 | READ: deselect, select, write the READ frame, read 2 bytes, echo them when asked, deselect; facts in ReadSequence |
| Transactions.WriteEvents | spi_flash.c:89-118 | WRITE: deselect, 1 us, select, write the frame, 10 ms, deselect; facts in WriteSequence |
| Transactions.EraseEvents | spi_flash.c:159-168 | ERASE: deselect, select, write the frame, deselect, 7 ms; facts in EraseSequence |
| Transactions.WriteEnableSequence | spi_flash.c:44-61 | EWEN is a transaction whose only transfer is the write of 98 00; pauses 1 us low, 1 us high, 1 us low |
| Transactions.WriteDisableSequence | spi_flash.c:62-69 | EWDS is a transaction whose only transfer is the write of 80 00; same pauses |
| Transactions.ReadSequence | spi_flash.c:71-87 | READ is a transaction: one 2-byte command write, then one 2-byte read; the bytes are echoed exactly when asked; pauses as for EWEN |
| Transactions.ReadSteps | spi_flash.c:71-87 | the driver's calls in order (deselect, select, write, read, optional echo, deselect) append exactly the READ sequence |
| Transactions.WriteSequence | spi_flash.c:89-118 | WRITE is a transaction whose only transfer is its 4-byte frame; pauses are 1 us low, an extra 1 us low, 1 us high, 10 ms with CS still high, then 1 us low |
| Transactions.EraseSequence | spi_flash.c:159-168 | ERASE is a transaction whose only transfer is its 2-byte frame; pauses 1 us low, 1 us high, 1 us low, then 7 ms after CS is released |
| Dump.Show | spi_flash.c:179-182 | what one iteration prints after its read: a row header when the address is a multiple of 16, then the word |
| Dump.DumpStep | spi_flash.c:177-183 | one iteration: a READ of the counter with dump_flag set, then what it prints for the decoded response |
| Dump.DumpEvents | spi_flash.c:177-183 | the iterations for addresses 0, 1, ... in order; facts in the Dump rows below |
| Dump.DumpAddress | spi_flash.c:177-178 | iteration i sends a READ frame carrying address i |
| Dump.DumpSteps | spi_flash.c:177-183 | one turn of the dump loop (read, optional row header, word) appends exactly one iteration's events |
| Dump.RowHeadersExtend | spi_flash.c:179-181 | address n adds a row header exactly when n is a multiple of 16 |
| Dump.DumpTransfers | spi_flash.c:177-178 | the dump's transfers are, for i = 0, 1, ... in order, the READ frame of address i and its 2-byte response, and nothing else |
| Dump.DumpQuiet | spi_flash.c:83-85 | no read of the dump echoes its response |
| Dump.DumpSelected | spi_flash.c:177-178 | every transfer of the dump happens with CS high, and CS is low after any iteration |
| Dump.WordsOfExtend | spi_flash.c:178-182 | one more printed word, the decode of one more response, keeps the words matched one to one with the responses |
| Dump.DumpCells | spi_flash.c:178-182 | the dump prints the decoded word of each response, one per address, in order |
| Dump.DumpRows | spi_flash.c:179-181 | the row headers are at 0, 16, 32, ..., one per started row |
| Dump.FullDump | spi_flash.c:177 | a full dump makes 2048 transfers (1024 reads), 64 row headers and 1024 words |
| Driver.Eeprom.constructor | spi_flash.c:21 | dump_flag starts at 0; nothing has happened yet |
| Driver.Eeprom.GpioPut | spi_flash.c:34-42 | `gpio_put(cs_pin, level)`: the pin takes the level, one CS edge is recorded, the invariant is kept |
| Driver.Eeprom.SleepUs | spi_flash.c:36 | `sleep_us(us)` (also lines 41 and 91): one pause is recorded; pin and dump_flag unchanged; the invariant is kept |
| Driver.Eeprom.SleepMs | spi_flash.c:116 | `sleep_ms(ms)` (also line 167): one pause of 1000 * ms microseconds is recorded |
| Driver.Eeprom.SpiWrite | spi_flash.c:59 | `spi_write_blocking` (also lines 67, 77, 115 and 165): one bus write of exactly those bytes; the invariant holds afterwards exactly when CS is high |
| Driver.Eeprom.SpiRead | spi_flash.c:79 | `spi_read_blocking`: n bytes, whatever the chip clocks out, recorded as one bus read; the invariant holds afterwards exactly when CS is high |
| Driver.Eeprom.Output | spi_flash.c:84 | one state-dependent console output is recorded (the echo here, the row header and word at lines 180 and 182); pin, dump_flag and invariant unchanged |
| Driver.Eeprom.CsSelect | spi_flash.c:34-37 | CS high, then 1 us; the invariant is kept |
| Driver.Eeprom.CsDeselect | spi_flash.c:39-42 | CS low, then 1 us; the invariant is kept |
| Driver.Eeprom.WriteEnable | spi_flash.c:44-61 | appends exactly the EWEN sequence; CS low after; dump_flag unchanged |
| Driver.Eeprom.WriteDisable | spi_flash.c:62-69 | appends exactly the EWDS sequence; CS low after; dump_flag unchanged |
| Driver.Eeprom.Read | spi_flash.c:71-87 | appends exactly the READ sequence for the bytes the chip returned, echoed exactly when dump_flag is 0; the result is their decode and is below 0x8000 |
| Driver.Eeprom.Write | spi_flash.c:89-118 | appends exactly the WRITE sequence; CS low after |
| Driver.Eeprom.Erase | spi_flash.c:159-168 | appends exactly the ERASE sequence; CS low after |
| Driver.Eeprom.Dump | spi_flash.c:170-186 | the loop counter ends at 0x400 without wrapping, after exactly 1024 iterations; appends exactly the dump's events for the 1024 responses; dump_flag is 1 throughout the loop (invariant) and 0 on return; CS low after |

## Left out

- Console output other than the three state-dependent lines is not modelled:
  - the dump's banner and heading lines (spi_flash.c:173-175);
  - its closing newline (spi_flash.c:184);
  - the unconditional `cmd:` debug print in `eeprom_write` (spi_flash.c:101).

  The `%02X`/`%04X` formatting is not modelled either. An echo, a row header
  and a word cell are each one event carrying the printed values.
- The `spi` and `cs_pin` parameters are not modelled. The model has one bus and one chip-select pin.
- The Pico SDK is not modelled. `gpio_put`, `sleep_us`, `sleep_ms`,
  `spi_write_blocking` and `spi_read_blocking` are primitive methods that
  record one event each. Real time becomes `Sleep` events in microseconds.
  Wall-clock time and bus timing are not modelled.
- The bytes a bus read returns are chosen nondeterministically. `Driver.Eeprom.Read` hands them back as a ghost `Reply` next to the decoded word.
- Bus errors are not modelled. The driver ignores the return values of the SPI calls, so a failed transfer has no path in the code.
- The EEPROM itself is not modelled: neither the stored cells nor the write-enable latch. The driver keeps no such state, so no read-after-write property is claimed.
- `main` (spi_flash.c:188 onward) is not modelled. It is peripheral bring-up and a demo sequence.
- The commented-out code at spi_flash.c:23-33, 81-82 and 119-157 is not modelled.
- Driver.Eeprom.Read: the `uint16_t *data` out-pointer becomes a return value.
- Driver.Eeprom.Dump: the `uint16_t` loop counter is modelled as `U16`, the integers below 2^16.
  - It is compared with 0x400, tested modulo 16, passed to `eeprom_read`, printed in the row header and incremented.
  - Dafny checks that every value fits, so the increment provably never wraps.
  - The counter is passed to `eeprom_read` as the `bv16` of the same value.
- Driver.Eeprom.SpiRead: `spi_read_blocking` clocks out the repeated byte 0x00 while it reads (spi_flash.c:79). The `BusRead` event records only the bytes read, not those sent.
