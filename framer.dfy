/**
 * Bit framer of the AT93C86A Microwire driver.
 *
 * Every command the driver sends is built by fixed-width shifting and masking
 * and then split MSB-first into bytes; the two bytes of a read response are
 * folded back into a word. C types are modelled by their widths: `uint8_t` is
 * `bv8`, `uint16_t` is `bv16`, and `uint32_t` is `bv32`. C evaluates the
 * 16-bit commands and the response word in (32-bit) `int` and then stores
 * them into a `uint16_t`; the model computes them in `bv16` directly, and a
 * `...NoTruncation` lemma for each shows that the `int` computation, done in
 * `bv32`, yields the same value, so the store cuts nothing off.
 */
module Framer {

  // Opcodes, as the driver defines them (EEPROM_CMD_*).
  const CmdRead: bv16 := 0x6      // 0b110
  const CmdWrite: bv16 := 0x5     // 0b101
  const CmdErase: bv16 := 0x7     // 0b111
  const CmdWen: bv16 := 0x13      // 0b10011
  const CmdWds: bv16 := 0x10      // 0b10000

  /** Masking with 0x3FF, which the driver applies to every address, is reduction modulo 1024. */
  lemma MaskIsMod(a: bv16)
    ensures a & 0x3FF == a % 0x400
  {
  }

  /*
   * Byte splitting, most significant byte first, and its inverse.
   */

  /** The value of a 2-byte frame read MSB-first. */
  function Join16(b: seq<bv8>): bv16
    requires |b| == 2
  {
    ((b[0] as bv16) << 8) | (b[1] as bv16)
  }

  /** The value of a 4-byte frame read MSB-first. */
  function Join32(b: seq<bv8>): bv32
    requires |b| == 4
  {
    ((b[0] as bv32) << 24) | ((b[1] as bv32) << 16) | ((b[2] as bv32) << 8) | (b[3] as bv32)
  }

  /** `{cmd >> 8, cmd & 0xFF}`: a 16-bit command as the two bytes sent. */
  function Split16(cmd: bv16): (b: seq<bv8>)
    ensures |b| == 2 && Join16(b) == cmd
  {
    [(cmd >> 8) as bv8, (cmd & 0xFF) as bv8]
  }

  /** `{(cmd >> 24) & 0xFF, ..., cmd & 0xFF}`: a 32-bit command as the four bytes sent. */
  function Split32(cmd: bv32): (b: seq<bv8>)
    ensures |b| == 4 && Join32(b) == cmd
  {
    [((cmd >> 24) & 0xFF) as bv8, ((cmd >> 16) & 0xFF) as bv8, ((cmd >> 8) & 0xFF) as bv8, (cmd & 0xFF) as bv8]
  }

  lemma SplitJoin16(b: seq<bv8>)
    requires |b| == 2
    ensures Split16(Join16(b)) == b
  {
  }

  lemma SplitJoin32(b: seq<bv8>)
    requires |b| == 4
    ensures Split32(Join32(b)) == b
  {
  }

  /*
   * EWEN / EWDS: a 5-bit opcode at the top of 16 bits, the low 11 bits zero.
   */

  /** `opcode << 11`. */
  function ControlCommand(opcode: bv16): bv16
    requires opcode < 0x20
  {
    opcode << 11
  }

  lemma ControlCommandNoTruncation(opcode: bv16)
    requires opcode < 0x20
    ensures (opcode as bv32) << 11 == ControlCommand(opcode) as bv32
  {
  }

  /** Bits 15:11 hold the opcode and bits 10:0 are zero. */
  lemma ControlCommandLayout(opcode: bv16)
    requires opcode < 0x20
    ensures ControlCommand(opcode) >> 11 == opcode
    ensures ControlCommand(opcode) & 0x7FF == 0
  {
  }

  function WriteEnableFrame(): (f: seq<bv8>)
    ensures f == [0x98, 0x00]
  {
    Split16(ControlCommand(CmdWen))
  }

  function WriteDisableFrame(): (f: seq<bv8>)
    ensures f == [0x80, 0x00]
  {
    Split16(ControlCommand(CmdWds))
  }

  /*
   * READ and ERASE commands share one layout: 3-bit opcode in bits 15:13,
   * the address masked to 10 bits in bits 12:3, three zero bits below.
   */

  /** `(opcode << 13) | ((addr & 0x03FF) << 3)`. */
  function AddressCommand(opcode: bv16, addr: bv16): bv16
    requires opcode < 8
  {
    (opcode << 13) | ((addr & 0x3FF) << 3)
  }

  lemma AddressCommandNoTruncation(opcode: bv16, addr: bv16)
    requires opcode < 8
    ensures ((opcode as bv32) << 13) | (((addr as bv32) & 0x3FF) << 3) == AddressCommand(opcode, addr) as bv32
  {
  }

  lemma AddressCommandLayout(opcode: bv16, addr: bv16)
    requires opcode < 8
    ensures AddressCommand(opcode, addr) >> 13 == opcode
    ensures (AddressCommand(opcode, addr) >> 3) & 0x3FF == addr % 0x400
    ensures AddressCommand(opcode, addr) & 7 == 0
  {
    MaskIsMod(addr);
  }

  function ReadFrame(addr: bv16): (f: seq<bv8>)
    ensures |f| == 2
  {
    Split16(AddressCommand(CmdRead, addr))
  }

  function EraseFrame(addr: bv16): (f: seq<bv8>)
    ensures |f| == 2
  {
    Split16(AddressCommand(CmdErase, addr))
  }

  /** The opcode an addressed 2-byte frame carries. */
  function FrameOpcode(f: seq<bv8>): bv16
    requires |f| == 2
  {
    Join16(f) >> 13
  }

  /** The address an addressed 2-byte frame carries. */
  function FrameAddress(f: seq<bv8>): bv16
    requires |f| == 2
  {
    (Join16(f) >> 3) & 0x3FF
  }

  lemma ReadFrameFields(addr: bv16)
    ensures FrameOpcode(ReadFrame(addr)) == CmdRead
    ensures FrameAddress(ReadFrame(addr)) == addr % 0x400
    ensures ReadFrame(addr)[1] & 7 == 0
  {
    AddressCommandLayout(CmdRead, addr);
  }

  lemma EraseFrameFields(addr: bv16)
    ensures FrameOpcode(EraseFrame(addr)) == CmdErase
    ensures FrameAddress(EraseFrame(addr)) == addr % 0x400
    ensures EraseFrame(addr)[1] & 7 == 0
  {
    AddressCommandLayout(CmdErase, addr);
  }

  /** The addressed command depends on the address only modulo 1024. */
  lemma AddressCommandMod(opcode: bv16, a: bv16, b: bv16)
    requires opcode < 8
    requires a % 0x400 == b % 0x400
    ensures AddressCommand(opcode, a) == AddressCommand(opcode, b)
  {
    MaskIsMod(a);
    MaskIsMod(b);
  }

  /** Two read frames are equal exactly when the addresses agree modulo 1024. */
  lemma ReadFrameDeterminedByAddress(a: bv16, b: bv16)
    ensures ReadFrame(a) == ReadFrame(b) <==> a % 0x400 == b % 0x400
  {
    ReadFrameFields(a);
    ReadFrameFields(b);
    if a % 0x400 == b % 0x400 {
      AddressCommandMod(CmdRead, a, b);
    }
  }

  /** Two erase frames are equal exactly when the addresses agree modulo 1024. */
  lemma EraseFrameDeterminedByAddress(a: bv16, b: bv16)
    ensures EraseFrame(a) == EraseFrame(b) <==> a % 0x400 == b % 0x400
  {
    EraseFrameFields(a);
    EraseFrameFields(b);
    if a % 0x400 == b % 0x400 {
      AddressCommandMod(CmdErase, a, b);
    }
  }

  /** No read frame is an erase frame, whatever the addresses. */
  lemma ReadFrameIsNotEraseFrame(a: bv16, b: bv16)
    ensures ReadFrame(a) != EraseFrame(b)
  {
    ReadFrameFields(a);
    EraseFrameFields(b);
  }

  /*
   * WRITE: one 32-bit frame carrying opcode, address and data.
   */

  /** `((uint32_t)CMD_WRITE << 27) | ((addr & 0x03FF) << 17) | (data & 0xFFFF)`. */
  function WriteCommandUnshifted(addr: bv16, data: bv16): bv32
  {
    ((CmdWrite as bv32) << 27) | (((addr & 0x3FF) as bv32) << 17) | ((data as bv32) & 0xFFFF)
  }

  /** `cmd <<= 1`, the final shift of the write command. */
  function ShiftOut(u: bv32): bv32
  {
    u << 1
  }

  function WriteCommand(addr: bv16, data: bv16): bv32
  {
    ShiftOut(WriteCommandUnshifted(addr, data))
  }

  /** Before the final shift the command fits in 30 bits. */
  lemma WriteCommandFits(addr: bv16, data: bv16)
    ensures WriteCommandUnshifted(addr, data) >> 30 == 0
  {
  }

  /** Shifting left by one loses nothing from a value below 2^30. */
  lemma ShiftLossless(u: bv32)
    requires u >> 30 == 0
    ensures (u << 1) >> 1 == u
  {
  }

  /** The final shift loses nothing: shifting back recovers the unshifted command. */
  lemma WriteShiftLossless(addr: bv16, data: bv16)
    ensures WriteCommand(addr, data) >> 1 == WriteCommandUnshifted(addr, data)
  {
    WriteCommandFits(addr, data);
    ShiftLossless(WriteCommandUnshifted(addr, data));
  }

  /**
   * Bit 31 is zero, bits 30:28 hold the write opcode, 27:18 the masked
   * address, bit 17 is zero, 16:1 hold the data and bit 0 is zero.
   */
  lemma WriteCommandLayout(addr: bv16, data: bv16)
    ensures WriteCommand(addr, data) >> 28 == CmdWrite as bv32
    ensures (WriteCommand(addr, data) >> 18) & 0x3FF == (addr % 0x400) as bv32
    ensures (WriteCommand(addr, data) >> 17) & 1 == 0
    ensures (WriteCommand(addr, data) >> 1) & 0xFFFF == data as bv32
    ensures WriteCommand(addr, data) & 1 == 0
  {
    MaskIsMod(addr);
  }

  function WriteFrame(addr: bv16, data: bv16): (f: seq<bv8>)
    ensures |f| == 4
  {
    Split32(WriteCommand(addr, data))
  }

  /** The address a write frame carries. */
  function WriteFrameAddress(f: seq<bv8>): bv32
    requires |f| == 4
  {
    (Join32(f) >> 18) & 0x3FF
  }

  /** The data word a write frame carries. */
  function WriteFrameData(f: seq<bv8>): bv32
    requires |f| == 4
  {
    (Join32(f) >> 1) & 0xFFFF
  }

  /** Both fields are recovered exactly from the four bytes. */
  lemma WriteFrameFields(addr: bv16, data: bv16)
    ensures WriteFrameAddress(WriteFrame(addr, data)) == (addr % 0x400) as bv32
    ensures WriteFrameData(WriteFrame(addr, data)) == data as bv32
  {
    WriteCommandLayout(addr, data);
  }

  lemma WriteCommandUnshiftedMasked(a1: bv16, a2: bv16, data: bv16)
    requires a1 & 0x3FF == a2 & 0x3FF
    ensures WriteCommandUnshifted(a1, data) == WriteCommandUnshifted(a2, data)
  {
  }

  /** Only the masked address enters the command. */
  lemma WriteCommandMasked(a1: bv16, a2: bv16, data: bv16)
    requires a1 & 0x3FF == a2 & 0x3FF
    ensures WriteCommand(a1, data) == WriteCommand(a2, data)
  {
    WriteCommandUnshiftedMasked(a1, a2, data);
  }

  /** The write frame depends on the address only modulo 1024. */
  lemma WriteFrameAddressMod(a1: bv16, a2: bv16, data: bv16)
    requires a1 % 0x400 == a2 % 0x400
    ensures WriteFrame(a1, data) == WriteFrame(a2, data)
  {
    MaskIsMod(a1);
    MaskIsMod(a2);
    WriteCommandMasked(a1, a2, data);
  }

  /** The write frame is injective in (address modulo 1024, data). */
  lemma WriteFrameInjective(a1: bv16, d1: bv16, a2: bv16, d2: bv16)
    ensures WriteFrame(a1, d1) == WriteFrame(a2, d2) <==> a1 % 0x400 == a2 % 0x400 && d1 == d2
  {
    WriteFrameFields(a1, d1);
    WriteFrameFields(a2, d2);
    if a1 % 0x400 == a2 % 0x400 && d1 == d2 {
      WriteFrameAddressMod(a1, a2, d1);
    }
  }

  /** The live layout for address 0x10 and data 0xDEAD. */
  lemma WriteFrameExample()
    ensures WriteCommandUnshifted(0x10, 0xDEAD) == 0x2820_DEAD
    ensures WriteFrame(0x10, 0xDEAD) == [0x50, 0x41, 0xBD, 0x5A]
  {
  }

  lemma ReadEraseFrameExamples()
    ensures ReadFrame(0x10) == [0xC0, 0x80]
    ensures EraseFrame(0x11) == [0xE0, 0x88]
  {
  }

  /*
   * Read response.
   */

  /** The two bytes clocked in after a READ command (databuf[0], databuf[1]). */
  datatype Reply = Reply(hi: bv8, lo: bv8)

  /** `(databuf[0] << 7) | databuf[1] >> 1`: the word the two response bytes decode to. */
  function DecodeWord(hi: bv8, lo: bv8): bv16
  {
    ((hi as bv16) << 7) | ((lo >> 1) as bv16)
  }

  /** Computed in `int` (32 bits here), the decode fits the `uint16_t` it is stored in. */
  lemma DecodeNoTruncation(hi: bv8, lo: bv8)
    ensures ((hi as bv32) << 7) | ((lo as bv32) >> 1) == DecodeWord(hi, lo) as bv32
  {
  }

  /**
   * The first byte lands in bits 14:7, the top seven bits of the second in
   * bits 6:0 (the two ranges are disjoint) and bit 15 is always zero.
   */
  lemma DecodeLayout(hi: bv8, lo: bv8)
    ensures DecodeWord(hi, lo) < 0x8000
    ensures DecodeWord(hi, lo) >> 7 == hi as bv16
    ensures DecodeWord(hi, lo) & 0x7F == (lo >> 1) as bv16
  {
  }

  /** A response that decodes to `w`, for every `w` the decoder can produce. */
  function ReplyFor(w: bv16): Reply
    requires w < 0x8000
  {
    Reply((w >> 7) as bv8, ((w & 0x7F) << 1) as bv8)
  }

  lemma DecodeReplyFor(w: bv16)
    requires w < 0x8000
    ensures DecodeWord(ReplyFor(w).hi, ReplyFor(w).lo) == w
  {
    assert DecodeWord((w >> 7) as bv8, ((w & 0x7F) << 1) as bv8) == w;
  }

  /** The lowest bit of the second byte does not reach the word. */
  lemma DecodeIgnoresLastBit(h1: bv8, l1: bv8, h2: bv8, l2: bv8)
    requires h1 == h2 && l1 >> 1 == l2 >> 1
    ensures DecodeWord(h1, l1) == DecodeWord(h2, l2)
  {
  }

  /** Every other bit does: two responses that decode alike agree but for that bit. */
  lemma DecodeWordDetermines(h1: bv8, l1: bv8, h2: bv8, l2: bv8)
    requires DecodeWord(h1, l1) == DecodeWord(h2, l2)
    ensures h1 == h2 && l1 >> 1 == l2 >> 1
  {
    DecodeLayout(h1, l1);
    DecodeLayout(h2, l2);
  }

  /**
   * No response decodes to a word with bit 15 set, so a word such as 0xDEAD
   * that was written cannot be read back as itself.
   */
  lemma HighWordsUnreadable(w: bv16, hi: bv8, lo: bv8)
    requires w >= 0x8000
    ensures DecodeWord(hi, lo) != w
  {
    DecodeLayout(hi, lo);
  }
}
