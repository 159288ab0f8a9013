/**
 * The driver as the program runs it: the chip-select pin, the dump_flag
 * variable and everything the driver has done so far, updated call by call.
 *
 * The Pico SDK calls the driver makes are the primitive methods of
 * `Eeprom`: each one records its event on `trace`. The five operations and
 * the dump are written with those primitives in the order the driver calls
 * them, and each is proved to append exactly the event sequence of module
 * Transactions (or Dump), whose properties are proved there.
 */
module Driver {
  import opened Framer
  import opened Trace
  import opened Transactions
  import opened Dump

  class Eeprom {
    /** The level the driver last put on the CS pin. */
    var cs: bool
    /** static uint8_t dump_flag: 1 while a dump is in progress. */
    var dumpFlag: bv8
    /** Everything the driver has done, in order. */
    var trace: seq<Event>
    /** The CS level before the first recorded event. */
    ghost const initialCs: bool

    /**
     * `cs` is the level the trace leaves the pin at, and no transfer so far
     * happened with CS low.
     */
    ghost predicate Valid()
      reads this
    {
      cs == LevelAfter(initialCs, trace) && SelectedTransfers(initialCs, trace)
    }

    constructor(level: bool)
      ensures Valid() && cs == level && dumpFlag == 0 && trace == []
    {
      cs := level;
      dumpFlag := 0;
      trace := [];
      initialCs := level;
    }

    /*
     * Pico SDK calls.
     */

    /** gpio_put(cs_pin, level). */
    method GpioPut(level: bool)
      modifies this
      ensures cs == level && dumpFlag == old(dumpFlag)
      ensures trace == old(trace) + [if level then CsHigh else CsLow]
      ensures old(Valid()) ==> Valid()
    {
      StepOne(initialCs, trace, if level then CsHigh else CsLow);
      cs := level;
      trace := trace + [if level then CsHigh else CsLow];
    }

    /** sleep_us(us). */
    method SleepUs(us: nat)
      modifies this
      ensures cs == old(cs) && dumpFlag == old(dumpFlag)
      ensures trace == old(trace) + [Sleep(us)]
      ensures old(Valid()) ==> Valid()
    {
      StepOne(initialCs, trace, Sleep(us));
      trace := trace + [Sleep(us)];
    }

    /** sleep_ms(ms). */
    method SleepMs(ms: nat)
      modifies this
      ensures cs == old(cs) && dumpFlag == old(dumpFlag)
      ensures trace == old(trace) + [Sleep(1000 * ms)]
      ensures old(Valid()) ==> Valid()
    {
      SleepUs(1000 * ms);
    }

    /** spi_write_blocking(spi, bytes, |bytes|): allowed by Valid only with CS high. */
    method SpiWrite(bytes: seq<bv8>)
      modifies this
      ensures cs == old(cs) && dumpFlag == old(dumpFlag)
      ensures trace == old(trace) + [BusWrite(bytes)]
      ensures old(Valid()) ==> (Valid() <==> cs)
    {
      StepOne(initialCs, trace, BusWrite(bytes));
      trace := trace + [BusWrite(bytes)];
    }

    /** spi_read_blocking(spi, 0, buf, n): whatever `n` bytes the chip clocks out. */
    method SpiRead(n: nat) returns (bytes: seq<bv8>)
      modifies this
      ensures |bytes| == n
      ensures cs == old(cs) && dumpFlag == old(dumpFlag)
      ensures trace == old(trace) + [BusRead(bytes)]
      ensures old(Valid()) ==> (Valid() <==> cs)
    {
      assert |seq(n, _ => 0 as bv8)| == n;
      bytes :| |bytes| == n;
      StepOne(initialCs, trace, BusRead(bytes));
      trace := trace + [BusRead(bytes)];
    }

    /** A console line or cell: no effect on the pin or the bus. */
    method Output(e: Event)
      requires e.Echo? || e.RowBreak? || e.Cell?
      modifies this
      ensures cs == old(cs) && dumpFlag == old(dumpFlag)
      ensures trace == old(trace) + [e]
      ensures old(Valid()) ==> Valid()
    {
      StepOne(initialCs, trace, e);
      trace := trace + [e];
    }

    /*
     * The driver.
     */

    /** cs_select: CS high, then the 1 us setup time. */
    method CsSelect()
      modifies this
      ensures cs && dumpFlag == old(dumpFlag)
      ensures trace == old(trace) + Select()
      ensures old(Valid()) ==> Valid()
    {
      GpioPut(true);
      SleepUs(1);
    }

    /** cs_deselect: CS low, then the 1 us hold time. */
    method CsDeselect()
      modifies this
      ensures !cs && dumpFlag == old(dumpFlag)
      ensures trace == old(trace) + Deselect()
      ensures old(Valid()) ==> Valid()
    {
      GpioPut(false);
      SleepUs(1);
    }

    /** eeprom_write_enable: the EWEN frame in one transaction. */
    method WriteEnable()
      requires Valid()
      modifies this
      ensures Valid() && !cs && dumpFlag == old(dumpFlag)
      ensures trace == old(trace) + WriteEnableEvents()
    {
      ghost var start := trace;
      CsDeselect();
      CsSelect();
      SpiWrite(WriteEnableFrame());
      BracketByCalls(start, [], [BusWrite(WriteEnableFrame())], [], trace);
      CsDeselect();
    }

    /** eeprom_write_disable: the EWDS frame in one transaction. */
    method WriteDisable()
      requires Valid()
      modifies this
      ensures Valid() && !cs && dumpFlag == old(dumpFlag)
      ensures trace == old(trace) + WriteDisableEvents()
    {
      ghost var start := trace;
      CsDeselect();
      CsSelect();
      SpiWrite(WriteDisableFrame());
      BracketByCalls(start, [], [BusWrite(WriteDisableFrame())], [], trace);
      CsDeselect();
    }

    /**
     * eeprom_read: the READ frame, then two bytes in; `data` is the word
     * they decode to, and the bytes are printed unless dump_flag is set.
     */
    method Read(addr: bv16) returns (data: bv16, ghost reply: Reply)
      requires Valid()
      modifies this
      ensures Valid() && !cs && dumpFlag == old(dumpFlag)
      ensures data == DecodeWord(reply.hi, reply.lo) && data < 0x8000
      ensures trace == old(trace) + ReadEvents(addr, reply, dumpFlag == 0)
    {
      ghost var start := trace;
      CsDeselect();
      CsSelect();
      SpiWrite(ReadFrame(addr));
      var buf := SpiRead(2);
      reply := Reply(buf[0], buf[1]);
      data := DecodeWord(buf[0], buf[1]);
      DecodeLayout(buf[0], buf[1]);
      assert buf == [reply.hi, reply.lo];
      ghost var afterRead := trace;
      if dumpFlag == 0 {
        Output(Echo(buf[0], buf[1]));
      }
      ReadSteps(start, addr, reply, dumpFlag == 0, afterRead, trace);
      CsDeselect();
    }

    /** eeprom_write: the 4-byte WRITE frame, held selected for 10 ms. */
    method Write(addr: bv16, data: bv16)
      requires Valid()
      modifies this
      ensures Valid() && !cs && dumpFlag == old(dumpFlag)
      ensures trace == old(trace) + WriteEvents(addr, data)
    {
      ghost var start := trace;
      CsDeselect();
      SleepUs(1);
      CsSelect();
      SpiWrite(WriteFrame(addr, data));
      SleepMs(10);
      BracketByCalls(start, [Sleep(1)], [BusWrite(WriteFrame(addr, data)), Sleep(10000)], [], trace);
      CsDeselect();
    }

    /** eeprom_erase: the ERASE frame, then 7 ms with CS low. */
    method Erase(addr: bv16)
      requires Valid()
      modifies this
      ensures Valid() && !cs && dumpFlag == old(dumpFlag)
      ensures trace == old(trace) + EraseEvents(addr)
    {
      ghost var start := trace;
      CsDeselect();
      CsSelect();
      SpiWrite(EraseFrame(addr));
      BracketByCalls(start, [], [BusWrite(EraseFrame(addr))], [Sleep(7000)], trace);
      CsDeselect();
      SleepMs(7);
    }

    /**
     * eeprom_dump: addresses 0 .. 0x3FF read in turn with dump_flag set,
     * the table printed as it goes; `replies` are the chip's answers.
     */
    method Dump() returns (ghost replies: seq<Reply>)
      requires Valid()
      modifies this
      ensures Valid() && !cs && dumpFlag == 0
      ensures |replies| == 0x400
      ensures trace == old(trace) + DumpEvents(replies)
    {
      dumpFlag := 1;
      replies := [];
      var addr: U16 := 0;
      while addr <= 0x3FF
        invariant addr as int == |replies| <= 0x400
        invariant trace == old(trace) + DumpEvents(replies)
        invariant Valid() && dumpFlag == 1
        invariant replies != [] ==> !cs
      {
        var a: nat := addr as int;
        var data, r := Read(a as bv16);
        ghost var afterRead := trace;
        if addr % 16 == 0 {
          Output(RowBreak(a));
        }
        DumpSteps(old(trace), replies, r, a, dumpFlag == 0, afterRead, trace, data);
        Output(Cell(data));
        replies := replies + [r];
        addr := addr + 1;
      }
      dumpFlag := 0;
    }
  }
}
