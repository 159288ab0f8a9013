/**
 * The event sequence each driver operation produces, and what it promises:
 * every operation is a transaction (deselect, select, transfers with CS
 * high, CS low at the end), sends exactly its own frame, and pauses in its
 * own order. The dump is the sequence of 1024 reads with the table output
 * between them.
 */
module Transactions {
  import opened Framer
  import opened Trace

  /** eeprom_write_enable. */
  function WriteEnableEvents(): seq<Event>
  {
    Bracket([], [BusWrite(WriteEnableFrame())], [])
  }

  /** eeprom_write_disable. */
  function WriteDisableEvents(): seq<Event>
  {
    Bracket([], [BusWrite(WriteDisableFrame())], [])
  }

  /**
   * eeprom_read of `addr` when the chip answers `r`; `echo` says whether the
   * response bytes are printed, which the driver does when dump_flag is 0.
   */
  function ReadEvents(addr: bv16, r: Reply, echo: bool): seq<Event>
  {
    Bracket([], [BusWrite(ReadFrame(addr)), BusRead([r.hi, r.lo])] + (if echo then [Echo(r.hi, r.lo)] else []), [])
  }

  /** eeprom_write: an extra 1 us before select, and 10 ms with CS still high. */
  function WriteEvents(addr: bv16, data: bv16): seq<Event>
  {
    Bracket([Sleep(1)], [BusWrite(WriteFrame(addr, data)), Sleep(10000)], [])
  }

  /** eeprom_erase: 7 ms after CS is released. */
  function EraseEvents(addr: bv16): seq<Event>
  {
    Bracket([], [BusWrite(EraseFrame(addr))], [Sleep(7000)])
  }

  /** Bracketing one frame with nothing before or after it. */
  lemma SingleFrame(start: bool, f: seq<bv8>)
    ensures Transaction(Bracket([], [BusWrite(f)], []))
    ensures Transfers(Bracket([], [BusWrite(f)], [])) == [BusWrite(f)]
    ensures SleepsAt(start, Bracket([], [BusWrite(f)], [])) == [(1, false), (1, true), (1, false)]
  {
    CollectSingle(BusWrite(f), EdgeOf);
    CollectSingle(BusWrite(f), TransferOf);
    BracketIsTransaction([], [BusWrite(f)], []);
    BracketCollect([], [BusWrite(f)], [], TransferOf);
    BracketSleeps(start, [], [BusWrite(f)], []);
    assert [BusWrite(f)][..0] == [];
  }

  /** EWEN: one transaction sending exactly 0x98 0x00. */
  lemma WriteEnableSequence(start: bool)
    ensures Transaction(WriteEnableEvents())
    ensures Transfers(WriteEnableEvents()) == [BusWrite([0x98, 0x00])]
    ensures SleepsAt(start, WriteEnableEvents()) == [(1, false), (1, true), (1, false)]
  {
    SingleFrame(start, WriteEnableFrame());
  }

  /** EWDS: one transaction sending exactly 0x80 0x00. */
  lemma WriteDisableSequence(start: bool)
    ensures Transaction(WriteDisableEvents())
    ensures Transfers(WriteDisableEvents()) == [BusWrite([0x80, 0x00])]
    ensures SleepsAt(start, WriteDisableEvents()) == [(1, false), (1, true), (1, false)]
  {
    SingleFrame(start, WriteDisableFrame());
  }

  /** ERASE: one 2-byte frame, then CS released, then 7 ms. */
  lemma EraseSequence(start: bool, addr: bv16)
    ensures Transaction(EraseEvents(addr))
    ensures Transfers(EraseEvents(addr)) == [BusWrite(EraseFrame(addr))]
    ensures |EraseFrame(addr)| == 2
    ensures SleepsAt(start, EraseEvents(addr)) == [(1, false), (1, true), (1, false), (7000, false)]
  {
    var body, post := [BusWrite(EraseFrame(addr))], [Sleep(7000)];
    CollectSingle(BusWrite(EraseFrame(addr)), EdgeOf);
    CollectSingle(Sleep(7000), EdgeOf);
    CollectSingle(BusWrite(EraseFrame(addr)), TransferOf);
    CollectSingle(Sleep(7000), TransferOf);
    BracketIsTransaction([], body, post);
    BracketCollect([], body, [], TransferOf);
    BracketCollect([], body, post, TransferOf);
    BracketSleeps(start, [], body, post);
    assert body[..0] == [] && post[..0] == [];
  }

  /** WRITE: 1 us before select, one 4-byte frame, 10 ms with CS high, then CS released. */
  lemma WriteSequence(start: bool, addr: bv16, data: bv16)
    ensures Transaction(WriteEvents(addr, data))
    ensures Transfers(WriteEvents(addr, data)) == [BusWrite(WriteFrame(addr, data))]
    ensures |WriteFrame(addr, data)| == 4
    ensures SleepsAt(start, WriteEvents(addr, data)) ==
            [(1, false), (1, false), (1, true), (10000, true), (1, false)]
  {
    var pre, body := [Sleep(1)], [BusWrite(WriteFrame(addr, data)), Sleep(10000)];
    CollectSingle(Sleep(1), EdgeOf);
    CollectSingle(Sleep(1), TransferOf);
    CollectPair(BusWrite(WriteFrame(addr, data)), Sleep(10000), EdgeOf);
    CollectPair(BusWrite(WriteFrame(addr, data)), Sleep(10000), TransferOf);
    BracketIsTransaction(pre, body, []);
    BracketCollect(pre, body, [], TransferOf);
    BracketSleeps(start, pre, body, []);
    SleepsAtSingle(false, Sleep(1));
    SleepsAtPair(true, BusWrite(WriteFrame(addr, data)), Sleep(10000));
    assert SleepsAt(false, []) == [];
  }

  /** The command and the response of a read: two transfers, no edge, no pause, no print. */
  lemma TransferPair(f: seq<bv8>, g: seq<bv8>)
    ensures var pair := [BusWrite(f), BusRead(g)];
      CsEdges(pair) == [] && Transfers(pair) == pair && Echoes(pair) == [] &&
      SleepsAt(true, pair) == [] && LevelAfter(true, pair)
  {
    var pair := [BusWrite(f), BusRead(g)];
    CollectPair(pair[0], pair[1], EdgeOf);
    CollectPair(pair[0], pair[1], TransferOf);
    CollectPair(pair[0], pair[1], EchoOf);
    SleepsAtPair(true, pair[0], pair[1]);
    assert pair[..1] == [pair[0]] && pair[..1][..0] == [];
  }

  /** The debug print of a read: an echo and nothing else. */
  lemma EchoOnly(start: bool, hi: bv8, lo: bv8)
    ensures var e := [Echo(hi, lo)];
      CsEdges(e) == [] && Transfers(e) == [] && Echoes(e) == e && SleepsAt(start, e) == []
  {
    SleepsAtSingle(start, Echo(hi, lo));
    CollectSingle(Echo(hi, lo), EdgeOf);
    CollectSingle(Echo(hi, lo), TransferOf);
    CollectSingle(Echo(hi, lo), EchoOf);
  }

  /** The selected part of a read: the command, the response, and maybe the echo. */
  lemma ReadBody(f: seq<bv8>, r: Reply, echo: bool)
    ensures var body := [BusWrite(f), BusRead([r.hi, r.lo])] + (if echo then [Echo(r.hi, r.lo)] else []);
      CsEdges(body) == [] &&
      Transfers(body) == [BusWrite(f), BusRead([r.hi, r.lo])] &&
      Echoes(body) == (if echo then [Echo(r.hi, r.lo)] else []) &&
      SleepsAt(true, body) == []
  {
    var pair := [BusWrite(f), BusRead([r.hi, r.lo])];
    var tail: seq<Event> := if echo then [Echo(r.hi, r.lo)] else [];
    TransferPair(f, [r.hi, r.lo]);
    CollectAppend(pair, tail, EdgeOf);
    CollectAppend(pair, tail, TransferOf);
    CollectAppend(pair, tail, EchoOf);
    SleepsAtAppend(true, pair, tail);
    if echo {
      EchoOnly(LevelAfter(true, pair), r.hi, r.lo);
    } else {
      assert tail == [];
    }
  }

  /**
   * READ: one 2-byte command frame, then one 2-byte read, both with CS
   * high; the response bytes are printed exactly when `echo` holds.
   */
  lemma ReadSequence(start: bool, addr: bv16, r: Reply, echo: bool)
    ensures Transaction(ReadEvents(addr, r, echo))
    ensures Transfers(ReadEvents(addr, r, echo)) == [BusWrite(ReadFrame(addr)), BusRead([r.hi, r.lo])]
    ensures |ReadFrame(addr)| == 2
    ensures Echoes(ReadEvents(addr, r, echo)) == if echo then [Echo(r.hi, r.lo)] else []
    ensures SleepsAt(start, ReadEvents(addr, r, echo)) == [(1, false), (1, true), (1, false)]
  {
    var body := [BusWrite(ReadFrame(addr)), BusRead([r.hi, r.lo])] + (if echo then [Echo(r.hi, r.lo)] else []);
    ReadBody(ReadFrame(addr), r, echo);
    BracketIsTransaction([], body, []);
    BracketCollect([], body, [], TransferOf);
    BracketCollect([], body, [], EchoOf);
    BracketSleeps(start, [], body, []);
  }

  /**
   * The read's events in the order the driver produces them: `t` is the trace
   * after the response is read, `u` after the optional echo.
   */
  lemma ReadSteps(h: seq<Event>, addr: bv16, r: Reply, echo: bool, t: seq<Event>, u: seq<Event>)
    requires t == h + Deselect() + Select() + [BusWrite(ReadFrame(addr))] + [BusRead([r.hi, r.lo])]
    requires u == if echo then t + [Echo(r.hi, r.lo)] else t
    ensures u + Deselect() == h + ReadEvents(addr, r, echo)
  {
    var w, rd := BusWrite(ReadFrame(addr)), BusRead([r.hi, r.lo]);
    var tail: seq<Event> := if echo then [Echo(r.hi, r.lo)] else [];
    var body := [w, rd] + tail;
    assert u == h + Deselect() + [] + Select() + body;
    BracketByCalls(h, [], body, [], u);
  }
}
