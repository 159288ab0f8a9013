/**
 * eeprom_dump: one read per address 0 .. 0x3FF, in ascending order, with
 * dump_flag set so that no read prints its response bytes, a row header
 * before every sixteenth address and each decoded word printed after its
 * read.
 *
 * The loop counter is a `uint16_t` used only arithmetically (compared with
 * 0x3FF, incremented, tested modulo 16), so it is modelled by `U16`, the
 * integers that fit in 16 bits; Dafny checks that every value given to a
 * `U16` fits, so the increment is proved never to wrap. The counter reaches
 * the bit framer as the `bv16` with the same value.
 */
module Dump {
  import opened Framer
  import opened Trace
  import opened Transactions

  newtype U16 = x: int | 0 <= x < 0x10000

  /** An address below 0x400 is its own value modulo 1024, also as a bit pattern. */
  lemma AddressInRange(i: nat)
    requires i < 0x400
    ensures (i as bv16) < 0x400
  {
  }

  lemma ModOfSmall(a: bv16)
    requires a < 0x400
    ensures a % 0x400 == a
  {
  }

  /** The read frame of iteration `i` carries address `i`. */
  lemma DumpAddress(i: nat)
    requires i < 0x400
    ensures FrameOpcode(ReadFrame(i as bv16)) == CmdRead
    ensures FrameAddress(ReadFrame(i as bv16)) == i as bv16
  {
    AddressInRange(i);
    ModOfSmall(i as bv16);
    ReadFrameFields(i as bv16);
  }

  /*
   * The events of the dump loop.
   */

  /** What one iteration prints after its read: maybe a row header, then the word. */
  function Show(addr: nat, w: bv16): seq<Event>
    requires addr < 0x10000
  {
    (if addr % 16 == 0 then [RowBreak(addr)] else []) + [Cell(w)]
  }

  /** One iteration: read `addr` with dump_flag set, then print. */
  function DumpStep(addr: nat, r: Reply): seq<Event>
    requires addr < 0x10000
  {
    ReadEvents(addr as bv16, r, false) + Show(addr, DecodeWord(r.hi, r.lo))
  }

  /** The events of the first |rs| iterations, when the chip answers `rs` in turn. */
  function DumpEvents(rs: seq<Reply>): seq<Event>
    requires |rs| <= 0x400
  {
    if rs == [] then [] else DumpEvents(rs[..|rs| - 1]) + DumpStep(|rs| - 1, rs[|rs| - 1])
  }

  /** One more iteration at the end of the dump. */
  lemma DumpEventsSnoc(rs: seq<Reply>, r: Reply)
    requires |rs| < 0x400
    ensures DumpEvents(rs + [r]) == DumpEvents(rs) + DumpStep(|rs|, r)
  {
    assert (rs + [r])[..|rs|] == rs;
  }

  /**
   * The loop of the driver's dump appends exactly one iteration's events per
   * turn: `t` is the trace after the read, `u` after the optional row header.
   */
  lemma DumpSteps(h: seq<Event>, rs: seq<Reply>, r: Reply, addr: nat, echo: bool, t: seq<Event>, u: seq<Event>, w: bv16)
    requires addr == |rs| < 0x400 && !echo && w == DecodeWord(r.hi, r.lo)
    requires t == h + DumpEvents(rs) + ReadEvents(addr as bv16, r, echo)
    requires u == if addr % 16 == 0 then t + [RowBreak(addr)] else t
    ensures u + [Cell(w)] == h + DumpEvents(rs + [r])
  {
    var row: seq<Event> := if addr % 16 == 0 then [RowBreak(addr)] else [];
    assert u == t + row;
    DumpEventsSnoc(rs, r);
    SnocFour(h, DumpEvents(rs), ReadEvents(addr as bv16, r, echo), row, [Cell(w)]);
    assert Show(addr, w) == row + [Cell(w)];
  }

  /** The printing part of an iteration neither moves CS nor transfers. */
  lemma ShowProjections(addr: nat, w: bv16)
    requires addr < 0x10000
    ensures CsEdges(Show(addr, w)) == [] && Transfers(Show(addr, w)) == [] && Echoes(Show(addr, w)) == []
    ensures Rows(Show(addr, w)) == if addr % 16 == 0 then [addr] else []
    ensures Cells(Show(addr, w)) == [w]
  {
    var row: seq<Event> := if addr % 16 == 0 then [RowBreak(addr)] else [];
    var cell := [Cell(w)];
    CollectAppend(row, cell, EdgeOf);
    CollectAppend(row, cell, TransferOf);
    CollectAppend(row, cell, EchoOf);
    CollectAppend(row, cell, RowOf);
    CollectAppend(row, cell, CellOf);
    CollectSingle(Cell(w), EdgeOf);
    CollectSingle(Cell(w), TransferOf);
    CollectSingle(Cell(w), EchoOf);
    CollectSingle(Cell(w), RowOf);
    CollectSingle(Cell(w), CellOf);
    if addr % 16 == 0 {
      CollectSingle(RowBreak(addr), EdgeOf);
      CollectSingle(RowBreak(addr), TransferOf);
      CollectSingle(RowBreak(addr), EchoOf);
      CollectSingle(RowBreak(addr), RowOf);
      CollectSingle(RowBreak(addr), CellOf);
    }
  }

  /** A read with dump_flag set prints nothing. */
  lemma QuietRead<T>(addr: bv16, r: Reply, keep: Event -> seq<T>)
    requires keep(CsLow) == [] && keep(CsHigh) == [] && keep(Sleep(1)) == []
    requires keep(BusWrite(ReadFrame(addr))) == [] && keep(BusRead([r.hi, r.lo])) == []
    ensures Collect(ReadEvents(addr, r, false), keep) == []
  {
    var body := [BusWrite(ReadFrame(addr)), BusRead([r.hi, r.lo])];
    assert body + [] == body;
    BracketCollect([], body, [], keep);
    CollectPair(body[0], body[1], keep);
  }

  lemma DumpStepTransfers(addr: nat, r: Reply)
    requires addr < 0x10000
    ensures Transfers(DumpStep(addr, r)) == [BusWrite(ReadFrame(addr as bv16)), BusRead([r.hi, r.lo])]
  {
    ReadSequence(false, addr as bv16, r, false);
    ShowProjections(addr, DecodeWord(r.hi, r.lo));
    CollectAppend(ReadEvents(addr as bv16, r, false), Show(addr, DecodeWord(r.hi, r.lo)), TransferOf);
  }

  lemma DumpStepEchoes(addr: nat, r: Reply)
    requires addr < 0x10000
    ensures Echoes(DumpStep(addr, r)) == []
  {
    ReadSequence(false, addr as bv16, r, false);
    ShowProjections(addr, DecodeWord(r.hi, r.lo));
    CollectAppend(ReadEvents(addr as bv16, r, false), Show(addr, DecodeWord(r.hi, r.lo)), EchoOf);
  }

  lemma DumpStepRows(addr: nat, r: Reply)
    requires addr < 0x10000
    ensures Rows(DumpStep(addr, r)) == if addr % 16 == 0 then [addr] else []
  {
    QuietRead(addr as bv16, r, RowOf);
    ShowProjections(addr, DecodeWord(r.hi, r.lo));
    CollectAppend(ReadEvents(addr as bv16, r, false), Show(addr, DecodeWord(r.hi, r.lo)), RowOf);
  }

  lemma DumpStepCells(addr: nat, r: Reply)
    requires addr < 0x10000
    ensures Cells(DumpStep(addr, r)) == [DecodeWord(r.hi, r.lo)]
  {
    QuietRead(addr as bv16, r, CellOf);
    ShowProjections(addr, DecodeWord(r.hi, r.lo));
    CollectAppend(ReadEvents(addr as bv16, r, false), Show(addr, DecodeWord(r.hi, r.lo)), CellOf);
  }

  /** Every transfer of an iteration happens with CS high, and CS is low after it. */
  lemma DumpStepSelected(start: bool, addr: nat, r: Reply)
    requires addr < 0x10000
    ensures SelectedTransfers(start, DumpStep(addr, r))
    ensures !LevelAfter(start, DumpStep(addr, r))
  {
    var rd, show := ReadEvents(addr as bv16, r, false), Show(addr, DecodeWord(r.hi, r.lo));
    ReadSequence(start, addr as bv16, r, false);
    ShowProjections(addr, DecodeWord(r.hi, r.lo));
    SelectedTransfersAppend(start, rd, show);
    LevelAfterAppend(start, rd, show);
    NoTransfersSelected(false, show);
    NoEdgesKeepLevel(false, show);
  }

  /**
   * `t` is the bus traffic of reading addresses 0 .. |rs|-1 in turn, the chip
   * answering `rs`: a read command and its 2-byte response per address.
   */
  predicate ReadTransfers(t: seq<Event>, rs: seq<Reply>)
    requires |rs| <= 0x400
  {
    |t| == 2 * |rs| &&
    forall i :: 0 <= i < |rs| ==>
      t[2 * i] == BusWrite(ReadFrame(i as bv16)) && t[2 * i + 1] == BusRead([rs[i].hi, rs[i].lo])
  }

  /** One more address at the end extends the traffic by its command and response. */
  lemma ReadTransfersExtend(t: seq<Event>, rs: seq<Reply>, r: Reply)
    requires |rs| < 0x400 && ReadTransfers(t, rs)
    ensures ReadTransfers(t + [BusWrite(ReadFrame(|rs| as bv16)), BusRead([r.hi, r.lo])], rs + [r])
  {
  }

  /**
   * The dump's bus traffic is, for the i-th iteration, the read command for
   * address i followed by the 2-byte response, and nothing else.
   */
  lemma {:induction false} DumpTransfers(rs: seq<Reply>)
    requires |rs| <= 0x400
    ensures ReadTransfers(Transfers(DumpEvents(rs)), rs)
  {
    if rs != [] {
      var p := rs[..|rs| - 1];
      var n := |p|;
      var r := rs[n];
      assert rs == p + [r];
      DumpTransfers(p);
      DumpEventsSnoc(p, r);
      CollectAppend(DumpEvents(p), DumpStep(n, r), TransferOf);
      DumpStepTransfers(n, r);
      ReadTransfersExtend(Transfers(DumpEvents(p)), p, r);
    }
  }

  /** With dump_flag set no read of the dump prints its response bytes. */
  lemma {:induction false} DumpQuiet(rs: seq<Reply>)
    requires |rs| <= 0x400
    ensures Echoes(DumpEvents(rs)) == []
  {
    if rs != [] {
      var p, r := rs[..|rs| - 1], rs[|rs| - 1];
      assert rs == p + [r];
      DumpQuiet(p);
      DumpEventsSnoc(p, r);
      CollectAppend(DumpEvents(p), DumpStep(|p|, r), EchoOf);
      DumpStepEchoes(|p|, r);
    }
  }

  /** Every transfer of the dump happens with CS high, and CS is low after every iteration. */
  lemma {:induction false} DumpSelected(start: bool, rs: seq<Reply>)
    requires |rs| <= 0x400
    ensures SelectedTransfers(start, DumpEvents(rs))
    ensures LevelAfter(start, DumpEvents(rs)) == (start && rs == [])
  {
    if rs != [] {
      var p, r := rs[..|rs| - 1], rs[|rs| - 1];
      assert rs == p + [r];
      var step := DumpStep(|p|, r);
      DumpEventsSnoc(p, r);
      DumpSelected(start, p);
      SelectedTransfersAppend(start, DumpEvents(p), step);
      LevelAfterAppend(start, DumpEvents(p), step);
      DumpStepSelected(LevelAfter(start, DumpEvents(p)), |p|, r);
    }
  }

  /** `t` is the decoded word of each response of `rs`, in order. */
  predicate WordsOf(t: seq<bv16>, rs: seq<Reply>)
  {
    |t| == |rs| && forall i :: 0 <= i < |rs| ==> t[i] == DecodeWord(rs[i].hi, rs[i].lo)
  }

  /** One more response adds its word at the end. */
  lemma WordsOfExtend(t: seq<bv16>, rs: seq<Reply>, r: Reply)
    requires WordsOf(t, rs)
    ensures WordsOf(t + [DecodeWord(r.hi, r.lo)], rs + [r])
  {
  }

  /** The table prints the decoded word of each response, in order. */
  lemma {:induction false} DumpCells(rs: seq<Reply>)
    requires |rs| <= 0x400
    ensures WordsOf(Cells(DumpEvents(rs)), rs)
  {
    if rs != [] {
      var p, r := rs[..|rs| - 1], rs[|rs| - 1];
      assert rs == p + [r];
      DumpCells(p);
      DumpEventsSnoc(p, r);
      CollectAppend(DumpEvents(p), DumpStep(|p|, r), CellOf);
      DumpStepCells(|p|, r);
      WordsOfExtend(Cells(DumpEvents(p)), p, r);
    }
  }

  /** `t` is the row headers printed for addresses 0 .. n-1: 0, 16, 32, ... below n. */
  predicate RowHeaders(t: seq<int>, n: nat)
  {
    |t| == (n + 15) / 16 && forall k :: 0 <= k < |t| ==> t[k] == 16 * k
  }

  /** Address n adds a header exactly when it starts a row. */
  lemma RowHeadersExtend(t: seq<int>, n: nat)
    requires RowHeaders(t, n)
    ensures RowHeaders(t + (if n % 16 == 0 then [n] else []), n + 1)
  {
    if n % 16 == 0 {
      assert (n + 16) / 16 == (n + 15) / 16 + 1 && 16 * ((n + 15) / 16) == n;
    } else {
      assert (n + 16) / 16 == (n + 15) / 16;
    }
  }

  /** A row header every sixteen addresses, at 0, 16, 32, ... */
  lemma {:induction false} DumpRows(rs: seq<Reply>)
    requires |rs| <= 0x400
    ensures RowHeaders(Rows(DumpEvents(rs)), |rs|)
  {
    if rs != [] {
      var p, r := rs[..|rs| - 1], rs[|rs| - 1];
      var n := |p|;
      assert rs == p + [r];
      DumpRows(p);
      DumpEventsSnoc(p, r);
      CollectAppend(DumpEvents(p), DumpStep(n, r), RowOf);
      DumpStepRows(n, r);
      RowHeadersExtend(Rows(DumpEvents(p)), n);
    }
  }

  /** A full dump reads 1024 words and prints them in 64 rows. */
  lemma FullDump(rs: seq<Reply>)
    requires |rs| == 0x400
    ensures |Transfers(DumpEvents(rs))| == 2048
    ensures |Rows(DumpEvents(rs))| == 64
    ensures |Cells(DumpEvents(rs))| == 1024
  {
    DumpTransfers(rs);
    DumpRows(rs);
    DumpCells(rs);
  }
}
