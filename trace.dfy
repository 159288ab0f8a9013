/**
 * The observable behaviour of the driver, as a trace of events.
 *
 * Every call the driver makes into the Pico SDK (driving the chip-select
 * pin, sleeping, clocking bytes out or in) and the console lines it prints
 * about the transfer become one event each. The functions here project a
 * trace onto the aspect a property is about: the CS level, the CS edges,
 * the bus transfers, the pauses and the console output.
 */
module Trace {

  datatype Event =
    | CsLow                       // gpio_put(cs_pin, 0)
    | CsHigh                      // gpio_put(cs_pin, 1)
    | Sleep(us: nat)              // sleep_us(us), or sleep_ms(us / 1000)
    | BusWrite(bytes: seq<bv8>)   // spi_write_blocking(spi, bytes, |bytes|)
    | BusRead(bytes: seq<bv8>)    // spi_read_blocking, with the bytes it delivered
    | Echo(hi: bv8, lo: bv8)      // the debug print of the two response bytes of a read
    | RowBreak(addr: int)         // the row header of the dump table
    | Cell(word: bv16)            // one word of the dump table

  predicate IsTransfer(e: Event)
  {
    e.BusWrite? || e.BusRead?
  }

  /** The level of the CS line after `t`, when it was `start` before. */
  function LevelAfter(start: bool, t: seq<Event>): bool
  {
    if t == [] then start
    else if t[|t| - 1] == CsLow then false
    else if t[|t| - 1] == CsHigh then true
    else LevelAfter(start, t[..|t| - 1])
  }

  /** Every bus transfer of `t` happens while CS is high. */
  predicate SelectedTransfers(start: bool, t: seq<Event>)
  {
    t == [] ||
    (SelectedTransfers(start, t[..|t| - 1]) &&
     (IsTransfer(t[|t| - 1]) ==> LevelAfter(start, t[..|t| - 1])))
  }

  /** The pauses of `t`, each with the CS level it happens at. */
  function SleepsAt(start: bool, t: seq<Event>): seq<(nat, bool)>
  {
    if t == [] then []
    else
      var p := t[..|t| - 1];
      SleepsAt(start, p) + (if t[|t| - 1].Sleep? then [(t[|t| - 1].us, LevelAfter(start, p))] else [])
  }

  /** The part of the trace a projection keeps, event by event, in order. */
  function Collect<T>(t: seq<Event>, keep: Event -> seq<T>): seq<T>
  {
    if t == [] then [] else Collect(t[..|t| - 1], keep) + keep(t[|t| - 1])
  }

  function EdgeOf(e: Event): seq<bool>
  {
    if e == CsLow then [false] else if e == CsHigh then [true] else []
  }

  function TransferOf(e: Event): seq<Event>
  {
    if IsTransfer(e) then [e] else []
  }

  function EchoOf(e: Event): seq<Event>
  {
    if e.Echo? then [e] else []
  }

  function RowOf(e: Event): seq<int>
  {
    if e.RowBreak? then [e.addr] else []
  }

  function CellOf(e: Event): seq<bv16>
  {
    if e.Cell? then [e.word] else []
  }

  /** The levels CS is driven to, in order. */
  function CsEdges(t: seq<Event>): seq<bool>
  {
    Collect(t, EdgeOf)
  }

  /** The bus transfers, in order. */
  function Transfers(t: seq<Event>): seq<Event>
  {
    Collect(t, TransferOf)
  }

  /** The debug prints of response bytes. */
  function Echoes(t: seq<Event>): seq<Event>
  {
    Collect(t, EchoOf)
  }

  /** The addresses that start a row of the dump table. */
  function Rows(t: seq<Event>): seq<int>
  {
    Collect(t, RowOf)
  }

  /** The words printed in the dump table. */
  function Cells(t: seq<Event>): seq<bv16>
  {
    Collect(t, CellOf)
  }

  /*
   * How each projection distributes over concatenation.
   */

  lemma PrefixOfAppend(a: seq<Event>, b: seq<Event>)
    requires b != []
    ensures (a + b)[..|a + b| - 1] == a + b[..|b| - 1]
    ensures (a + b)[|a + b| - 1] == b[|b| - 1]
  {
  }

  /** Regrouping appended pieces. */
  lemma SnocFour(h: seq<Event>, a: seq<Event>, b: seq<Event>, c: seq<Event>, d: seq<Event>)
    ensures h + a + b + c + d == h + (a + (b + (c + d)))
  {
  }

  lemma {:induction false} CollectAppend<T>(a: seq<Event>, b: seq<Event>, keep: Event -> seq<T>)
    ensures Collect(a + b, keep) == Collect(a, keep) + Collect(b, keep)
  {
    if b == [] {
      assert a + b == a;
    } else {
      PrefixOfAppend(a, b);
      CollectAppend(a, b[..|b| - 1], keep);
    }
  }

  lemma {:induction false} LevelAfterAppend(start: bool, a: seq<Event>, b: seq<Event>)
    ensures LevelAfter(start, a + b) == LevelAfter(LevelAfter(start, a), b)
  {
    if b == [] {
      assert a + b == a;
    } else {
      PrefixOfAppend(a, b);
      LevelAfterAppend(start, a, b[..|b| - 1]);
    }
  }

  lemma {:induction false} SelectedTransfersAppend(start: bool, a: seq<Event>, b: seq<Event>)
    ensures SelectedTransfers(start, a + b) <==>
            SelectedTransfers(start, a) && SelectedTransfers(LevelAfter(start, a), b)
  {
    if b == [] {
      assert a + b == a;
    } else {
      PrefixOfAppend(a, b);
      SelectedTransfersAppend(start, a, b[..|b| - 1]);
      LevelAfterAppend(start, a, b[..|b| - 1]);
    }
  }

  /** One more event moves the CS level only if it is an edge, and is a transfer with CS high or not a transfer. */
  lemma StepOne(start: bool, h: seq<Event>, e: Event)
    ensures LevelAfter(start, h + [e]) == if e == CsLow then false else if e == CsHigh then true else LevelAfter(start, h)
    ensures SelectedTransfers(start, h + [e]) <==> SelectedTransfers(start, h) && (IsTransfer(e) ==> LevelAfter(start, h))
  {
    assert (h + [e])[..|h + [e]| - 1] == h;
  }

  lemma {:induction false} SleepsAtAppend(start: bool, a: seq<Event>, b: seq<Event>)
    ensures SleepsAt(start, a + b) == SleepsAt(start, a) + SleepsAt(LevelAfter(start, a), b)
  {
    if b == [] {
      assert a + b == a;
    } else {
      PrefixOfAppend(a, b);
      SleepsAtAppend(start, a, b[..|b| - 1]);
      LevelAfterAppend(start, a, b[..|b| - 1]);
    }
  }

  /** The pauses of a one-event trace. */
  lemma SleepsAtSingle(start: bool, e: Event)
    ensures SleepsAt(start, [e]) == if e.Sleep? then [(e.us, start)] else []
  {
    assert [e][..0] == [];
  }

  /** The pauses of a two-event trace whose first event is no CS edge. */
  lemma SleepsAtPair(start: bool, e1: Event, e2: Event)
    requires e1 != CsLow && e1 != CsHigh
    ensures SleepsAt(start, [e1, e2]) ==
            (if e1.Sleep? then [(e1.us, start)] else []) + (if e2.Sleep? then [(e2.us, start)] else [])
  {
    assert [e1, e2][..1] == [e1];
    SleepsAtSingle(start, e1);
    assert [e1][..0] == [];
    assert LevelAfter(start, [e1]) == start;
  }

  /** A projection of a two-event trace. */
  lemma CollectPair<T>(e1: Event, e2: Event, keep: Event -> seq<T>)
    ensures Collect([e1, e2], keep) == keep(e1) + keep(e2)
  {
    assert [e1, e2][..1] == [e1];
    assert [e1][..0] == [];
    assert Collect([e1], keep) == keep(e1);
  }

  /*
   * Stretches without CS edges or without transfers.
   */

  /** Without a CS edge the level stays where it was. */
  lemma {:induction false} NoEdgesKeepLevel(start: bool, t: seq<Event>)
    requires CsEdges(t) == []
    ensures LevelAfter(start, t) == start
  {
    if t != [] {
      CollectAppend(t[..|t| - 1], [t[|t| - 1]], EdgeOf);
      assert t[..|t| - 1] + [t[|t| - 1]] == t;
      NoEdgesKeepLevel(start, t[..|t| - 1]);
    }
  }

  /** Transfers with no CS edge among them all happen at the level they start at. */
  lemma {:induction false} NoEdgesSelected(t: seq<Event>)
    requires CsEdges(t) == []
    ensures SelectedTransfers(true, t)
  {
    if t != [] {
      CollectAppend(t[..|t| - 1], [t[|t| - 1]], EdgeOf);
      assert t[..|t| - 1] + [t[|t| - 1]] == t;
      NoEdgesSelected(t[..|t| - 1]);
      NoEdgesKeepLevel(true, t[..|t| - 1]);
    }
  }

  /** A stretch without transfers breaks no rule about them. */
  lemma {:induction false} NoTransfersSelected(start: bool, t: seq<Event>)
    requires Transfers(t) == []
    ensures SelectedTransfers(start, t)
  {
    if t != [] {
      CollectAppend(t[..|t| - 1], [t[|t| - 1]], TransferOf);
      assert t[..|t| - 1] + [t[|t| - 1]] == t;
      NoTransfersSelected(start, t[..|t| - 1]);
    }
  }

  /*
   * Transactions.
   */

  /** cs_deselect: drive CS low, then wait 1 us. */
  function Deselect(): (t: seq<Event>)
    ensures CsEdges(t) == [false] && Transfers(t) == []
  {
    CollectPair(CsLow, Sleep(1), EdgeOf);
    CollectPair(CsLow, Sleep(1), TransferOf);
    [CsLow, Sleep(1)]
  }

  /** cs_select: drive CS high, then wait 1 us. */
  function Select(): (t: seq<Event>)
    ensures CsEdges(t) == [true] && Transfers(t) == []
  {
    CollectPair(CsHigh, Sleep(1), EdgeOf);
    CollectPair(CsHigh, Sleep(1), TransferOf);
    [CsHigh, Sleep(1)]
  }

  /**
   * The shape every operation has: deselect, an optional pause, select, the
   * selected part, deselect, and an optional tail after CS is released.
   */
  function Bracket(pre: seq<Event>, body: seq<Event>, post: seq<Event>): seq<Event>
  {
    Deselect() + pre + Select() + body + Deselect() + post
  }

  /** A history extended call by call with deselect, pre, select, body, deselect, post is extended by the bracket. */
  lemma BracketByCalls(h: seq<Event>, pre: seq<Event>, body: seq<Event>, post: seq<Event>, t: seq<Event>)
    requires t == h + Deselect() + pre + Select() + body
    ensures t + Deselect() + post == h + Bracket(pre, body, post)
  {
  }

  /**
   * A well-formed transaction: it opens with a deselect, the first two CS
   * edges are low then high, the last one is low, and whatever the level
   * before, every transfer happens with CS high and CS is low at the end.
   */
  predicate Transaction(t: seq<Event>)
  {
    |t| > 0 && t[0] == CsLow &&
    var edges := CsEdges(t);
    |edges| >= 2 && edges[0] == false && edges[1] == true && edges[|edges| - 1] == false &&
    forall start: bool :: SelectedTransfers(start, t) && !LevelAfter(start, t)
  }

  lemma BracketEdges(pre: seq<Event>, body: seq<Event>, post: seq<Event>)
    requires CsEdges(pre) == [] && CsEdges(body) == [] && CsEdges(post) == []
    ensures CsEdges(Bracket(pre, body, post)) == [false, true, false]
  {
    var d, s := Deselect(), Select();
    CollectAppend(d, pre, EdgeOf);
    CollectAppend(d + pre, s, EdgeOf);
    CollectAppend(d + pre + s, body, EdgeOf);
    CollectAppend(d + pre + s + body, d, EdgeOf);
    CollectAppend(d + pre + s + body + d, post, EdgeOf);
  }

  /** A projection of a one-event trace. */
  lemma CollectSingle<T>(e: Event, keep: Event -> seq<T>)
    ensures Collect([e], keep) == keep(e)
  {
    assert [e][..0] == [];
  }

  /**
   * A projection that ignores the CS edges and the 1 us pauses of select and
   * deselect sees of a bracket only its three parts.
   */
  lemma BracketCollect<T>(pre: seq<Event>, body: seq<Event>, post: seq<Event>, keep: Event -> seq<T>)
    requires keep(CsLow) == [] && keep(CsHigh) == [] && keep(Sleep(1)) == []
    ensures Collect(Bracket(pre, body, post), keep) ==
            Collect(pre, keep) + Collect(body, keep) + Collect(post, keep)
  {
    var d, s := Deselect(), Select();
    CollectPair(CsLow, Sleep(1), keep);
    CollectPair(CsHigh, Sleep(1), keep);
    assert Collect(d, keep) == [] && Collect(s, keep) == [];
    var t1 := d + pre;
    CollectAppend(d, pre, keep);
    assert Collect(t1, keep) == Collect(pre, keep);
    var t2 := t1 + s;
    CollectAppend(t1, s, keep);
    assert Collect(t2, keep) == Collect(pre, keep);
    var t3 := t2 + body;
    CollectAppend(t2, body, keep);
    assert Collect(t3, keep) == Collect(pre, keep) + Collect(body, keep);
    var t4 := t3 + d;
    CollectAppend(t3, d, keep);
    assert Collect(t4, keep) == Collect(t3, keep);
    CollectAppend(t4, post, keep);
  }

  /** The level after each piece of a bracket, whatever it was before. */
  lemma BracketLevels(start: bool, pre: seq<Event>, body: seq<Event>, post: seq<Event>)
    requires CsEdges(pre) == [] && CsEdges(body) == [] && CsEdges(post) == []
    ensures LevelAfter(start, Deselect()) == false
    ensures LevelAfter(start, Deselect() + pre) == false
    ensures LevelAfter(start, Deselect() + pre + Select()) == true
    ensures LevelAfter(start, Deselect() + pre + Select() + body) == true
    ensures LevelAfter(start, Deselect() + pre + Select() + body + Deselect()) == false
    ensures LevelAfter(start, Bracket(pre, body, post)) == false
  {
    var d, s := Deselect(), Select();
    LevelAfterAppend(start, d, pre);
    NoEdgesKeepLevel(false, pre);
    LevelAfterAppend(start, d + pre, s);
    LevelAfterAppend(start, d + pre + s, body);
    NoEdgesKeepLevel(true, body);
    LevelAfterAppend(start, d + pre + s + body, d);
    LevelAfterAppend(start, d + pre + s + body + d, post);
    NoEdgesKeepLevel(false, post);
  }

  /**
   * Whatever the parts, provided only the selected part transfers and only
   * the bracket itself moves CS, the result is a transaction.
   */
  lemma BracketIsTransaction(pre: seq<Event>, body: seq<Event>, post: seq<Event>)
    requires CsEdges(pre) == [] && CsEdges(body) == [] && CsEdges(post) == []
    requires Transfers(pre) == [] && Transfers(post) == []
    ensures Transaction(Bracket(pre, body, post))
  {
    var d, s := Deselect(), Select();
    var t := Bracket(pre, body, post);
    BracketEdges(pre, body, post);
    forall start: bool
      ensures SelectedTransfers(start, t) && !LevelAfter(start, t)
    {
      BracketLevels(start, pre, body, post);
      SelectedTransfersAppend(start, d, pre);
      NoTransfersSelected(start, d);
      NoTransfersSelected(false, pre);
      SelectedTransfersAppend(start, d + pre, s);
      NoTransfersSelected(false, s);
      SelectedTransfersAppend(start, d + pre + s, body);
      NoEdgesSelected(body);
      SelectedTransfersAppend(start, d + pre + s + body, d);
      NoTransfersSelected(true, d);
      SelectedTransfersAppend(start, d + pre + s + body + d, post);
      NoTransfersSelected(false, post);
    }
  }

  lemma SelectSleeps(start: bool)
    ensures SleepsAt(start, Select()) == [(1, true)]
    ensures SleepsAt(start, Deselect()) == [(1, false)]
  {
    assert Select()[..1] == [CsHigh];
    assert Deselect()[..1] == [CsLow];
  }

  /** The pauses of a bracket, each with the CS level it happens at. */
  lemma BracketSleeps(start: bool, pre: seq<Event>, body: seq<Event>, post: seq<Event>)
    requires CsEdges(pre) == [] && CsEdges(body) == [] && CsEdges(post) == []
    ensures SleepsAt(start, Bracket(pre, body, post)) ==
            [(1, false)] + SleepsAt(false, pre) + [(1, true)] + SleepsAt(true, body) +
            [(1, false)] + SleepsAt(false, post)
  {
    var d, s := Deselect(), Select();
    BracketLevels(start, pre, body, post);
    SelectSleeps(start);
    SelectSleeps(false);
    SelectSleeps(true);
    SleepsAtAppend(start, d, pre);
    SleepsAtAppend(start, d + pre, s);
    SleepsAtAppend(start, d + pre + s, body);
    SleepsAtAppend(start, d + pre + s + body, d);
    SleepsAtAppend(start, d + pre + s + body + d, post);
  }

  /**
   * A history in which every transfer happened with CS high still has that
   * property after a transaction, and CS is low afterwards.
   */
  lemma TransactionExtends(start: bool, h: seq<Event>, t: seq<Event>)
    requires SelectedTransfers(start, h)
    requires Transaction(t)
    ensures SelectedTransfers(start, h + t)
    ensures !LevelAfter(start, h + t)
  {
    SelectedTransfersAppend(start, h, t);
    LevelAfterAppend(start, h, t);
    assert SelectedTransfers(LevelAfter(start, h), t) && !LevelAfter(LevelAfter(start, h), t);
  }
}
