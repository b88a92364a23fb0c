/** Runs of the cadence table (MxGpioDrv.c): what plays, how often, and in which order. */
module CadenceRuns {
  import opened Basics
  import opened CadenceState

  datatype Event =
    | SetLeds(resp: nat)
    | SetBuzzer(resp: nat)
    | ClearCad(led: nat, buz: nat)
    | SyncTimer
    | CadTimer

  function Effect(s: State, e: Event): State
    requires Shape(s.rows) && s.current < ROWS
  {
    match e
    case SetLeds(resp) => if resp < RESP_MAX then Fill(Fill(s, resp, RED_LED), resp, GREEN_LED) else s
    case SetBuzzer(resp) => if resp < RESP_MAX then Fill(s, resp, BUZZER) else s
    case ClearCad(led, buz) => Clear(s, led, buz)
    case SyncTimer => s.(filling := false)
    case CadTimer => Tick(s)
  }

  function Drives(s: State, e: Event): seq<Drive>
    requires Shape(s.rows) && s.current < ROWS
  {
    if e.CadTimer? then TickDrives(s) else []
  }

  lemma UpdateIsValid(s: State)
    requires TableOk(s.rows) && s.current < ROWS
    ensures Valid(Update(s))
  {
  }

  lemma FillIsValid(s: State, resp: nat, pin: nat)
    requires TableOk(s.rows) && s.current < ROWS && resp < RESP_MAX && pin < PINS
    ensures Valid(Fill(s, resp, pin))
  {
    ResponsesAreSound(resp, pin);
    var r, c := PRIORITIES[resp], RESPONSES[resp][pin];
    hide FirstBusy;
    UpdateIsValid(s.(rows := s.rows[r := s.rows[r][pin := Cell(c.cad, c.cycles, 0, c.bits, resp)]], filling := true));
  }

  lemma ClearedRowsAreOk(row: seq<Cell>, resp: nat)
    requires RowOk(row)
    ensures RowOk(ClearLeds(row)) && RowOk(ClearLedsOf(row, resp)) && RowOk(DropLeds(row)) && RowOk(ClearBuzzer(row))
  {
  }

  lemma ClearIsValid(s: State, led: nat, buz: nat)
    requires TableOk(s.rows) && s.current < ROWS
    ensures Valid(Clear(s, led, buz))
  {
    var a := ClearLedPart(s.rows, s.current, led);
    var b := ClearBuzzerPart(a, s.current, buz);
    forall r | 0 <= r < ROWS
      ensures RowOk(a[r])
    {
      ClearedRowsAreOk(s.rows[r], led);
    }
    forall r | 0 <= r < ROWS
      ensures RowOk(b[r])
    {
      ClearedRowsAreOk(a[r], led);
    }
    UpdateIsValid(s.(rows := b, filling := true));
  }

  lemma AdvanceIsOk(c: Cell)
    requires CellOk(c)
    ensures CellOk(Advance(c)) && (Advance(c).cycles > 0 ==> c.cycles > 0)
  {
  }

  lemma TickIsValid(s: State)
    requires Valid(s)
    ensures Valid(Tick(s))
  {
    var before := s.rows[s.current];
    AdvanceIsOk(before[BUZZER]);
    AdvanceIsOk(before[RED_LED]);
    AdvanceIsOk(before[GREEN_LED]);
    hide Advance;
    var row := Settle(AdvanceRow(before), 0);
    assert RowOk(row) && (Busy(row) ==> Busy(before));
    hide Settle, AdvanceRow, FirstBusy;
    UpdateIsValid(s.(rows := s.rows[s.current := row]));
  }

  lemma EffectIsValid(s: State, e: Event)
    requires Valid(s)
    ensures Valid(Effect(s, e))
  {
    match e
    case SetLeds(resp) =>
      if resp < RESP_MAX {
        FillIsValid(s, resp, RED_LED);
        FillIsValid(Fill(s, resp, RED_LED), resp, GREEN_LED);
      }
    case SetBuzzer(resp) =>
      if resp < RESP_MAX {
        FillIsValid(s, resp, BUZZER);
      }
    case ClearCad(led, buz) => ClearIsValid(s, led, buz);
    case SyncTimer =>
    case CadTimer => TickIsValid(s);
  }

  /** One event. */
  function Step(s: State, e: Event): (t: State)
    requires Valid(s)
    ensures Valid(t)
  {
    EffectIsValid(s, e);
    Effect(s, e)
  }

  function Run(s: State, es: seq<Event>): (t: State)
    requires Valid(s)
    ensures Valid(t)
    decreases |es|
  {
    if es == [] then s else Run(Step(s, es[0]), es[1..])
  }

  function Trace(s: State, es: seq<Event>): seq<Drive>
    requires Valid(s)
    decreases |es|
  {
    if es == [] then [] else Drives(s, es[0]) + Trace(Step(s, es[0]), es[1..])
  }

  /** Only the least busy row plays. */
  lemma OnlyLeastBusyRowPlays(s: State, e: Event, i: nat)
    requires Valid(s) && i < |Drives(s, e)|
    ensures var d := Drives(s, e)[i];
            && d.row == s.current && d.pin < PINS && Busy(s.rows[d.row])
            && (forall r :: 0 <= r < d.row ==> !Busy(s.rows[r]))
  {
  }

  // The bits that cell (r, pin) drove.
  function Driven(ds: seq<Drive>, r: nat, pin: nat): seq<bool> {
    if ds == [] then []
    else (if ds[0].row == r && ds[0].pin == pin then [ds[0].on] else []) + Driven(ds[1..], r, pin)
  }

  lemma {:induction false} DrivenConcat(a: seq<Drive>, b: seq<Drive>, r: nat, pin: nat)
    ensures Driven(a + b, r, pin) == Driven(a, r, pin) + Driven(b, r, pin)
  {
    if a == [] {
      assert a + b == b;
    } else {
      assert (a + b)[1..] == a[1..] + b;
      DrivenConcat(a[1..], b, r, pin);
    }
  }

  lemma RowDriven(r: nat, row: seq<Cell>, x: nat, pin: nat)
    requires |row| == PINS && pin < PINS
    ensures Driven(RowDrives(r, row), x, pin) == if x == r then Played(row[pin]) else []
  {
    var a, b := PinDrive(r, BUZZER, row[BUZZER]), PinDrive(r, RED_LED, row[RED_LED]);
    var c := PinDrive(r, GREEN_LED, row[GREEN_LED]);
    PinDriven(r, BUZZER, row[BUZZER], x, pin);
    PinDriven(r, RED_LED, row[RED_LED], x, pin);
    PinDriven(r, GREEN_LED, row[GREEN_LED], x, pin);
    hide Driven, PinDrive, Played;
    DrivenConcat(a, b, x, pin);
    DrivenConcat(a + b, c, x, pin);
  }

  lemma PinDriven(r: nat, p: nat, c: Cell, x: nat, pin: nat)
    ensures Driven(PinDrive(r, p, c), x, pin) == if x == r && p == pin then Played(c) else []
  {
  }

  // What a timer tick does to one cell: it plays if its row does.
  lemma TickCell(s: State, r: nat, pin: nat)
    requires Valid(s) && r < ROWS && pin < PINS
    ensures var c, d, out := s.rows[r][pin], Tick(s).rows[r][pin], Driven(TickDrives(s), r, pin);
            if s.filling || r != s.current then d == c && out == []
            else out == Played(c) && (d == Advance(c) || (Advance(c).cycles == 0 && d == Advance(c).(pos := 0)))
  {
    if !s.filling {
      RowDriven(s.current, s.rows[s.current], r, pin);
      hide Driven, RowDrives, FirstBusy, Advance, Played;
    }
  }

  function Pattern(c: Cell): (p: seq<bool>)
    ensures |p| == c.bits
  {
    seq(c.bits, i requires 0 <= i => Bit(c.cad, i))
  }

  function Repeat(p: seq<bool>, n: nat): seq<bool> {
    if n == 0 then [] else p + Repeat(p, n - 1)
  }

  /** The bits that a cell with finitely many cycles still has to drive. */
  function Pending(c: Cell): seq<bool>
    requires CellOk(c)
  {
    if c.cycles == 0 then [] else Pattern(c)[c.pos..] + Repeat(Pattern(c), c.cycles - 1)
  }

  // The four cases of one cell: silent, inside its bits, at their end with cycles left, at the end of the last cycle.
  lemma AdvanceCases(c: Cell)
    requires CellOk(c) && c.cycles < INFINITE_CYCLE
    ensures CellOk(Advance(c)) && Pattern(Advance(c)) == Pattern(c)
    ensures c.cycles == 0 ==> Advance(c) == c && Played(c) == []
    ensures c.cycles > 0 && c.pos < c.bits ==> Advance(c) == c.(pos := c.pos + 1) && Played(c) == [Bit(c.cad, c.pos)]
    ensures c.cycles > 1 && c.pos == c.bits ==>
              Advance(c) == c.(pos := 1, cycles := c.cycles - 1) && Played(c) == [Bit(c.cad, 0)]
    ensures c.cycles == 1 && c.pos == c.bits ==> Advance(c) == c.(pos := 0, cycles := 0) && Played(c) == []
  {
    hide Bit;
  }

  // A tick drives the first of them.
  lemma PlayFirst(c: Cell)
    requires CellOk(c) && c.cycles < INFINITE_CYCLE
    ensures CellOk(Advance(c)) && Played(c) + Pending(Advance(c)) == Pending(c)
  {
    AdvanceCases(c);
    hide Advance, Played, Pattern, Bit;
    if c.cycles > 0 && c.pos < c.bits {
      PlayInside(c);
    } else if c.cycles > 0 {
      PlayAtEnd(c);
    }
  }

  lemma SamePattern(c: Cell, d: Cell)
    requires c.cad == d.cad && c.bits == d.bits
    ensures Pattern(d) == Pattern(c)
  {
  }

  lemma PendingIs(c: Cell, p: seq<bool>)
    requires CellOk(c) && c.cycles > 0 && p == Pattern(c)
    ensures Pending(c) == p[c.pos..] + Repeat(p, c.cycles - 1)
  {
    hide Pattern, Repeat;
  }

  lemma RepeatNext(p: seq<bool>, n: nat)
    ensures [] + Repeat(p, n) == if n == 0 then [] else p + Repeat(p, n - 1)
  {
  }

  lemma PlayInside(c: Cell)
    requires CellOk(c) && 0 < c.cycles < INFINITE_CYCLE && c.pos < c.bits
    ensures [Bit(c.cad, c.pos)] + Pending(c.(pos := c.pos + 1)) == Pending(c)
  {
    hide Pattern, Bit, Repeat, Pending;
    var d, p := c.(pos := c.pos + 1), Pattern(c);
    SamePattern(c, d);
    PatternFrom(c, c.pos);
    PendingIs(c, p);
    PendingIs(d, p);
    Joined([Bit(c.cad, c.pos)], p[d.pos..], Repeat(p, c.cycles - 1));
  }

  lemma PlayAtEnd(c: Cell)
    requires CellOk(c) && 0 < c.cycles < INFINITE_CYCLE && c.pos == c.bits
    ensures c.cycles == 1 ==> Pending(c) == []
    ensures c.cycles > 1 ==> [Bit(c.cad, 0)] + Pending(c.(pos := 1, cycles := c.cycles - 1)) == Pending(c)
  {
    hide Pattern, Bit, Repeat, Pending;
    var p := Pattern(c);
    PendingIs(c, p);
    assert p[c.pos..] == [];
    RepeatNext(p, c.cycles - 1);
    if c.cycles > 1 {
      var d := c.(pos := 1, cycles := c.cycles - 1);
      SamePattern(c, d);
      PatternFrom(c, 0);
      PendingIs(d, p);
      Joined([Bit(c.cad, 0)], p[1..], Repeat(p, c.cycles - 2));
    }
  }

  lemma Joined<T>(a: seq<T>, b: seq<T>, c: seq<T>)
    ensures a + (b + c) == (a + b) + c
  {
  }

  lemma PatternFrom(c: Cell, i: nat)
    requires i < c.bits
    ensures Pattern(c)[i..] == [Bit(c.cad, i)] + Pattern(c)[i + 1..] && (i == 0 ==> Pattern(c)[i..] == Pattern(c))
  {
  }

  /** The event neither sets nor clears the cell. */
  predicate Spares(s: State, e: Event, r: nat, pin: nat)
    requires Valid(s) && r < ROWS && pin < PINS
  {
    e.CadTimer? || Step(s, e).rows[r][pin] == s.rows[r][pin]
  }

  predicate SparedThroughout(s: State, es: seq<Event>, r: nat, pin: nat)
    requires Valid(s) && r < ROWS && pin < PINS
    decreases |es|
  {
    es != [] ==> Spares(s, es[0], r, pin) && SparedThroughout(Step(s, es[0]), es[1..], r, pin)
  }

  lemma PlayStep(s: State, e: Event, r: nat, pin: nat)
    requires Valid(s) && r < ROWS && pin < PINS && Spares(s, e, r, pin)
    requires s.rows[r][pin].cycles < INFINITE_CYCLE
    ensures Step(s, e).rows[r][pin].cycles < INFINITE_CYCLE
    ensures Driven(Drives(s, e), r, pin) + Pending(Step(s, e).rows[r][pin]) == Pending(s.rows[r][pin])
  {
    NothingDriven(r, pin);
    SparedStep(s, e, r, pin);
    var c := s.rows[r][pin];
    NonePending(c);
    hide *;
    if e.CadTimer? {
      TickPending(s, r, pin);
    }
  }

  lemma NonePending(c: Cell)
    requires CellOk(c)
    ensures [] + Pending(c) == Pending(c)
    ensures c.cycles == 0 ==> Pending(c.(pos := 0)) == Pending(c) == []
  {
    hide Pattern;
  }

  lemma TickPending(s: State, r: nat, pin: nat)
    requires Valid(s) && Valid(Tick(s)) && r < ROWS && pin < PINS && s.rows[r][pin].cycles < INFINITE_CYCLE
    ensures Tick(s).rows[r][pin].cycles < INFINITE_CYCLE
    ensures Driven(TickDrives(s), r, pin) + Pending(Tick(s).rows[r][pin]) == Pending(s.rows[r][pin])
  {
    var c := s.rows[r][pin];
    TickCell(s, r, pin);
    PlayFirst(c);
    AdvanceCases(c);
    NonePending(c);
    NonePending(Advance(c));
    hide Driven, Tick, TickDrives, Played, Advance, Pending, Pattern, Bit, FirstBusy, Busy;
  }

  /** Preemption loses nothing: as long as a finite cell is not set again or cleared, what it has driven and what
      it still has to drive make up exactly what it had to drive at first, in that order. */
  lemma {:induction false} NothingIsLost(s: State, es: seq<Event>, r: nat, pin: nat)
    requires Valid(s) && r < ROWS && pin < PINS && SparedThroughout(s, es, r, pin)
    requires s.rows[r][pin].cycles < INFINITE_CYCLE
    ensures Driven(Trace(s, es), r, pin) + Pending(Run(s, es).rows[r][pin]) == Pending(s.rows[r][pin])
    decreases |es|
  {
    hide Drives, Driven, Pending, Step, Spares;
    if es != [] {
      PlayStep(s, es[0], r, pin);
      NothingIsLost(Step(s, es[0]), es[1..], r, pin);
      DrivenConcat(Drives(s, es[0]), Trace(Step(s, es[0]), es[1..]), r, pin);
    } else {
      NothingDriven(r, pin);
    }
  }

  lemma NothingDriven(r: nat, pin: nat)
    ensures Driven([], r, pin) == []
  {
  }

  // The cell that a request sets up.
  function Fresh(resp: nat, pin: nat): (c: Cell)
    requires resp < RESP_MAX && pin < PINS
    ensures CellOk(c)
  {
    ResponsesAreSound(resp, pin);
    var j := RESPONSES[resp][pin];
    Cell(j.cad, j.cycles, 0, j.bits, resp)
  }

  /** All that a finite response drives its pin with. */
  function Whole(resp: nat, pin: nat): seq<bool>
    requires resp < RESP_MAX && pin < PINS
  {
    Repeat(Pattern(Fresh(resp, pin)), Fresh(resp, pin).cycles)
  }

  /** It ends with the pin off. */
  lemma WholeEndsOff(resp: nat, pin: nat)
    requires resp < RESP_MAX && pin < PINS && Fresh(resp, pin).cycles < INFINITE_CYCLE
    ensures |Whole(resp, pin)| == Fresh(resp, pin).cycles * Fresh(resp, pin).bits > 0
    ensures Whole(resp, pin)[|Whole(resp, pin)| - 1] == false
  {
    ResponsesAreSound(resp, pin);
    var f := Fresh(resp, pin);
    var p := Pattern(f);
    assert p != [] && p[f.bits - 1] == false;
    RepeatEnds(p, f.cycles);
  }

  /** A finite response plays its bits so many times, whatever else is requested and cleared meanwhile. */
  lemma FiniteResponse(s: State, es: seq<Event>, r: nat, resp: nat, pin: nat)
    requires Valid(s) && r < ROWS && resp < RESP_MAX && pin < PINS
    requires s.rows[r][pin] == Fresh(resp, pin) && Fresh(resp, pin).cycles < INFINITE_CYCLE
    requires SparedThroughout(s, es, r, pin)
    ensures Driven(Trace(s, es), r, pin) + Pending(Run(s, es).rows[r][pin]) == Whole(resp, pin)
    ensures Run(s, es).rows[r][pin].cycles == 0 ==> Driven(Trace(s, es), r, pin) == Whole(resp, pin)
  {
    FreshPending(resp, pin);
    NothingIsLost(s, es, r, pin);
    var out, c := Driven(Trace(s, es), r, pin), Run(s, es).rows[r][pin];
    assert c.cycles == 0 ==> Pending(c) == [];
    hide *;
    assert out + [] == out;
  }

  lemma FreshPending(resp: nat, pin: nat)
    requires resp < RESP_MAX && pin < PINS
    ensures Pending(Fresh(resp, pin)) == Whole(resp, pin)
  {
    ResponsesAreSound(resp, pin);
    var f := Fresh(resp, pin);
    var p := Pattern(f);
    assert p[f.pos..] == p;
    hide Pattern;
  }

  lemma {:induction false} RepeatEnds(p: seq<bool>, n: nat)
    requires n > 0 && p != []
    ensures |Repeat(p, n)| == n * |p| > 0 && Repeat(p, n)[n * |p| - 1] == p[|p| - 1]
  {
    if n > 1 {
      RepeatEnds(p, n - 1);
      assert n * |p| == (n - 1) * |p| + |p|;
    } else {
      assert Repeat(p, 1) == p;
    }
  }

  // n bits of p, read from pos on, again and again.
  function Around(p: seq<bool>, pos: nat, n: nat): seq<bool>
    decreases n
  {
    if n == 0 || p == [] then []
    else
      var q := if pos >= |p| then 0 else pos;
      [p[q]] + Around(p, q + 1, n - 1)
  }

  lemma PlayEndless(c: Cell, n: nat)
    requires CellOk(c) && c.cycles == INFINITE_CYCLE
    ensures var d := Advance(c);
            && CellOk(d) && d.cycles == INFINITE_CYCLE && Pattern(d) == Pattern(c) && |Played(c)| == 1
            && Around(Pattern(c), c.pos, n + 1) == Played(c) + Around(Pattern(d), d.pos, n)
  {
    assert Pattern(Advance(c)) == Pattern(c);
    var q := if c.pos >= c.bits then 0 else c.pos;
    assert Played(c) == [Pattern(c)[q]];
    hide Pattern;
  }

  lemma EndlessStep(s: State, e: Event, r: nat, pin: nat, n: nat)
    requires Valid(s) && r < ROWS && pin < PINS && Spares(s, e, r, pin)
    requires s.rows[r][pin].cycles == INFINITE_CYCLE
    ensures var c, d, out := s.rows[r][pin], Step(s, e).rows[r][pin], Driven(Drives(s, e), r, pin);
            && d.cycles == INFINITE_CYCLE && Pattern(d) == Pattern(c)
            && Around(Pattern(c), c.pos, |out| + n) == out + Around(Pattern(d), d.pos, n)
  {
    hide Step, Tick, TickDrives, Driven, Played, Advance, Pattern, Around, Drives, Spares, FirstBusy;
    NothingDriven(r, pin);
    SparedStep(s, e, r, pin);
    if e.CadTimer? {
      TickCell(s, r, pin);
      PlayEndless(s.rows[r][pin], n);
    }
    NothingFirst(s.rows[r][pin], n);
  }

  lemma NothingFirst(c: Cell, n: nat)
    ensures [] + Around(Pattern(c), c.pos, n) == Around(Pattern(c), c.pos, n)
  {
  }

  // An event either drives nothing and leaves the cell, or is a tick.
  lemma SparedStep(s: State, e: Event, r: nat, pin: nat)
    requires Valid(s) && r < ROWS && pin < PINS && Spares(s, e, r, pin)
    ensures if e.CadTimer? then Drives(s, e) == TickDrives(s) && Step(s, e) == Tick(s)
            else Drives(s, e) == [] && Step(s, e).rows[r][pin] == s.rows[r][pin]
  {
  }

  /** A never-ending cell that is not set again or cleared plays its bits over and over, continuing after every
      preemption where it was. */
  lemma {:induction false} EndlessCyclesOn(s: State, es: seq<Event>, r: nat, pin: nat)
    requires Valid(s) && r < ROWS && pin < PINS && SparedThroughout(s, es, r, pin)
    requires s.rows[r][pin].cycles == INFINITE_CYCLE
    ensures var c, out := s.rows[r][pin], Driven(Trace(s, es), r, pin);
            out == Around(Pattern(c), c.pos, |out|)
    decreases |es|
  {
    hide Drives, Step, Spares, Pattern, Around, Driven;
    if es == [] {
      NothingDriven(r, pin);
      NoneAround(Pattern(s.rows[r][pin]), s.rows[r][pin].pos);
    } else {
      var t := Step(s, es[0]);
      var rest := Driven(Trace(t, es[1..]), r, pin);
      EndlessStep(s, es[0], r, pin, |rest|);
      EndlessCyclesOn(t, es[1..], r, pin);
      DrivenConcat(Drives(s, es[0]), Trace(t, es[1..]), r, pin);
    }
  }

  lemma NoneAround(p: seq<bool>, pos: nat)
    ensures Around(p, pos, 0) == []
  {
  }
}
