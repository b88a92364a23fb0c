/** What a request comes to (MxGpioDrv.c): the bits of the response tables on the pins, from any state of the table. */
module CadenceRequests {
  import opened Basics
  import opened CadenceState
  import opened CadenceRuns
  import opened CadenceProgress

  // The call that sets the response on the given pin.
  function Request(resp: nat, pin: nat): Event {
    if pin == BUZZER then SetBuzzer(resp) else SetLeds(resp)
  }

  // The row that a response is queued in, and its entry in the table of the pin.
  function RowOf(resp: nat): (r: nat)
    requires resp < RESP_MAX
    ensures r < ROWS
  {
    ResponsesAreSound(resp, BUZZER);
    PRIORITIES[resp]
  }

  function Entry(resp: nat, pin: nat): (j: Cadence)
    requires resp < RESP_MAX && pin < PINS
    ensures 1 <= j.cycles <= 0xFF
  {
    ResponsesAreSound(resp, pin);
    RESPONSES[resp][pin]
  }

  // One cycle of the entry, lowest bit first.
  function TableBits(resp: nat, pin: nat): (p: seq<bool>)
    requires resp < RESP_MAX && pin < PINS
    ensures |p| == Entry(resp, pin).bits
  {
    var j := Entry(resp, pin);
    seq(j.bits, i requires 0 <= i => Bit(j.cad, i))
  }

  // All cycles of a finite one.
  function TableCycles(resp: nat, pin: nat): seq<bool>
    requires resp < RESP_MAX && pin < PINS
  {
    Repeat(TableBits(resp, pin), Entry(resp, pin).cycles)
  }

  lemma FreshIsTable(resp: nat, pin: nat)
    requires resp < RESP_MAX && pin < PINS
    ensures Fresh(resp, pin).pos == 0 && Fresh(resp, pin).cycles == Entry(resp, pin).cycles
    ensures Pattern(Fresh(resp, pin)) == TableBits(resp, pin)
    ensures Whole(resp, pin) == TableCycles(resp, pin)
  {
    hide RESPONSES, Repeat, Bit;
    assert Pattern(Fresh(resp, pin)) == TableBits(resp, pin);
  }

  lemma RequestSetsCell(s: State, resp: nat, pin: nat)
    requires Valid(s) && resp < RESP_MAX && pin < PINS
    ensures var t, r := Step(s, Request(resp, pin)), RowOf(resp);
      && t.rows[r][pin] == Fresh(resp, pin) && t.filling
      && forall x :: 0 <= x < ROWS && x != r ==> t.rows[x] == s.rows[x]
  {
    hide Valid, TableOk, Fill, Step, Request, FirstBusy, RESPONSES, PRIORITIES, RowOf, Fresh;
    RequestFills(s, resp, pin);
    if pin == BUZZER {
      FillSets(s, resp, BUZZER);
    } else {
      FillSets(s, resp, RED_LED);
      FillSets(Fill(s, resp, RED_LED), resp, GREEN_LED);
    }
  }

  lemma RequestFills(s: State, resp: nat, pin: nat)
    requires Valid(s) && resp < RESP_MAX && pin < PINS
    ensures Shape(s.rows) && s.current < ROWS && (pin == BUZZER || pin == RED_LED || pin == GREEN_LED)
    ensures pin == BUZZER ==> Step(s, Request(resp, pin)) == Fill(s, resp, BUZZER)
    ensures var red := Fill(s, resp, RED_LED);
            Shape(red.rows) && (pin != BUZZER ==> Step(s, Request(resp, pin)) == Fill(red, resp, GREEN_LED))
  {
    assert Shape(s.rows);
    hide Valid, Shape, TableOk, Fill, FirstBusy, RESPONSES, PRIORITIES;
    FillSets(s, resp, RED_LED);
  }

  lemma FillSets(s: State, resp: nat, pin: nat)
    requires Shape(s.rows) && s.current < ROWS && resp < RESP_MAX && pin < PINS
    ensures var t, r := Fill(s, resp, pin), RowOf(resp);
      && Shape(t.rows) && t.current < ROWS && t.filling
      && t.rows[r] == s.rows[r][pin := Fresh(resp, pin)]
      && forall x :: 0 <= x < ROWS && x != r ==> t.rows[x] == s.rows[x]
  {
    ResponsesAreSound(resp, pin);
    hide FirstBusy, RESPONSES;
  }

  lemma AfterRequest(s: State, e: Event, es: seq<Event>, r: nat, pin: nat)
    requires Valid(s) && !e.CadTimer?
    ensures Run(s, [e] + es) == Run(Step(s, e), es)
    ensures Driven(Trace(s, [e] + es), r, pin) == Driven(Trace(Step(s, e), es), r, pin)
  {
    assert ([e] + es)[1..] == es;
    assert [] + Trace(Step(s, e), es) == Trace(Step(s, e), es);
  }

  /** A request plays the bits of its table entry, from any state of the table and however it is preempted, unless it is
      set again or cleared: a finite one all its cycles and no more, a never-ending one over and over. */
  lemma RequestPlays(s: State, es: seq<Event>, resp: nat, pin: nat)
    requires Valid(s) && resp < RESP_MAX && pin < PINS
    requires SparedThroughout(Step(s, Request(resp, pin)), es, RowOf(resp), pin)
    ensures var r, j, all := RowOf(resp), Entry(resp, pin), [Request(resp, pin)] + es;
      var out := Driven(Trace(s, all), r, pin);
      && (j.cycles < 0xFF ==> out <= TableCycles(resp, pin))
      && (j.cycles < 0xFF && Run(s, all).rows[r][pin].cycles == 0 ==> out == TableCycles(resp, pin))
      && (j.cycles == 0xFF ==> out == Around(TableBits(resp, pin), 0, |out|))
  {
    hide *;
    var e, r := Request(resp, pin), RowOf(resp);
    NoTimer(resp, pin);
    RequestSetsCell(s, resp, pin);
    AfterRequest(s, e, es, r, pin);
    FreshPlays(Step(s, e), es, r, resp, pin);
  }

  lemma NoTimer(resp: nat, pin: nat)
    ensures !Request(resp, pin).CadTimer?
  {
  }

  lemma FreshPlays(t: State, es: seq<Event>, r: nat, resp: nat, pin: nat)
    requires Valid(t) && r < ROWS && resp < RESP_MAX && pin < PINS && t.rows[r][pin] == Fresh(resp, pin)
    requires SparedThroughout(t, es, r, pin)
    ensures var j, out := Entry(resp, pin), Driven(Trace(t, es), r, pin);
      && (j.cycles < 0xFF ==> out <= TableCycles(resp, pin))
      && (j.cycles < 0xFF && Run(t, es).rows[r][pin].cycles == 0 ==> out == TableCycles(resp, pin))
      && (j.cycles == 0xFF ==> out == Around(TableBits(resp, pin), 0, |out|))
  {
    FreshIsTable(resp, pin);
    hide *;
    if Entry(resp, pin).cycles < INFINITE_CYCLE {
      FiniteResponse(t, es, r, resp, pin);
    } else {
      EndlessCyclesOn(t, es, r, pin);
    }
  }

  // Nothing is driven between the request and the synchronization.
  lemma NothingWhileFilling(s: State, n: nat)
    requires Valid(s) && s.filling
    ensures Run(s, Timers(n)) == s && Trace(s, Timers(n)) == []
    decreases n
  {
    if n > 0 {
      assert Timers(n)[0] == CadTimer && Timers(n)[1..] == Timers(n - 1);
      NothingWhileFilling(s, n - 1);
    }
  }

  // While the cell has bits to play its row is the one that plays.
  ghost predicate Plays(s: State, r: nat, pin: nat)
    requires Valid(s) && r < ROWS && pin < PINS
  {
    !s.filling && (s.rows[r][pin].cycles > 0 ==> s.current == r)
  }

  lemma TickPlays(s: State, r: nat, pin: nat)
    requires Valid(s) && r < ROWS && pin < PINS && Plays(s, r, pin) && s.rows[r][pin].cycles > 0
    ensures Valid(Tick(s)) && Plays(Tick(s), r, pin)
    ensures Driven(TickDrives(s), r, pin) == Played(s.rows[r][pin])
  {
    TickIsValid(s);
    TickCell(s, r, pin);
    TickStays(s);
    hide Tick, TickDrives, Played, Advance, FirstBusy, Driven;
  }

  // A busy row goes on playing.
  lemma TickStays(s: State)
    requires Valid(s) && !s.filling
    ensures !Tick(s).filling && (Busy(Tick(s).rows[s.current]) ==> Tick(s).current == s.current)
  {
    hide AdvanceRow, Settle, FirstBusy;
  }

  lemma FirstTick(s: State, n: nat, r: nat, pin: nat)
    requires Valid(s) && n > 0 && Valid(Tick(s))
    ensures Driven(Trace(s, Timers(n)), r, pin)
         == Driven(TickDrives(s), r, pin) + Driven(Trace(Tick(s), Timers(n - 1)), r, pin)
  {
    hide *;
    FirstDriven(s, n);
    DrivenConcat(TickDrives(s), Trace(Tick(s), Timers(n - 1)), r, pin);
  }

  lemma FirstDriven(s: State, n: nat)
    requires Valid(s) && n > 0 && Valid(Tick(s))
    ensures Shape(s.rows) && s.current < ROWS
    ensures Trace(s, Timers(n)) == TickDrives(s) + Trace(Tick(s), Timers(n - 1))
  {
    hide *;
    NextTimers(n);
    TickIsStep(s);
    TraceNext(s, Timers(n));
  }

  lemma NextTimers(n: nat)
    requires n > 0
    ensures |Timers(n)| == n && Timers(n)[0] == CadTimer && Timers(n)[1..] == Timers(n - 1)
  {
  }

  lemma TickIsStep(s: State)
    requires Valid(s)
    ensures Shape(s.rows) && s.current < ROWS
    ensures Step(s, CadTimer) == Tick(s) && Drives(s, CadTimer) == TickDrives(s)
  {
    hide Tick, TickDrives;
  }

  lemma TraceNext(s: State, es: seq<Event>)
    requires Valid(s) && Shape(s.rows) && s.current < ROWS && es != []
    ensures Trace(s, es) == Drives(s, es[0]) + Trace(Step(s, es[0]), es[1..])
  {
    hide Valid, Shape, Step, Drives;
  }

  lemma {:induction false} TimersSpare(s: State, n: nat, r: nat, pin: nat)
    requires Valid(s) && r < ROWS && pin < PINS
    ensures SparedThroughout(s, Timers(n), r, pin)
    decreases n
  {
    if n > 0 {
      assert Timers(n)[0] == CadTimer && Timers(n)[1..] == Timers(n - 1);
      TimersSpare(Step(s, CadTimer), n - 1, r, pin);
    }
  }

  // A tick plays one bit of a cell that has any.
  lemma OneBit(c: Cell)
    requires CellOk(c) && c.cycles < INFINITE_CYCLE
    ensures |Played(c)| == if Pending(c) == [] then 0 else 1
    ensures c.cycles == 0 ==> Pending(c) == []
  {
    AdvanceCases(c);
    PlayFirst(c);
    if c.cycles == 1 && c.pos == c.bits {
      PlayAtEnd(c);
    }
    NonePending(c);
    hide Advance, Pattern, Bit, Repeat;
  }

  /** Every tick plays one bit, until all are played. */
  lemma {:induction false} TicksPlayPending(s: State, r: nat, pin: nat, n: nat)
    requires Valid(s) && r < ROWS && pin < PINS && Plays(s, r, pin) && s.rows[r][pin].cycles < INFINITE_CYCLE
    ensures var p := Pending(s.rows[r][pin]);
            Driven(Trace(s, Timers(n)), r, pin) == p[..Min(n, |p|)]
    decreases n
  {
    hide *;
    CellsOk(s, r, pin);
    var p := Pending(s.rows[r][pin]);
    OneBit(s.rows[r][pin]);
    if n == 0 {
      NoTicks(s, r, pin);
      FirstOf(p, [], [], 0);
    } else if p == [] {
      TimersSpare(s, n, r, pin);
      NothingIsLost(s, Timers(n), r, pin);
      FirstOf(p, [], [], n);
    } else {
      TickPlays(s, r, pin);
      CellsOk(Tick(s), r, pin);
      TickPending(s, r, pin);
      FirstTick(s, n, r, pin);
      TicksPlayPending(Tick(s), r, pin, n - 1);
      FirstOf(p, Played(s.rows[r][pin]), Pending(Tick(s).rows[r][pin]), n);
    }
  }

  lemma CellsOk(s: State, r: nat, pin: nat)
    requires Valid(s) && r < ROWS && pin < PINS
    ensures |s.rows| == ROWS && |s.rows[r]| == PINS && CellOk(s.rows[r][pin])
    ensures Shape(s.rows) && s.current < ROWS && INFINITE_CYCLE > 0
  {
  }

  lemma FirstOf(p: seq<bool>, a: seq<bool>, b: seq<bool>, n: nat)
    ensures n == 0 ==> p[..Min(n, |p|)] == []
    ensures p == [] ==> p[..Min(n, |p|)] == []
    ensures n > 0 && |a| == 1 && a + b == p ==> p[..Min(n, |p|)] == a + b[..Min(n - 1, |b|)]
  {
  }

  lemma NoTicks(s: State, r: nat, pin: nat)
    requires Valid(s)
    ensures Driven(Trace(s, Timers(0)), r, pin) == []
  {
  }

  lemma {:induction false} TicksPlayAround(s: State, r: nat, pin: nat, n: nat)
    requires Valid(s) && r < ROWS && pin < PINS && Plays(s, r, pin) && s.rows[r][pin].cycles == INFINITE_CYCLE
    ensures var c := s.rows[r][pin];
            Driven(Trace(s, Timers(n)), r, pin) == Around(Pattern(c), c.pos, n)
    decreases n
  {
    hide *;
    CellsOk(s, r, pin);
    var c := s.rows[r][pin];
    if n == 0 {
      NoTicks(s, r, pin);
      NoneAround(Pattern(c), c.pos);
    } else {
      PlayEndless(c, n - 1);
      TickPlays(s, r, pin);
      CellsOk(Tick(s), r, pin);
      TickTurns(s, r, pin);
      FirstTick(s, n, r, pin);
      TicksPlayAround(Tick(s), r, pin, n - 1);
    }
  }

  lemma TickTurns(s: State, r: nat, pin: nat)
    requires Valid(s) && r < ROWS && pin < PINS && Plays(s, r, pin) && s.rows[r][pin].cycles == INFINITE_CYCLE
    requires Valid(Tick(s)) && Advance(s.rows[r][pin]).cycles == INFINITE_CYCLE
    ensures Tick(s).rows[r][pin] == Advance(s.rows[r][pin])
  {
    TickCell(s, r, pin);
    hide Tick, Advance, Driven, TickDrives, Played, FirstBusy;
  }

  /** A request, the synchronization and n ticks, with no busier row in the way: the first n bits of the response. */
  lemma RequestThenTicks(s: State, resp: nat, pin: nat, n: nat)
    requires Valid(s) && resp < RESP_MAX && pin < PINS
    requires forall x :: 0 <= x < RowOf(resp) ==> !Busy(s.rows[x])
    ensures var r, j := RowOf(resp), Entry(resp, pin);
      var out := Driven(Trace(s, [Request(resp, pin)] + ([SyncTimer] + Timers(n))), r, pin);
      && (j.cycles < 0xFF ==> out == TableCycles(resp, pin)[..Min(n, |TableCycles(resp, pin)|)])
      && (j.cycles == 0xFF ==> out == Around(TableBits(resp, pin), 0, n))
  {
    hide *;
    var e, r := Request(resp, pin), RowOf(resp);
    var t := Step(s, e);
    NoTimer(resp, pin);
    RequestSetsCell(s, resp, pin);
    AfterRequest(s, e, [SyncTimer] + Timers(n), r, pin);
    AfterRequest(t, SyncTimer, Timers(n), r, pin);
    SyncPlays(s, t, r, pin);
    FreshTicks(Step(t, SyncTimer), r, resp, pin, n);
  }

  lemma FreshTicks(u: State, r: nat, resp: nat, pin: nat, n: nat)
    requires Valid(u) && r < ROWS && resp < RESP_MAX && pin < PINS && u.rows[r][pin] == Fresh(resp, pin)
    requires Plays(u, r, pin)
    ensures var j, out := Entry(resp, pin), Driven(Trace(u, Timers(n)), r, pin);
      && (j.cycles < 0xFF ==> out == TableCycles(resp, pin)[..Min(n, |TableCycles(resp, pin)|)])
      && (j.cycles == 0xFF ==> out == Around(TableBits(resp, pin), 0, n))
  {
    FreshIsTable(resp, pin);
    FreshPending(resp, pin);
    hide *;
    if Entry(resp, pin).cycles < INFINITE_CYCLE {
      TicksPlayPending(u, r, pin, n);
    } else {
      TicksPlayAround(u, r, pin, n);
    }
  }

  lemma SyncPlays(s: State, t: State, r: nat, pin: nat)
    requires Valid(s) && Valid(t) && r < ROWS && pin < PINS
    requires forall x :: 0 <= x < ROWS && x != r ==> t.rows[x] == s.rows[x]
    requires forall x :: 0 <= x < r ==> !Busy(s.rows[x])
    ensures var u := Step(t, SyncTimer); u.rows == t.rows && Plays(u, r, pin)
  {
  }

  // What is left of a job after a clear is held back like a request until the synchronization,
  lemma NothingAfterClear(s: State, led: nat, buz: nat, n: nat)
    requires Valid(s)
    ensures Trace(Step(s, ClearCad(led, buz)), Timers(n)) == []
  {
    ClearFills(s, led, buz);
    hide *;
    NothingWhileFilling(Step(s, ClearCad(led, buz)), n);
  }

  lemma ClearFills(s: State, led: nat, buz: nat)
    requires Valid(s)
    ensures Step(s, ClearCad(led, buz)).filling && Step(s, ClearCad(led, buz)).rows == Clear(s, led, buz).rows
  {
    hide ClearLedPart, ClearBuzzerPart, FirstBusy, TableOk;
  }

  // and then played, one bit for each tick, if no busier row is left in the way.
  lemma ClearThenTicks(s: State, led: nat, buz: nat, r: nat, pin: nat, n: nat)
    requires Valid(s) && r < ROWS && pin < PINS
    requires var t := Step(s, ClearCad(led, buz));
      t.rows[r][pin].cycles < 0xFF && forall x :: 0 <= x < r ==> !Busy(t.rows[x])
    ensures var p := Pending(Step(s, ClearCad(led, buz)).rows[r][pin]);
      Driven(Trace(s, [ClearCad(led, buz)] + ([SyncTimer] + Timers(n))), r, pin) == p[..Min(n, |p|)]
  {
    hide *;
    var e := ClearCad(led, buz);
    var t := Step(s, e);
    AfterRequest(s, e, [SyncTimer] + Timers(n), r, pin);
    AfterRequest(t, SyncTimer, Timers(n), r, pin);
    SyncPlays(t, t, r, pin);
    Infinite();
    TicksPlayPending(Step(t, SyncTimer), r, pin, n);
  }

  lemma Infinite()
    ensures INFINITE_CYCLE == 0xFF
  {
  }

  lemma AtMost(c: Cell)
    requires CellOk(c)
    ensures c.cycles <= 0xFF
  {
  }

  lemma OneBitIsFinite(c: Cell)
    requires CellOk(c)
    ensures c.cycles == 0xFF ==> |Pending(c)| > 1
  {
    var p := Pattern(c);
    assert |p| == c.bits;
    assert Repeat(p, 254) == p + (p + Repeat(p, 252));
  }

  /** A cleared LED goes off with the first tick, in the cases in which it is switched off at all. */
  lemma ClearedLedGoesOff(s: State, led: nat, buz: nat, r: nat, pin: nat, n: nat)
    requires Valid(s) && r < ROWS && (pin == RED_LED || pin == GREEN_LED) && n > 0
    requires ClearsLed(s.rows, r, pin, led)
    requires !(ClearsBuzzer(s.rows, r, buz) && Dark(s.rows, r, RED_LED + GREEN_LED - pin, led))
    requires forall x :: 0 <= x < r ==> !Busy(Clear(s, led, buz).rows[x])
    ensures Driven(Trace(s, [ClearCad(led, buz)] + ([SyncTimer] + Timers(n))), r, pin) == [false]
  {
    ClearFills(s, led, buz);
    ClearedLed(s, led, buz, r, pin);
    OneBitIsFinite(Clear(s, led, buz).rows[r][pin]);
    hide *;
    AtMost(Clear(s, led, buz).rows[r][pin]);
    ClearThenTicks(s, led, buz, r, pin, n);
  }
}
