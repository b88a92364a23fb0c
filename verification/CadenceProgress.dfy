/** How long rows play, and what clearing leaves on a pin (MxGpioDrv.c). */
module CadenceProgress {
  import opened Basics
  import opened CadenceState
  import opened CadenceRuns

  predicate Endless(row: seq<Cell>) {
    exists p :: 0 <= p < |row| && row[p].cycles == INFINITE_CYCLE
  }

  // The ticks for which a finite cell keeps its row playing: one for each bit and one to see that all is done.
  function CellTicks(c: Cell): nat
    requires CellOk(c)
  {
    if c.cycles == 0 then 0 else c.cycles * c.bits - c.pos + 1
  }

  function RowTicks(row: seq<Cell>): nat
    requires RowOk(row)
  {
    Max(CellTicks(row[BUZZER]), Max(CellTicks(row[RED_LED]), CellTicks(row[GREEN_LED])))
  }

  // The ticks before row t comes up when all rows before it are finite and nothing is requested.
  function TicksBefore(rows: seq<seq<Cell>>, t: nat): nat
    requires TableOk(rows) && t <= ROWS
  {
    if t == 0 then 0 else TicksBefore(rows, t - 1) + RowTicks(rows[t - 1])
  }

  // Row t never ends, and those before it do.
  predicate FirstEndless(s: State, t: nat)
    requires Valid(s)
  {
    t < ROWS && Endless(s.rows[t]) && forall r :: 0 <= r < t ==> !Endless(s.rows[r])
  }

  lemma CellCountsDown(c: Cell)
    requires CellOk(c) && c.cycles < INFINITE_CYCLE
    ensures CellOk(Advance(c)) && Advance(c).cycles < INFINITE_CYCLE
    ensures CellTicks(Advance(c)) == if CellTicks(c) > 0 then CellTicks(c) - 1 else 0
  {
    if c.cycles > 0 {
      AtLeast(c.cycles, c.bits);
    }
    if c.pos >= c.bits && c.cycles > 1 {
      assert c.cycles * c.bits == (c.cycles - 1) * c.bits + c.bits;
    }
  }

  lemma BusyIffTicks(row: seq<Cell>)
    requires RowOk(row)
    ensures Busy(row) <==> RowTicks(row) > 0
    ensures Endless(row) ==> Busy(row)
  {
  }

  lemma AdvanceRowCountsDown(row: seq<Cell>)
    requires RowOk(row)
    ensures RowOk(AdvanceRow(row))
    ensures !Endless(row) ==>
              !Endless(AdvanceRow(row))
                  && RowTicks(AdvanceRow(row)) == if RowTicks(row) > 0 then RowTicks(row) - 1 else 0
    ensures Endless(row) ==> Endless(AdvanceRow(row))
  {
    forall p | 0 <= p < PINS
      ensures CellOk(Advance(row[p]))
      ensures Advance(row[p]).cycles == INFINITE_CYCLE <==> row[p].cycles == INFINITE_CYCLE
      ensures row[p].cycles < INFINITE_CYCLE ==>
                CellTicks(Advance(row[p])) == if CellTicks(row[p]) > 0 then CellTicks(row[p]) - 1 else 0
    {
      if row[p].cycles < INFINITE_CYCLE {
        CellCountsDown(row[p]);
      }
    }
    hide Advance, CellTicks;
    assert forall p :: 0 <= p < PINS ==> AdvanceRow(row)[p] == Advance(row[p]);
  }

  lemma SettleKeepsTicks(row: seq<Cell>)
    requires RowOk(row)
    ensures RowOk(Settle(row, 0)) && RowTicks(Settle(row, 0)) == RowTicks(row)
    ensures Endless(Settle(row, 0)) <==> Endless(row)
  {
    var q := Settle(row, 0);
    hide Settle;
    assert forall p :: 0 <= p < PINS ==> CellOk(q[p]) && q[p].cycles == row[p].cycles;
    assert forall p :: 0 <= p < PINS ==> CellTicks(q[p]) == CellTicks(row[p]);
  }

  // Only the row that plays changes, and a finite one loses one tick.
  lemma TickRowCountsDown(s: State)
    requires Valid(s) && !s.filling
    ensures Valid(Tick(s)) && !Tick(s).filling
    ensures forall r :: 0 <= r < ROWS && r != s.current ==> Tick(s).rows[r] == s.rows[r]
    ensures !Endless(s.rows[s.current]) ==>
              && !Endless(Tick(s).rows[s.current])
              && RowTicks(Tick(s).rows[s.current]) ==
                 if RowTicks(s.rows[s.current]) > 0 then RowTicks(s.rows[s.current]) - 1 else 0
    ensures Endless(s.rows[s.current]) ==> Endless(Tick(s).rows[s.current])
  {
    TickIsValid(s);
    AdvanceRowCountsDown(s.rows[s.current]);
    SettleKeepsTicks(AdvanceRow(s.rows[s.current]));
    assert Tick(s).rows[s.current] == Settle(AdvanceRow(s.rows[s.current]), 0);
    hide Settle, AdvanceRow, Endless, RowTicks, RowOk, FirstBusy;
  }

  lemma {:induction false} TicksAgree(rows: seq<seq<Cell>>, after: seq<seq<Cell>>, t: nat)
    requires TableOk(rows) && TableOk(after) && t <= ROWS && forall r :: 0 <= r < t ==> rows[r] == after[r]
    ensures TicksBefore(rows, t) == TicksBefore(after, t)
  {
    if t > 0 {
      TicksAgree(rows, after, t - 1);
    }
  }

  // A change of one row shows as its change in ticks.
  lemma {:induction false} TicksDiffer(rows: seq<seq<Cell>>, after: seq<seq<Cell>>, c: nat, t: nat)
    requires TableOk(rows) && TableOk(after) && c < t <= ROWS
    requires forall r :: 0 <= r < ROWS && r != c ==> rows[r] == after[r]
    ensures TicksBefore(after, t) - TicksBefore(rows, t) == RowTicks(after[c]) - RowTicks(rows[c])
  {
    if t - 1 == c {
      TicksAgree(rows, after, c);
    } else {
      TicksDiffer(rows, after, c, t - 1);
    }
  }

  lemma {:induction false} NoTicksIffIdle(rows: seq<seq<Cell>>, t: nat)
    requires TableOk(rows) && t <= ROWS
    ensures TicksBefore(rows, t) == 0 <==> forall r :: 0 <= r < t ==> !Busy(rows[r])
  {
    if t > 0 {
      NoTicksIffIdle(rows, t - 1);
      BusyIffTicks(rows[t - 1]);
    }
  }

  // Row t plays exactly when nothing is left before it.
  lemma PlaysIffNothingBefore(s: State, t: nat)
    requires Valid(s) && FirstEndless(s, t)
    ensures s.current <= t && (s.current == t <==> TicksBefore(s.rows, t) == 0)
  {
    NoTicksIffIdle(s.rows, t);
    BusyIffTicks(s.rows[t]);
    hide Endless;
  }

  lemma TickCountsDown(s: State, t: nat)
    requires Valid(s) && !s.filling && FirstEndless(s, t)
    ensures Valid(Tick(s)) && !Tick(s).filling && FirstEndless(Tick(s), t)
    ensures TicksBefore(Tick(s).rows, t) == if TicksBefore(s.rows, t) > 0 then TicksBefore(s.rows, t) - 1 else 0
  {
    hide Endless, RowTicks, Tick, FirstBusy;
    PlaysIffNothingBefore(s, t);
    TickRowCountsDown(s);
    BusyIffTicks(s.rows[s.current]);
    BusyIffTicks(s.rows[t]);
    hide Busy, RowOk;
    if s.current < t {
      TicksDiffer(s.rows, Tick(s).rows, s.current, t);
    } else {
      TicksAgree(s.rows, Tick(s).rows, t);
    }
  }

  function Timers(n: nat): seq<Event> {
    seq(n, i => CadTimer)
  }

  /** With no requests, the first never-ending row plays from exactly tick TicksBefore on, and rows before it until
      then. */
  lemma {:induction false} EndlessRowIsReached(s: State, t: nat, n: nat)
    requires Valid(s) && !s.filling && FirstEndless(s, t)
    ensures Run(s, Timers(n)).current <= t
    ensures Run(s, Timers(n)).current == t <==> n >= TicksBefore(s.rows, t)
    decreases n
  {
    hide Tick, TicksBefore, FirstEndless, FirstBusy;
    RunTimers(s, n);
    if n == 0 {
      PlaysIffNothingBefore(s, t);
    } else {
      TickCountsDown(s, t);
      EndlessRowIsReached(Tick(s), t, n - 1);
    }
  }

  lemma RunTimers(s: State, n: nat)
    requires Valid(s)
    ensures n == 0 ==> Run(s, Timers(n)) == s
    ensures n > 0 ==> Valid(Tick(s)) && Run(s, Timers(n)) == Run(Tick(s), Timers(n - 1))
  {
    if n > 0 {
      TickIsValid(s);
      assert Timers(n)[0] == CadTimer && Timers(n)[1..] == Timers(n - 1);
    }
  }

  /** As long as the idle row has not been cleared there is such a row. */
  lemma IdleRowIsEndless(s: State) returns (t: nat)
    requires Valid(s) && Endless(s.rows[IDLE_ROW])
    ensures FirstEndless(s, t)
  {
    t := 0;
    while !Endless(s.rows[t])
      invariant t <= IDLE_ROW && forall r :: 0 <= r < t ==> !Endless(s.rows[r])
      decreases IDLE_ROW - t
    {
      t := t + 1;
    }
  }

  /** Idle cells stay endless in every run that does not clear or set them again, so the idle row stays reachable. */
  lemma {:induction false} EndlessStays(s: State, es: seq<Event>, r: nat, pin: nat)
    requires Valid(s) && r < ROWS && pin < PINS && SparedThroughout(s, es, r, pin)
    requires s.rows[r][pin].cycles == INFINITE_CYCLE
    ensures Run(s, es).rows[r][pin].cycles == INFINITE_CYCLE && Endless(Run(s, es).rows[r])
    decreases |es|
  {
    if es != [] {
      EndlessStep(s, es[0], r, pin, 0);
      hide Step, Spares;
      EndlessStays(Step(s, es[0]), es[1..], r, pin);
    }
  }

  // Requests for another row or another pin, and clears that name responses of other rows.
  predicate Elsewhere(e: Event, r: nat, pin: nat) {
    match e
    case SetLeds(resp) => resp >= RESP_MAX || PRIORITIES[resp] != r || pin == BUZZER
    case SetBuzzer(resp) => resp >= RESP_MAX || PRIORITIES[resp] != r || pin != BUZZER
    case ClearCad(led, buz) =>
      && led != RESP_ALL && led != RESP_PRESENT && (led < RESP_MAX ==> PRIORITIES[led] != r)
      && buz != RESP_ALL && buz != RESP_PRESENT && (buz < RESP_MAX ==> PRIORITIES[buz] != r)
    case _ => true
  }

  lemma FillsElsewhere(s: State, resp: nat, p: nat, r: nat, pin: nat)
    requires Shape(s.rows) && s.current < ROWS && resp < RESP_MAX && p < PINS && r < ROWS && pin < PINS
    requires PRIORITIES[resp] != r || p != pin
    ensures var t := Fill(s, resp, p); Shape(t.rows) && t.current < ROWS && t.rows[r][pin] == s.rows[r][pin]
  {
    ResponsesAreSound(resp, p);
    hide FirstBusy, RESPONSES;
  }

  lemma ClearsElsewhere(s: State, led: nat, buz: nat, r: nat)
    requires Shape(s.rows) && s.current < ROWS && r < ROWS && Elsewhere(ClearCad(led, buz), r, BUZZER)
    ensures Clear(s, led, buz).rows[r] == s.rows[r]
  {
    hide FirstBusy, ClearLedsOf, ClearBuzzer, RESPONSES;
    if led < RESP_MAX {
      ResponsesAreSound(led, BUZZER);
    }
    assert ClearLedPart(s.rows, s.current, led)[r] == s.rows[r];
  }

  /** They neither set nor clear the cell, even when they take over playing. */
  lemma ElsewhereSpares(s: State, e: Event, r: nat, pin: nat)
    requires Valid(s) && r < ROWS && pin < PINS && Elsewhere(e, r, pin)
    ensures Spares(s, e, r, pin)
  {
    assert Shape(s.rows) && s.current < ROWS;
    hide FirstBusy, ClearLedsOf, ClearBuzzer, RESPONSES, Valid, TableOk, Fill, Clear, Tick;
    match e
    case SetLeds(resp) =>
      if resp < RESP_MAX {
        FillsElsewhere(s, resp, RED_LED, r, pin);
        FillsElsewhere(Fill(s, resp, RED_LED), resp, GREEN_LED, r, pin);
      }
    case SetBuzzer(resp) =>
      if resp < RESP_MAX {
        FillsElsewhere(s, resp, BUZZER, r, pin);
      }
    case ClearCad(led, buz) => ClearsElsewhere(s, led, buz, r);
    case _ =>
  }

  // Clearing buz reaches the buzzer of row r.
  predicate ClearsBuzzer(rows: seq<seq<Cell>>, r: nat, buz: nat)
    requires Shape(rows) && r < ROWS
  {
    (buz < RESP_MAX && PRIORITIES[buz] == r && rows[r][BUZZER].resp == buz) || (buz == RESP_ALL && r < IDLE_ROW)
  }

  // Clearing led reaches this LED of row r.
  predicate ClearsLed(rows: seq<seq<Cell>>, r: nat, pin: nat, led: nat)
    requires Shape(rows) && r < ROWS && pin < PINS
  {
    (led < RESP_MAX && PRIORITIES[led] == r && rows[r][pin].resp == led) || (led == RESP_ALL && r < IDLE_ROW)
  }

  predicate ClearsSomeLed(rows: seq<seq<Cell>>, r: nat, led: nat)
    requires Shape(rows) && r < ROWS
  {
    ClearsLed(rows, r, RED_LED, led) || ClearsLed(rows, r, GREEN_LED, led)
  }

  // Clearing what is present drops the jobs of the row that plays.
  predicate Drops(current: nat, r: nat, what: nat) {
    what == RESP_PRESENT && r == current
  }

  // The LED is off already, or will be.
  predicate Dark(rows: seq<seq<Cell>>, r: nat, pin: nat, led: nat)
    requires Shape(rows) && r < ROWS && pin < PINS
  {
    rows[r][pin].cad == CAD_OFF || ClearsLed(rows, r, pin, led)
  }

  /** A cleared LED gets one more bit, which switches it off, unless the same call clears the buzzer of its row and the
      other LED of the row is dark or cleared too: then the LED gets no bit and stays as it is. A dropped LED gets none,
      and so does a dark one beside another dark one and a cleared buzzer. All other LEDs are left alone. */
  lemma ClearedLed(s: State, led: nat, buz: nat, r: nat, pin: nat)
    requires Valid(s) && r < ROWS && (pin == RED_LED || pin == GREEN_LED)
    ensures var other, c := RED_LED + GREEN_LED - pin, Clear(s, led, buz).rows[r][pin];
      var goesDark := ClearsBuzzer(s.rows, r, buz) && Dark(s.rows, r, other, led);
      && CellOk(c)
      && (ClearsLed(s.rows, r, pin, led) ==> Pending(c) == if goesDark then [] else [false])
      && (Drops(s.current, r, led) ==> Pending(c) == [])
      && (!ClearsLed(s.rows, r, pin, led) && !Drops(s.current, r, led) ==>
            if goesDark && s.rows[r][pin].cad == CAD_OFF then Pending(c) == [] else c == s.rows[r][pin])
  {
    var rows := ClearLedPart(s.rows, s.current, led);
    assert Clear(s, led, buz).rows == ClearBuzzerPart(rows, s.current, buz) && CellOk(s.rows[r][pin]);
    LedPart(s.rows, s.current, led, r);
    BuzzerPart(rows, s.current, buz, r);
    StoppedPending(s.rows[r][pin]);
    hide ClearLedPart, ClearBuzzerPart, Clear, Valid, Pending, ClearsLed, ClearsBuzzer, TableOk;
  }

  /** A cleared buzzer gets one more bit, which switches it off. A dropped one gets none, and so does a silent one
      beside a cleared LED. All others are left alone. */
  lemma ClearedBuzzer(s: State, led: nat, buz: nat, r: nat)
    requires Valid(s) && r < ROWS
    ensures var b, c := s.rows[r][BUZZER], Clear(s, led, buz).rows[r][BUZZER];
      && CellOk(c)
      && (ClearsBuzzer(s.rows, r, buz) ==> Pending(c) == [false])
      && (Drops(s.current, r, buz) ==> Pending(c) == [])
      && (!ClearsBuzzer(s.rows, r, buz) && !Drops(s.current, r, buz) ==>
            if ClearsSomeLed(s.rows, r, led) && b.cad == CAD_OFF then Pending(c) == [] else c == b)
  {
    var rows := ClearLedPart(s.rows, s.current, led);
    assert Clear(s, led, buz).rows == ClearBuzzerPart(rows, s.current, buz) && CellOk(s.rows[r][BUZZER]);
    LedPart(s.rows, s.current, led, r);
    BuzzerPart(rows, s.current, buz, r);
    StoppedPending(s.rows[r][BUZZER]);
    hide ClearLedPart, ClearBuzzerPart, Clear, Valid, Pending, ClearsLed, TableOk;
  }

  lemma StoppedPending(c: Cell)
    requires CellOk(c)
    ensures CellOk(Stopped(c, 1)) && Pending(Stopped(c, 1)) == [false]
    ensures CellOk(Stopped(c, 0)) && Pending(Stopped(c, 0)) == []
    ensures Pending(Stopped(c, 1).(cycles := 0)) == [] && Pending(c.(cycles := 0)) == []
    ensures Pending(Stopped(c, 0).(cycles := 0)) == []
  {
    OneBitOff(Stopped(c, 1));
  }

  // What the two halves do to the cells of one row.
  lemma LedPart(rows: seq<seq<Cell>>, current: nat, led: nat, r: nat)
    requires Shape(rows) && current < ROWS && r < ROWS
    ensures var row, out := rows[r], ClearLedPart(rows, current, led)[r];
      && out[BUZZER] == (if ClearsSomeLed(rows, r, led) && row[BUZZER].cad == CAD_OFF then row[BUZZER].(cycles := 0)
                         else row[BUZZER])
      && forall pin | pin == RED_LED || pin == GREEN_LED ::
           out[pin] == if ClearsLed(rows, r, pin, led) then Stopped(row[pin], 1)
                       else if Drops(current, r, led) then Stopped(row[pin], 0) else row[pin]
  {
    if led < RESP_MAX {
      ResponsesAreSound(led, BUZZER);
    }
    hide RESPONSES;
  }

  lemma BuzzerPart(rows: seq<seq<Cell>>, current: nat, buz: nat, r: nat)
    requires Shape(rows) && current < ROWS && r < ROWS
    ensures var row, out := rows[r], ClearBuzzerPart(rows, current, buz)[r];
      && out[BUZZER] == (if ClearsBuzzer(rows, r, buz) then Stopped(row[BUZZER], 1)
                         else if Drops(current, r, buz) then Stopped(row[BUZZER], 0) else row[BUZZER])
      && forall pin | pin == RED_LED || pin == GREEN_LED ::
           out[pin] == if ClearsBuzzer(rows, r, buz) && row[RED_LED].cad == row[GREEN_LED].cad == CAD_OFF then
                         row[pin].(cycles := 0)
                       else row[pin]
  {
    if buz < RESP_MAX {
      ResponsesAreSound(buz, BUZZER);
    }
    hide RESPONSES;
  }

  lemma OneBitOff(c: Cell)
    requires c.cad == CAD_OFF && c.bits == 1 && c.pos == 0 && c.cycles == 1
    ensures Pending(c) == [false]
  {
    assert Pattern(c) == [false];
  }
}
