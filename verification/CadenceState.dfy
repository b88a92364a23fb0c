/** The buzzer and LED cadence table (MxGpioDrv.c): what requests, clears and timer ticks do to it. */
module CadenceState {
  import opened Basics

  const ROWS := 9
  const PINS := 3
  const IDLE_ROW := 8
  const INFINITE_CYCLE := 0xFF
  const BUZZER := 0
  const RED_LED := 1
  const GREEN_LED := 2

  const RESP_MAX := 17
  const RESP_ALL := 18
  const RESP_PRESENT := 19
  const IDLE_RESP := 0

  const CAD_OFF := 0
  const CAD_ON := 0x7FFF
  const SMALL_PULSE := 0x0001
  const SHORT_PULSE := 0x0003
  const DOUBLE_PULSE := 0x0033
  const LONG_ON := 0x003F
  const LONG_PULSE := 0x000F

  /** What a response plays on one pin: the bits of cad from the lowest on, so many of them, so many times. */
  datatype Cadence = Cadence(cad: nat, bits: nat, cycles: nat)

  const OFF := Cadence(CAD_OFF, 1, INFINITE_CYCLE)

  // The rows of the three response tables: buzzer, red, green.
  const RESPONSES: seq<seq<Cadence>> := [
    [OFF, OFF, OFF],
    [Cadence(LONG_ON, 8, 1), Cadence(DOUBLE_PULSE, 8, 1), Cadence(CAD_OFF, 1, 1)],
    [OFF, OFF, Cadence(LONG_ON, 8, 0xFF)],
    [OFF, Cadence(LONG_ON, 8, 0xFF), OFF],
    [Cadence(0x0003, 12, 10), Cadence(0x0003, 12, 10), Cadence(CAD_OFF, 1, 10)],
    [Cadence(CAD_OFF, 1, 15), Cadence(LONG_PULSE, 8, 15), Cadence(CAD_OFF, 1, 15)],
    [Cadence(CAD_OFF, 1, 15), Cadence(0x0003, 8, 15), Cadence(CAD_OFF, 1, 15)],
    [OFF, Cadence(SHORT_PULSE, 4, 0xFF), OFF],
    [OFF, Cadence(CAD_ON, 15, 0xFF), Cadence(CAD_ON, 15, 0xFF)],
    [Cadence(SHORT_PULSE, 4, 30), Cadence(SHORT_PULSE, 4, 30), Cadence(CAD_OFF, 1, 30)],
    [Cadence(LONG_ON, 8, 15), Cadence(CAD_OFF, 1, 60), Cadence(SMALL_PULSE, 2, 60)],
    [Cadence(0x0003, 6, 20), Cadence(CAD_OFF, 1, 60), Cadence(SMALL_PULSE, 2, 60)],
    [Cadence(0x0003, 8, 15), Cadence(CAD_OFF, 1, 60), Cadence(SMALL_PULSE, 2, 60)],
    [OFF, OFF, Cadence(SMALL_PULSE, 2, 0xFF)],
    [OFF, Cadence(SMALL_PULSE, 2, 0xFF), Cadence(SMALL_PULSE, 2, 0xFF)],
    [OFF, Cadence(CAD_ON, 15, 0xFF), OFF],
    [Cadence(0x0001, 11, 0xFF), Cadence(SMALL_PULSE, 2, 0xFF), OFF]
  ]

  const PRIORITIES: seq<nat> := [8, 0, 6, 6, 4, 4, 4, 3, 0, 0, 1, 5, 5, 6, 2, 2, 0]

  /** Every table cadence has bits to play, and one that ends leaves its pin off. */
  lemma ResponsesAreSound(resp: nat, pin: nat)
    requires resp < RESP_MAX && pin < PINS
    ensures |RESPONSES| == |PRIORITIES| == RESP_MAX && |RESPONSES[resp]| == PINS && PRIORITIES[resp] < ROWS
    ensures var c := RESPONSES[resp][pin];
            && 1 <= c.bits <= 15 && 1 <= c.cycles <= INFINITE_CYCLE
            && (c.cycles < INFINITE_CYCLE ==> !Bit(c.cad, c.bits - 1))
  {
    assert !Bit(LONG_ON, 7) && !Bit(DOUBLE_PULSE, 7) && !Bit(LONG_PULSE, 7) && !Bit(CAD_OFF, 0) && !Bit(SMALL_PULSE, 1);
    assert !Bit(0x0003, 3) && !Bit(0x0003, 5) && !Bit(0x0003, 7) && !Bit(0x0003, 11);
  }

  /** One pin's job in one row. */
  datatype Cell = Cell(cad: nat, cycles: nat, pos: nat, bits: nat, resp: nat)

  datatype State = State(rows: seq<seq<Cell>>, current: nat, filling: bool)

  const BLANK_CELL := Cell(0, 0, 0, 0, 0)

  // The zeroed table before anything is requested.
  function Blank(): (s: State)
    ensures Valid(s)
  {
    State(seq(ROWS, r => [BLANK_CELL, BLANK_CELL, BLANK_CELL]), IDLE_ROW, false)
  }

  predicate Shape(rows: seq<seq<Cell>>) {
    |rows| == ROWS && forall r :: 0 <= r < |rows| ==> |rows[r]| == PINS
  }

  predicate CellOk(c: Cell) {
    c.pos <= c.bits && c.cycles <= INFINITE_CYCLE && (c.cycles > 0 ==> c.bits >= 1)
  }

  predicate RowOk(row: seq<Cell>) {
    |row| == PINS && forall p :: 0 <= p < |row| ==> CellOk(row[p])
  }

  predicate TableOk(rows: seq<seq<Cell>>) {
    |rows| == ROWS && forall r :: 0 <= r < |rows| ==> RowOk(rows[r])
  }

  // Some pin of the row still has cycles to play.
  predicate Busy(row: seq<Cell>)
    requires |row| == PINS
  {
    row[BUZZER].cycles > 0 || row[RED_LED].cycles > 0 || row[GREEN_LED].cycles > 0
  }

  /** What every run keeps: sound cells, and the row that plays is the least busy row whenever there is one. */
  predicate Valid(s: State) {
    && TableOk(s.rows)
    && s.current < ROWS
    && (forall r :: 0 <= r < ROWS && Busy(s.rows[r]) ==> s.current <= r && Busy(s.rows[s.current]))
  }

  // The first busy row from row r on.
  function FirstBusy(rows: seq<seq<Cell>>, r: nat): (f: nat)
    requires Shape(rows) && r <= ROWS
    ensures r <= f <= ROWS
    ensures forall x :: r <= x < f ==> !Busy(rows[x])
    ensures f < ROWS ==> Busy(rows[f])
    decreases ROWS - r
  {
    if r == ROWS || Busy(rows[r]) then r else FirstBusy(rows, r + 1)
  }

  /** UpdateCadPriority. */
  function NextPriority(rows: seq<seq<Cell>>, current: nat): nat
    requires Shape(rows)
  {
    var f := FirstBusy(rows, 0);
    if f < ROWS then f else current
  }

  function Update(s: State): State
    requires Shape(s.rows)
  {
    s.(current := NextPriority(s.rows, s.current))
  }

  /** FillStructOfLedBuz for a known response. */
  function Fill(s: State, resp: nat, pin: nat): State
    requires Shape(s.rows) && resp < RESP_MAX && pin < PINS
  {
    var r, c := PRIORITIES[resp], RESPONSES[resp][pin];
    Update(s.(rows := s.rows[r := s.rows[r][pin := Cell(c.cad, c.cycles, 0, c.bits, resp)]], filling := true))
  }

  // A job cut short: the pin is to be driven off for so many cycles.
  function Stopped(c: Cell, cycles: nat): Cell {
    c.(cad := CAD_OFF, bits := 1, pos := 0, cycles := cycles)
  }

  // One LED is cleared; it gets one more cycle, and a silent buzzer gets none.
  function ClearLed(row: seq<Cell>, pin: nat): (r: seq<Cell>)
    requires |row| == PINS && RED_LED <= pin < PINS
    ensures |r| == PINS
  {
    var stopped := row[pin := Stopped(row[pin], 1)];
    if row[BUZZER].cad == CAD_OFF then stopped[BUZZER := row[BUZZER].(cycles := 0)] else stopped
  }

  function ClearLeds(row: seq<Cell>): (r: seq<Cell>)
    requires |row| == PINS
    ensures |r| == PINS
  {
    ClearLed(ClearLed(row, RED_LED), GREEN_LED)
  }

  // The LEDs that show resp.
  function ClearLedsOf(row: seq<Cell>, resp: nat): (r: seq<Cell>)
    requires |row| == PINS
    ensures |r| == PINS
  {
    var red := if row[RED_LED].resp == resp then ClearLed(row, RED_LED) else row;
    if red[GREEN_LED].resp == resp then ClearLed(red, GREEN_LED) else red
  }

  function DropLeds(row: seq<Cell>): (r: seq<Cell>)
    requires |row| == PINS
    ensures |r| == PINS
  {
    row[RED_LED := Stopped(row[RED_LED], 0)][GREEN_LED := Stopped(row[GREEN_LED], 0)]
  }

  // The buzzer is cleared; it gets one more cycle, and dark LEDs get none.
  function ClearBuzzer(row: seq<Cell>): (r: seq<Cell>)
    requires |row| == PINS
    ensures |r| == PINS
  {
    var stopped := row[BUZZER := Stopped(row[BUZZER], 1)];
    if row[RED_LED].cad == CAD_OFF && row[GREEN_LED].cad == CAD_OFF then
      stopped[RED_LED := row[RED_LED].(cycles := 0)][GREEN_LED := row[GREEN_LED].(cycles := 0)]
    else stopped
  }

  // The first half of ClearCadence.
  function ClearLedPart(rows: seq<seq<Cell>>, current: nat, led: nat): (r: seq<seq<Cell>>)
    requires Shape(rows) && current < ROWS
    ensures Shape(r)
  {
    if led < RESP_MAX then
      rows[PRIORITIES[led] := ClearLedsOf(rows[PRIORITIES[led]], led)]
    else if led == RESP_ALL then
      seq(ROWS, r requires 0 <= r < ROWS => if r < IDLE_ROW then ClearLeds(rows[r]) else rows[r])
    else if led == RESP_PRESENT then
      rows[current := DropLeds(rows[current])]
    else rows
  }

  // The second half of ClearCadence.
  function ClearBuzzerPart(rows: seq<seq<Cell>>, current: nat, buz: nat): (r: seq<seq<Cell>>)
    requires Shape(rows) && current < ROWS
    ensures Shape(r)
  {
    if buz < RESP_MAX then
      var r := PRIORITIES[buz];
      if rows[r][BUZZER].resp == buz then rows[r := ClearBuzzer(rows[r])] else rows
    else if buz == RESP_ALL then
      seq(ROWS, r requires 0 <= r < ROWS => if r < IDLE_ROW then ClearBuzzer(rows[r]) else rows[r])
    else if buz == RESP_PRESENT then
      rows[current := rows[current][BUZZER := Stopped(rows[current][BUZZER], 0)]]
    else rows
  }

  /** ClearCadence. */
  function Clear(s: State, led: nat, buz: nat): State
    requires Shape(s.rows) && s.current < ROWS
  {
    var rows := ClearBuzzerPart(ClearLedPart(s.rows, s.current, led), s.current, buz);
    Update(s.(rows := rows, filling := true))
  }

  // A cell about to play: it starts over at the end of its bits, and that uses up a cycle unless it never ends.
  function Rewound(c: Cell): Cell {
    if c.cycles > 0 && c.pos >= c.bits then
      c.(pos := 0, cycles := if c.cycles == INFINITE_CYCLE then INFINITE_CYCLE else c.cycles - 1)
    else c
  }

  // What the tick drives the pin with, if anything.
  function Played(c: Cell): seq<bool> {
    var d := Rewound(c);
    if d.cycles > 0 then [Bit(d.cad, d.pos)] else []
  }

  function Advance(c: Cell): Cell {
    var d := Rewound(c);
    if d.cycles > 0 then d.(pos := d.pos + 1) else d
  }

  function AdvanceRow(row: seq<Cell>): (r: seq<Cell>)
    requires |row| == PINS
    ensures |r| == PINS
  {
    [Advance(row[BUZZER]), Advance(row[RED_LED]), Advance(row[GREEN_LED])]
  }

  // The loop that looks for a pin that is still playing and resets the others on its way.
  function Settle(row: seq<Cell>, p: nat): (r: seq<Cell>)
    requires |row| == PINS && p <= PINS
    ensures |r| == PINS
    ensures forall q :: 0 <= q < PINS ==> r[q] == row[q] || (row[q].cycles == 0 && r[q] == row[q].(pos := 0))
    decreases PINS - p
  {
    if p == PINS || row[p].cycles > 0 then row else Settle(row[p := row[p].(pos := 0)], p + 1)
  }

  /** ProcBuzLedCad. */
  function Tick(s: State): State
    requires Shape(s.rows) && s.current < ROWS
  {
    if s.filling then s
    else
      var row := Settle(AdvanceRow(s.rows[s.current]), 0);
      var t := s.(rows := s.rows[s.current := row]);
      if Busy(row) then t else Update(t)
  }

  /** A pin driven on behalf of a row. */
  datatype Drive = Drive(row: nat, pin: nat, on: bool)

  function PinDrive(r: nat, pin: nat, c: Cell): seq<Drive> {
    var p := Played(c);
    if p == [] then [] else [Drive(r, pin, p[0])]
  }

  function RowDrives(r: nat, row: seq<Cell>): seq<Drive>
    requires |row| == PINS
  {
    PinDrive(r, BUZZER, row[BUZZER]) + PinDrive(r, RED_LED, row[RED_LED]) + PinDrive(r, GREEN_LED, row[GREEN_LED])
  }

  // The drives of one tick.
  function TickDrives(s: State): seq<Drive>
    requires Shape(s.rows) && s.current < ROWS
  {
    if s.filling then [] else RowDrives(s.current, s.rows[s.current])
  }
}
