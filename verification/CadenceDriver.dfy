/** The cadence driver itself (MxGpioDrv.c): its table, the row that plays, and the timer routines. */
module CadenceDriver {
  import opened Basics
  import opened CadenceState
  import opened CadenceRuns

  // What the first n outputs of a row are driven with.
  ghost function FirstDrives(r: nat, row: seq<Cell>, n: nat): seq<Drive>
    requires |row| == PINS && n <= PINS
  {
    if n == 0 then [] else FirstDrives(r, row, n - 1) + PinDrive(r, n - 1, row[n - 1])
  }

  lemma AllDrives(r: nat, row: seq<Cell>)
    requires |row| == PINS
    ensures FirstDrives(r, row, PINS) == RowDrives(r, row)
  {
    assert FirstDrives(r, row, 1) == PinDrive(r, BUZZER, row[BUZZER]);
    assert FirstDrives(r, row, 2) == FirstDrives(r, row, 1) + PinDrive(r, RED_LED, row[RED_LED]);
  }

  // The row when its first n outputs have played.
  ghost function FirstAdvanced(row: seq<Cell>, n: nat): (r: seq<Cell>)
    requires |row| == PINS && n <= PINS
    ensures |r| == PINS && forall p :: n <= p < PINS ==> r[p] == row[p]
  {
    if n == 0 then row else FirstAdvanced(row, n - 1)[n - 1 := Advance(row[n - 1])]
  }

  lemma AllAdvanced(row: seq<Cell>)
    requires |row| == PINS
    ensures FirstAdvanced(row, PINS) == AdvanceRow(row)
  {
    hide Advance;
    assert FirstAdvanced(row, 1) == row[0 := Advance(row[0])];
    assert FirstAdvanced(row, 2) == FirstAdvanced(row, 1)[1 := Advance(row[1])];
  }

  // One more output.
  lemma OneMorePlays(rows: seq<seq<Cell>>, now: seq<seq<Cell>>, r: nat, n: nat)
    requires Shape(rows) && r < ROWS && n < PINS && now == rows[r := FirstAdvanced(rows[r], n)]
    ensures Shape(now) && now[r][n] == rows[r][n]
    ensures now[r := now[r][n := Advance(now[r][n])]] == rows[r := FirstAdvanced(rows[r], n + 1)]
    ensures FirstDrives(r, rows[r], n + 1) == FirstDrives(r, rows[r], n) + PinDrive(r, n, now[r][n])
  {
    hide Advance, PinDrive;
  }

  lemma NonePlayed(rows: seq<seq<Cell>>, r: nat)
    requires Shape(rows) && r < ROWS
    ensures rows == rows[r := FirstAdvanced(rows[r], 0)] && FirstDrives(r, rows[r], 0) == []
  {
  }

  class Driver {
    const table: array<seq<Cell>>
    var current: nat
    var filling: bool
    // The pins as they were driven, on behalf of which row.
    var log: seq<Drive>

    ghost predicate Sound()
      reads this, table
    {
      table.Length == ROWS && Valid(Now())
    }

    ghost function Now(): State
      reads this, table
    {
      State(table[..], current, filling)
    }

    // The driver comes up with the idle response in the last row.
    constructor ()
      ensures Sound() && fresh(table) && log == []
      ensures Now() == Step(Step(Blank(), SetLeds(IDLE_RESP)), SetBuzzer(IDLE_RESP))
    {
      table := new seq<Cell>[ROWS](r => [BLANK_CELL, BLANK_CELL, BLANK_CELL]);
      current, filling, log := IDLE_ROW, false, [];
      new;
      assert table[..] == Blank().rows;
      hide Step, Valid;
      var a := SetLedCad(IDLE_RESP);
      var b := SetBuzzerCad(IDLE_RESP);
    }

    method UpdateCadPriority()
      requires table.Length == ROWS && TableOk(table[..]) && current < ROWS
      modifies this`current
      ensures Now() == Update(old(Now()))
      ensures (forall r :: 0 <= r < ROWS ==> !Busy(table[r])) ==> current == old(current)
      ensures forall r :: 0 <= r < ROWS && Busy(table[r]) ==> current <= r && Busy(table[current])
    {
      var jobPriority, exitF := 0, false;
      while jobPriority < ROWS && !exitF
        invariant jobPriority <= ROWS
        invariant if exitF then current == FirstBusy(table[..], 0) < ROWS
                  else current == old(current) && FirstBusy(table[..], 0) == FirstBusy(table[..], jobPriority)
        decreases ROWS - jobPriority, !exitF
      {
        var respIndex := 0;
        while respIndex < PINS && !exitF
          invariant respIndex <= PINS
          invariant exitF ==> Busy(table[jobPriority]) && current == jobPriority
          invariant !exitF ==>
                      current == old(current) && forall p :: 0 <= p < respIndex ==> table[jobPriority][p].cycles == 0
          decreases PINS - respIndex, !exitF
        {
          if table[jobPriority][respIndex].cycles > 0 {
            exitF := true;
            current := jobPriority;
          } else {
            respIndex := respIndex + 1;
          }
        }
        if !exitF {
          jobPriority := jobPriority + 1;
        }
      }
    }

    method FillStructOfLedBuz(resp: nat, output: nat)
      requires Sound()
      modifies this`current, this`filling, table
      ensures Sound()
      ensures Now() == if resp < RESP_MAX && output < PINS then Fill(old(Now()), resp, output) else old(Now())
    {
      if resp < RESP_MAX && output < PINS {
        FillIsValid(Now(), resp, output);
        ResponsesAreSound(resp, output);
        filling := true;
        var acPro, job := PRIORITIES[resp], RESPONSES[resp][output];
        table[acPro] := table[acPro][output := Cell(job.cad, job.cycles, 0, job.bits, resp)];
        assert table[..] == old(table[..])[acPro := table[acPro]];
        UpdateCadPriority();
      }
    }

    method SetLedCad(resp: nat) returns (ret: int)
      requires Sound()
      modifies this`current, this`filling, table
      ensures Sound() && Now() == Step(old(Now()), SetLeds(resp)) && ret == if resp >= RESP_MAX then -1 else 0
    {
      if resp >= RESP_MAX {
        return -1;
      }
      FillStructOfLedBuz(resp, RED_LED);
      FillStructOfLedBuz(resp, GREEN_LED);
      return 0;
    }

    method SetBuzzerCad(resp: nat) returns (ret: int)
      requires Sound()
      modifies this`current, this`filling, table
      ensures Sound() && Now() == Step(old(Now()), SetBuzzer(resp)) && ret == if resp > RESP_MAX then -1 else 0
    {
      if resp > RESP_MAX {
        return -1;
      }
      FillStructOfLedBuz(resp, BUZZER);
      return 0;
    }

    method SyncBuzLedCad()
      requires Sound()
      modifies this`filling
      ensures Sound() && Now() == Step(old(Now()), SyncTimer)
    {
      filling := false;
    }

    // Writes the struct of one output of one row.
    method Put(r: nat, output: nat, c: Cell)
      requires table.Length == ROWS && Shape(table[..]) && r < ROWS && output < PINS
      modifies table
      ensures table[..] == old(table[..])[r := old(table[..])[r][output := c]]
    {
      table[r] := table[r][output := c];
    }

    // Clearing one LED of a row, wherever ClearCadence does it.
    method ClearOneLed(r: nat, output: nat)
      requires table.Length == ROWS && Shape(table[..]) && r < ROWS && RED_LED <= output < PINS
      modifies table
      ensures table[..] == old(table[..])[r := ClearLed(old(table[..])[r], output)]
    {
      Put(r, output, table[r][output].(cad := CAD_OFF, bits := 1, pos := 0));
      if table[r][BUZZER].cad == CAD_OFF {
        Put(r, output, table[r][output].(cycles := 1));
        Put(r, BUZZER, table[r][BUZZER].(cycles := 0));
      } else {
        Put(r, output, table[r][output].(cycles := 1));
      }
      assert table[r] == ClearLed(old(table[..])[r], output);
    }

    // Clearing the buzzer of a row.
    method ClearOneBuzzer(r: nat)
      requires table.Length == ROWS && Shape(table[..]) && r < ROWS
      modifies table
      ensures table[..] == old(table[..])[r := ClearBuzzer(old(table[..])[r])]
    {
      Put(r, BUZZER, table[r][BUZZER].(cad := CAD_OFF, bits := 1, pos := 0));
      if table[r][RED_LED].cad == CAD_OFF && table[r][GREEN_LED].cad == CAD_OFF {
        Put(r, BUZZER, table[r][BUZZER].(cycles := 1));
        Put(r, RED_LED, table[r][RED_LED].(cycles := 0));
        Put(r, GREEN_LED, table[r][GREEN_LED].(cycles := 0));
      } else {
        Put(r, BUZZER, table[r][BUZZER].(cycles := 1));
      }
      assert table[r] == ClearBuzzer(old(table[..])[r]);
    }

    method ClearLedResp(led: nat)
      requires table.Length == ROWS && Shape(table[..]) && current < ROWS
      modifies table
      ensures table[..] == ClearLedPart(old(table[..]), current, led)
    {
      if led < RESP_MAX {
        var acPro := PRIORITIES[led];
        if table[acPro][RED_LED].resp == led {
          ClearOneLed(acPro, RED_LED);
        }
        if table[acPro][GREEN_LED].resp == led {
          ClearOneLed(acPro, GREEN_LED);
        }
      } else if led == RESP_ALL {
        var acPro := 0;
        while acPro < IDLE_ROW
          invariant acPro <= IDLE_ROW && Shape(table[..])
          invariant forall r :: 0 <= r < ROWS ==>
                    table[r] == if r < acPro then ClearLeds(old(table[r])) else old(table[r])
        {
          ClearOneLed(acPro, RED_LED);
          ClearOneLed(acPro, GREEN_LED);
          acPro := acPro + 1;
        }
      } else if led == RESP_PRESENT {
        Put(current, RED_LED, Stopped(table[current][RED_LED], 0));
        Put(current, GREEN_LED, Stopped(table[current][GREEN_LED], 0));
      }
    }

    method ClearBuzzerResp(buz: nat)
      requires table.Length == ROWS && Shape(table[..]) && current < ROWS
      modifies table
      ensures table[..] == ClearBuzzerPart(old(table[..]), current, buz)
    {
      if buz < RESP_MAX {
        var acPro := PRIORITIES[buz];
        if table[acPro][BUZZER].resp == buz {
          ClearOneBuzzer(acPro);
        }
      } else if buz == RESP_ALL {
        var acPro := 0;
        while acPro < IDLE_ROW
          invariant acPro <= IDLE_ROW && Shape(table[..])
          invariant forall r :: 0 <= r < ROWS ==>
                    table[r] == if r < acPro then ClearBuzzer(old(table[r])) else old(table[r])
        {
          ClearOneBuzzer(acPro);
          acPro := acPro + 1;
        }
      } else if buz == RESP_PRESENT {
        Put(current, BUZZER, Stopped(table[current][BUZZER], 0));
      }
    }

    /** ClearCadence. */
    method ClearCadence(led: nat, buz: nat)
      requires Sound()
      modifies this`current, this`filling, table
      ensures Sound() && Now() == Step(old(Now()), ClearCad(led, buz))
    {
      ClearIsValid(Now(), led, buz);
      filling := true;
      ClearLedResp(led);
      ClearBuzzerResp(buz);
      UpdateCadPriority();
    }

    // One output of the row that plays, in the first loop of ProcBuzLedCad.
    method PlayOutput(output: nat)
      requires table.Length == ROWS && Shape(table[..]) && current < ROWS && output < PINS
      modifies table, this`log
      ensures var row := old(table[..])[current];
              table[..] == old(table[..])[current := row[output := Advance(row[output])]]
      ensures log == old(log) + PinDrive(current, output, old(table[..])[current][output])
    {
      if table[current][output].cycles > 0 {
        if table[current][output].pos >= table[current][output].bits {
          Put(current, output, table[current][output].(pos := 0));
          if table[current][output].cycles != INFINITE_CYCLE {
            Put(current, output, table[current][output].(cycles := table[current][output].cycles - 1));
          }
        }
        if table[current][output].cycles > 0 {
          log := log + [Drive(current, output, Bit(table[current][output].cad, table[current][output].pos))];
          Put(current, output, table[current][output].(pos := table[current][output].pos + 1));
        }
      }
      assert table[current] == old(table[..])[current][output := Advance(old(table[..])[current][output])];
    }

    // The first loop of ProcBuzLedCad.
    method PlayOutputs()
      requires table.Length == ROWS && Shape(table[..]) && current < ROWS
      modifies table, this`log
      ensures table[..] == old(table[..])[current := AdvanceRow(old(table[..])[current])]
      ensures log == old(log) + RowDrives(current, old(table[..])[current])
    {
      ghost var rows := table[..];
      AllDrives(current, rows[current]);
      AllAdvanced(rows[current]);
      NonePlayed(rows, current);
      hide *;
      var output := 0;
      while output < PINS
        invariant output <= PINS && table.Length == ROWS && Shape(rows) && current < ROWS
        invariant table[..] == rows[current := FirstAdvanced(rows[current], output)]
        invariant log == old(log) + FirstDrives(current, rows[current], output)
      {
        OneMorePlays(rows, table[..], current, output);
        PlayOutput(output);
        output := output + 1;
      }
    }

    // The second loop of ProcBuzLedCad.
    method LookForPlaying() returns (isNextCad: bool)
      requires table.Length == ROWS && Shape(table[..]) && current < ROWS
      modifies table
      ensures table[..] == old(table[..])[current := Settle(old(table[..])[current], 0)]
      ensures isNextCad == !Busy(table[current])
    {
      isNextCad := true;
      var output := 0;
      while output < PINS
        invariant output <= PINS && isNextCad && Shape(table[..])
        invariant table[..] == old(table[..])[current := table[current]]
        invariant Settle(table[current], output) == Settle(old(table[..])[current], 0)
        invariant forall q :: 0 <= q < output ==> table[current][q].cycles == 0
      {
        if table[current][output].cycles > 0 {
          isNextCad := false;
          break;
        } else {
          Put(current, output, table[current][output].(pos := 0));
        }
        output := output + 1;
      }
    }

    /** ProcBuzLedCad. */
    method ProcBuzLedCad()
      requires Sound()
      modifies this`current, this`log, table
      ensures Sound() && Now() == Step(old(Now()), CadTimer)
      ensures log == old(log) + Drives(old(Now()), CadTimer)
    {
      ghost var before, row := table[..], AdvanceRow(table[current]);
      TimerStep(Now());
      WrittenTwice(before, current, row, Settle(row, 0));
      hide Step, Valid, Drives, Tick, TickDrives, TableOk, Settle, AdvanceRow, RowDrives, Busy, FirstBusy;
      hide Shape, Update;
      if !filling {
        PlayOutputs();
        var isNextCad := LookForPlaying();
        if isNextCad {
          UpdateCadPriority();
        }
      }
    }
  }

  lemma WrittenTwice(rows: seq<seq<Cell>>, i: nat, x: seq<Cell>, y: seq<Cell>)
    requires Shape(rows) && i < ROWS && |x| == |y| == PINS
    ensures rows[i := x][i] == x && rows[i := x][i := y] == rows[i := y] && rows[i := y][i] == y
    ensures Shape(rows[i := x]) && Shape(rows[i := y])
  {
  }

  // What the timer routine has to bring about.
  lemma TimerStep(s: State)
    requires Valid(s)
    ensures Shape(s.rows) && s.current < ROWS && Step(s, CadTimer) == Tick(s) && Drives(s, CadTimer) == TickDrives(s)
    ensures s.filling ==> Tick(s) == s && TickDrives(s) == []
    ensures !s.filling ==>
              var row := Settle(AdvanceRow(s.rows[s.current]), 0);
              var rows := s.rows[s.current := row];
              && TickDrives(s) == RowDrives(s.current, s.rows[s.current])
              && TableOk(rows) && Shape(rows)
              && Tick(s) == if Busy(row) then s.(rows := rows) else Update(s.(rows := rows))
  {
    TickIsValid(s);
    assert Shape(s.rows) && s.current < ROWS;
    hide AdvanceRow, RowDrives, Settle, FirstBusy, Busy;
    if !s.filling {
      UpdateKeepsRows(s.(rows := s.rows[s.current := Settle(AdvanceRow(s.rows[s.current]), 0)]));
    }
  }

  lemma UpdateKeepsRows(s: State)
    requires Shape(s.rows)
    ensures Update(s).rows == s.rows
  {
  }
}
