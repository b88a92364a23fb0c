/** The READ(10) and WRITE(10) command blocks and the attempts that a transfer makes (usb_storage.c). */
module UsbCommands {
  import opened Basics

  const SCSI_REQ_SENSE: Byte := 0x03
  const SCSI_READ10: Byte := 0x28
  const SCSI_WRITE10: Byte := 0x2A

  // The number of blocks that a four-byte address can tell apart.
  const LBA_LIMIT := 0x1_0000_0000

  /** The command block for count blocks from block start on. */
  function Command(op: Byte, lun: nat, start: nat, count: nat): (cmd: seq<Byte>)
    ensures |cmd| == 12
  {
    [op, lun * 32 % 256,
     start / 0x100_0000 % 256, start / 0x1_0000 % 256, start / 0x100 % 256, start % 256,
     0, count / 0x100 % 256, count % 256, 0, 0, 0]
  }

  // What the device reads from it.
  function Lba(cmd: seq<Byte>): nat
    requires |cmd| == 12
  {
    var a: nat, b: nat, c: nat, d: nat := cmd[2], cmd[3], cmd[4], cmd[5];
    ((a * 256 + b) * 256 + c) * 256 + d
  }

  function Count(cmd: seq<Byte>): nat
    requires |cmd| == 12
  {
    var a: nat, b: nat := cmd[7], cmd[8];
    a * 256 + b
  }

  function Unit(cmd: seq<Byte>): nat
    requires |cmd| == 12
  {
    cmd[1] / 32
  }

  /** The command addresses the logical unit exactly if its number fits the three bits it has there. */
  lemma CommandReachesUnitIff(op: Byte, lun: nat, start: nat, count: nat)
    ensures Unit(Command(op, lun, start, count)) == lun % 8
    ensures Unit(Command(op, lun, start, count)) == lun <==> lun < 8
    ensures var cmd := Command(op, lun, start, count); cmd[1] % 32 == cmd[6] == 0 && cmd[9..] == [0, 0, 0]
  {
    assert lun * 32 % 256 == lun % 8 * 32;
  }

  /** The device is asked for the right number of blocks, and for the right ones exactly when the address fits. */
  lemma CommandReachesBlockIff(op: Byte, lun: nat, start: nat, count: nat)
    requires count < 0x1_0000
    ensures Count(Command(op, lun, start, count)) == count
    ensures Lba(Command(op, lun, start, count)) == start % LBA_LIMIT
    ensures Lba(Command(op, lun, start, count)) == start <==> start < LBA_LIMIT
  {
    FourBytes(start);
    Fields(op, lun, start, count);
    hide Lba, Count, Command;
  }

  lemma Fields(op: Byte, lun: nat, start: nat, count: nat)
    ensures count < 0x1_0000 ==> Count(Command(op, lun, start, count)) == count
    ensures Lba(Command(op, lun, start, count))
         == ((start / 0x100_0000 % 256 * 256 + start / 0x1_0000 % 256) * 256 + start / 0x100 % 256) * 256 + start % 256
  {
  }

  lemma FourBytes(x: nat)
    ensures x % LBA_LIMIT
         == ((x / 0x100_0000 % 256 * 256 + x / 0x1_0000 % 256) * 256 + x / 0x100 % 256) * 256 + x % 256
  {
    var a, b, c := x / 0x100, x / 0x1_0000, x / 0x100_0000;
    assert x == a * 256 + x % 256;
    assert b == a / 256 && c == b / 256;
    assert a == b * 256 + a % 256 && b == c * 256 + b % 256;
    assert c == x / LBA_LIMIT * 256 + c % 256;
  }

  // Which way, and on which logical unit.
  datatype Access = Access(write: bool, unit: nat)

  /** One try to move count blocks from block lba on. */
  datatype Attempt = Attempt(how: Access, lba: nat, count: nat, ok: bool)

  // The failures at the start of a log.
  function Failures(log: seq<Attempt>): (n: nat)
    ensures n <= |log|
    ensures n < |log| ==> log[n].ok
    ensures forall i :: 0 <= i < n ==> !log[i].ok
  {
    if log == [] || log[0].ok then 0 else 1 + Failures(log[1..])
  }

  // The tries at one chunk: up to three, all alike, and no more after the first that succeeds.
  predicate Tries(log: seq<Attempt>, how: Access, start: nat, count: nat) {
    && 1 <= |log| <= 3
    && Failures(log) >= |log| - 1
    && (Failures(log) == |log| ==> |log| == 3)
    && forall i :: 0 <= i < |log| ==> log[i].how == how && log[i].lba == start % LBA_LIMIT && log[i].count == count
  }

  /** A transfer of blks blocks from start on that moves n of them: full chunks in order, then the rest, each tried
      up to three times, and nothing after a chunk that failed three times. */
  predicate Transfer(log: seq<Attempt>, how: Access, start: nat, blks: nat, max: nat, n: nat)
    requires max > 0
    decreases blks
  {
    if blks == 0 then log == [] && n == 0
    else
      var k, t := Min(blks, max), Failures(log) + 1;
      if t > 3 then |log| == 3 && Tries(log, how, start, k) && n == 0
      else
        && t <= |log| && n >= k
        && Tries(log[..t], how, start, k)
        && Transfer(log[t..], how, start + k, blks - k, max, n - k)
  }

  lemma {:induction false} FailuresOfPrefix(a: seq<Attempt>, b: seq<Attempt>)
    requires Failures(a) < |a|
    ensures Failures(a + b) == Failures(a)
  {
    assert (a + b)[0] == a[0];
    if !a[0].ok {
      assert (a + b)[1..] == a[1..] + b;
      FailuresOfPrefix(a[1..], b);
    }
  }

  // A number of full chunks.
  predicate Full(blks: nat, max: nat)
    requires max > 0
  {
    blks == 0 || (blks >= max && Full(blks - max, max))
  }

  // A transfer whose first chunk arrives.
  lemma FirstChunk(log: seq<Attempt>, how: Access, start: nat, blks: nat, max: nat, n: nat)
    requires max > 0 && blks > 0 && n > 0 && Transfer(log, how, start, blks, max, n)
    ensures var k, t := Min(blks, max), Failures(log) + 1;
            t <= |log| && n >= k && Arrives(log, t, how, start, k)
                && Transfer(log[t..], how, start + k, blks - k, max, n - k)
  {
  }

  predicate Arrives(log: seq<Attempt>, t: nat, how: Access, start: nat, count: nat) {
    0 < t <= |log| && t == Failures(log) + 1 <= 3 && Tries(log[..t], how, start, count)
  }

  lemma StillArrives(a: seq<Attempt>, b: seq<Attempt>, t: nat, how: Access, start: nat, count: nat)
    requires Arrives(a, t, how, start, count)
    ensures Arrives(a + b, t, how, start, count) && (a + b)[t..] == a[t..] + b
  {
    FailuresOfPrefix(a, b);
    assert (a + b)[..t] == a[..t];
  }

  lemma ThenTransfer(log: seq<Attempt>, t: nat, how: Access, start: nat, blks: nat, max: nat, n: nat)
    requires max > 0 && blks > 0 && n >= Min(blks, max) && Arrives(log, t, how, start, Min(blks, max))
    requires Transfer(log[t..], how, start + Min(blks, max), blks - Min(blks, max), max, n - Min(blks, max))
    ensures Transfer(log, how, start, blks, max, n)
  {
  }

  lemma NoChunk(a: seq<Attempt>, b: seq<Attempt>, how: Access, start: nat, max: nat)
    requires max > 0 && Transfer(a, how, start, 0, max, 0)
    ensures a + b == b
  {
  }

  // Full chunks that all arrived, then another transfer from where they end.
  lemma {:induction false} TransferConcat(a: seq<Attempt>, b: seq<Attempt>, how: Access, start: nat, max: nat,
                                          full: nat, more: nat, m: nat)
    requires max > 0 && Full(full, max) && Transfer(a, how, start, full, max, full)
    requires Transfer(b, how, start + full, more, max, m)
    ensures Transfer(a + b, how, start, full + more, max, full + m)
    decreases full
  {
    hide Transfer, Arrives, Failures;
    if full == 0 {
      NoChunk(a, b, how, start, max);
    } else {
      var t := Failures(a) + 1;
      FirstChunk(a, how, start, full, max, full);
      StillArrives(a, b, t, how, start, max);
      TransferConcat(a[t..], b, how, start + max, max, full - max, more, m);
      ThenTransfer(a + b, t, how, start, full + more, max, full + m);
    }
  }

  // One chunk is a transfer by itself.
  lemma OneChunk(log: seq<Attempt>, how: Access, start: nat, count: nat, max: nat, rest: nat)
    requires 0 < count <= max && Tries(log, how, start, count)
    ensures log[|log| - 1].ok && rest == 0 ==> Transfer(log, how, start, count, max, count)
    ensures !log[|log| - 1].ok && (rest == 0 || count == max) ==> Transfer(log, how, start, count + rest, max, 0)
  {
    if log[|log| - 1].ok {
      assert log[..Failures(log) + 1] == log && log[Failures(log) + 1..] == [];
    }
  }

  /** Every attempt asks for some of the blocks that were requested, and for no others, if their addresses fit. */
  lemma {:induction false} OnlyRequestedBlocks(log: seq<Attempt>, how: Access, start: nat, blks: nat, max: nat,
                                               n: nat, i: nat)
    requires max > 0 && Transfer(log, how, start, blks, max, n) && i < |log| && start + blks <= LBA_LIMIT
    ensures log[i].how == how && 0 < log[i].count <= max
    ensures start <= log[i].lba && log[i].lba + log[i].count <= start + blks
    decreases blks
  {
    hide Failures;
    if blks > 0 {
      var k, t := Min(blks, max), Failures(log) + 1;
      if t <= 3 && i >= t {
        assert log[i] == log[t..][i - t];
        OnlyRequestedBlocks(log[t..], how, start + k, blks - k, max, n - k, i - t);
      } else if t <= 3 {
        assert log[i] == log[..t][i];
      }
    }
  }

  /** The transfer is complete exactly when its last attempt succeeded; otherwise it ends with three failures in a
      row. */
  lemma {:induction false} CompleteIffLastSucceeds(log: seq<Attempt>, how: Access, start: nat, blks: nat, max: nat,
                                                   n: nat)
    requires max > 0 && blks > 0 && Transfer(log, how, start, blks, max, n)
    ensures n <= blks && log != [] && (n == blks <==> log[|log| - 1].ok)
    ensures n < blks ==> |log| >= 3 && !log[|log| - 1].ok && !log[|log| - 2].ok && !log[|log| - 3].ok
    decreases blks
  {
    var k, t := Min(blks, max), Failures(log) + 1;
    if t <= 3 {
      assert log[..t][t - 1].ok;
      if blks > k {
        var rest := log[t..];
        CompleteIffLastSucceeds(rest, how, start + k, blks - k, max, n - k);
        assert log[|log| - 1] == rest[|rest| - 1];
        assert |rest| >= 3 ==> log[|log| - 2] == rest[|rest| - 2] && log[|log| - 3] == rest[|rest| - 3];
      }
    }
  }

  // The chunks of a transfer.
  function Chunks(blks: nat, max: nat): nat
    requires max > 0
  {
    if blks == 0 then 0 else 1 + Chunks(blks - Min(blks, max), max)
  }

  lemma OneMore(x: int, max: int)
    requires x >= 0 && max > 0
    ensures (x + max) / max == x / max + 1
  {
    var q, r := x / max, x % max;
    assert x == q * max + r;
    assert x + max == (q + 1) * max + r;
    Divided(q + 1, max, r);
  }

  lemma Few(blks: int, max: int)
    requires 0 <= blks <= max && max > 0
    ensures (blks + max - 1) / max == if blks == 0 then 0 else 1
  {
    if blks > 0 {
      OneMore(blks - 1, max);
    }
  }

  lemma {:induction false} ChunksRoundUp(blks: nat, max: nat)
    requires max > 0
    ensures Chunks(blks, max) == (blks + max - 1) / max
    decreases blks
  {
    if blks <= max {
      Few(blks, max);
    } else {
      ChunksRoundUp(blks - max, max);
      OneMore(blks - 1, max);
    }
  }

  /** There are at most three attempts for each chunk. */
  lemma {:induction false} AttemptsAreBounded(log: seq<Attempt>, how: Access, start: nat, blks: nat, max: nat, n: nat)
    requires max > 0 && Transfer(log, how, start, blks, max, n)
    ensures |log| <= 3 * Chunks(blks, max) == 3 * ((blks + max - 1) / max)
    decreases blks
  {
    ChunksRoundUp(blks, max);
    if blks > 0 {
      var k, t := Min(blks, max), Failures(log) + 1;
      if t <= 3 {
        AttemptsAreBounded(log[t..], how, start + k, blks - k, max, n - k);
      }
    }
  }
}
