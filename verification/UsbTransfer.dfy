/** Block reads and writes over a transport that may fail (usb_storage.c): usb_stor_read and usb_stor_write. */
module UsbTransfer {
  import opened Basics
  import opened UsbCommands

  // Where a command's data go: main memory from an address on, or the sense buffer.
  datatype Pointer = Memory(addr: nat) | SenseBuf

  function Bytes(blocks: nat, blksz: nat): nat {
    blocks * blksz
  }

  lemma MoreBlocks(a: nat, b: nat, blksz: nat)
    ensures Bytes(a + b, blksz) == Bytes(a, blksz) + Bytes(b, blksz)
  {
  }

  lemma FewerBlocks(a: nat, b: nat, blksz: nat)
    requires a <= b
    ensures Bytes(a, blksz) <= Bytes(b, blksz)
  {
    MoreBlocks(a, b - a, blksz);
  }

  // b is a except from from up to to.
  ghost predicate SameOutside(a: seq<Byte>, b: seq<Byte>, from: nat, to: nat) {
    |a| == |b| && forall i :: 0 <= i < |a| && (i < from || to <= i) ==> a[i] == b[i]
  }

  // The log grew by attempts at one chunk that all failed.
  ghost predicate FailedSoFar(before: seq<Attempt>, now: seq<Attempt>, how: Access, start: nat, count: nat,
                              tries: nat) {
    && |now| == |before| + tries && now[..|before|] == before
    && forall i :: |before| <= i < |now| ==> now[i] == Attempt(how, start % LBA_LIMIT, count, false)
  }

  // The log grew by the tries at one chunk.
  ghost predicate Tried(before: seq<Attempt>, now: seq<Attempt>, how: Access, start: nat, count: nat, ok: bool) {
    && |before| < |now| && now[..|before|] == before
    && Tries(now[|before|..], how, start, count)
    && now[|now| - 1].ok == ok
  }

  lemma {:induction false} OnlyFailures(log: seq<Attempt>)
    requires forall i :: 0 <= i < |log| - 1 ==> !log[i].ok
    ensures log != [] ==> Failures(log) == if log[|log| - 1].ok then |log| - 1 else |log|
  {
    if |log| > 1 {
      OnlyFailures(log[1..]);
    }
  }

  lemma LastTry(before: seq<Attempt>, now: seq<Attempt>, how: Access, start: nat, count: nat, tries: nat, ok: bool)
    requires FailedSoFar(before, now, how, start, count, tries) && tries <= 2 && (!ok ==> tries == 2)
    ensures Tried(before, now + [Attempt(how, start % LBA_LIMIT, count, ok)], how, start, count, ok)
  {
    var all := now + [Attempt(how, start % LBA_LIMIT, count, ok)];
    OnlyFailures(all[|before|..]);
    assert all[..|before|] == now[..|before|];
  }

  // The log grew by done blocks in full chunks.
  ghost predicate LogSoFar(before: seq<Attempt>, now: seq<Attempt>, how: Access, blknr: nat, max: nat, done: nat) {
    && max > 0 && |before| <= |now| && now[..|before|] == before
    && Full(done, max) && Transfer(now[|before|..], how, blknr, done, max, done)
  }

  // The log grew by a whole transfer that moved n blocks.
  ghost predicate Logged(before: seq<Attempt>, now: seq<Attempt>, how: Access, blknr: nat, blkcnt: nat, max: nat,
                         n: nat) {
    && max > 0 && |before| <= |now| && now[..|before|] == before
    && Transfer(now[|before|..], how, blknr, blkcnt, max, n) && n <= blkcnt
  }

  lemma LogChunk(before: seq<Attempt>, now: seq<Attempt>, after: seq<Attempt>, how: Access, blknr: nat, max: nat,
                 done: nat, left: nat, ok: bool)
    requires LogSoFar(before, now, how, blknr, max, done) && 0 < left
    requires Tried(now, after, how, blknr + done, Min(left, max), ok)
    ensures ok && left > max ==> LogSoFar(before, after, how, blknr, max, done + max)
    ensures ok && left <= max ==> Logged(before, after, how, blknr, done + left, max, done + left)
    ensures !ok ==> Logged(before, after, how, blknr, done + left, max, done)
  {
    LogGrows(before, now, after, how, blknr, max, done, left, ok);
    hide Full, Tried, Transfer;
  }

  lemma LogGrows(before: seq<Attempt>, now: seq<Attempt>, after: seq<Attempt>, how: Access, blknr: nat, max: nat,
                 done: nat, left: nat, ok: bool)
    requires LogSoFar(before, now, how, blknr, max, done) && 0 < left
    requires Tried(now, after, how, blknr + done, Min(left, max), ok)
    ensures max > 0 && |before| <= |after| && after[..|before|] == before && Full(done + max, max)
    ensures ok ==> Transfer(after[|before|..], how, blknr, done + Min(left, max), max, done + Min(left, max))
    ensures !ok ==> Transfer(after[|before|..], how, blknr, done + left, max, done)
  {
    TriedMore(now, after, how, blknr + done, Min(left, max), ok);
    Grown(before, now, after);
    OneMoreFull(done, max);
    hide Tries, Full, Tried, Transfer, Min;
    AfterChunk(now[|before|..], after[|now|..], how, blknr, max, done, left, ok);
  }

  lemma TriedMore(now: seq<Attempt>, after: seq<Attempt>, how: Access, start: nat, count: nat, ok: bool)
    requires Tried(now, after, how, start, count, ok)
    ensures |now| < |after| && after[..|now|] == now
    ensures var more := after[|now|..]; Tries(more, how, start, count) && more != [] && more[|more| - 1].ok == ok
  {
    hide Tries;
  }

  lemma OneMoreFull(done: nat, max: nat)
    requires max > 0 && Full(done, max)
    ensures Full(done + max, max)
  {
  }

  lemma AfterChunk(first: seq<Attempt>, more: seq<Attempt>, how: Access, blknr: nat, max: nat, done: nat, left: nat,
                   ok: bool)
    requires max > 0 && Full(done, max) && Transfer(first, how, blknr, done, max, done) && 0 < left
    requires Tries(more, how, blknr + done, Min(left, max)) && more[|more| - 1].ok == ok
    ensures ok ==> Transfer(first + more, how, blknr, done + Min(left, max), max, done + Min(left, max))
    ensures !ok ==> Transfer(first + more, how, blknr, done + left, max, done)
  {
    hide Transfer, Tries, Full;
    var k := Min(left, max);
    if ok {
      OneChunk(more, how, blknr + done, k, max, 0);
      TransferConcat(first, more, how, blknr, max, done, k, k);
    } else {
      OneChunk(more, how, blknr + done, k, max, left - k);
      TransferConcat(first, more, how, blknr, max, done, left, 0);
    }
  }

  lemma Grown<T>(before: seq<T>, now: seq<T>, after: seq<T>)
    requires |before| <= |now| <= |after| && now[..|before|] == before && after[..|now|] == now
    ensures after[..|before|] == before && after[|before|..] == now[|before|..] + after[|now|..]
  {
    assert after[..|before|] == after[..|now|][..|before|];
    assert after == after[..|now|] + after[|now|..] && now == before + now[|before|..];
  }

  // len bytes of a from ai on are those of b from bi on.
  ghost predicate Copied(a: seq<Byte>, ai: nat, b: seq<Byte>, bi: nat, len: nat) {
    ai + len <= |a| && bi + len <= |b| && a[ai..ai + len] == b[bi..bi + len]
  }

  // A chunk changes nothing of what was copied before it, and may extend it.
  lemma CopyMore(a: seq<Byte>, a': seq<Byte>, ai: nat, b: seq<Byte>, bi: nat, len: nat, more: nat)
    requires (len > 0 ==> Copied(a, ai, b, bi, len)) && SameOutside(a, a', ai + len, ai + len + more)
    ensures len > 0 ==> Copied(a', ai, b, bi, len)
    ensures Copied(a', ai + len, b, bi + len, more) ==> Copied(a', ai, b, bi, len + more)
  {
    if len > 0 {
      assert a'[ai..ai + len] == a[ai..ai + len];
    }
    if Copied(a', ai + len, b, bi + len, more) {
      assert a'[ai..ai + len + more] == a'[ai..ai + len] + a'[ai + len..ai + len + more];
      assert b[bi..bi + len + more] == b[bi..bi + len] + b[bi + len..bi + len + more];
      assert len == 0 ==> a'[ai..ai + len] == b[bi..bi + len];
    }
  }

  lemma NothingYet(log: seq<Attempt>, a: seq<Byte>, how: Access, blknr: nat, max: nat, from: nat, to: nat)
    requires max > 0
    ensures LogSoFar(log, log, how, blknr, max, 0) && Logged(log, log, how, blknr, 0, max, 0)
            && SameOutside(a, a, from, to)
  {
  }

  // A chunk after done blocks, within a transfer of done + left blocks whose bytes go to a from ai on and come from b.
  lemma DataChunk(a0: seq<Byte>, a: seq<Byte>, a': seq<Byte>, ai: nat, b: seq<Byte>, bi: nat,
                  done: nat, small: nat, left: nat, blksz: nat, fits: bool)
    requires SameOutside(a0, a, ai, ai + Bytes(done + left, blksz)) && small <= left
    requires fits && done > 0 ==> Copied(a, ai, b, bi, Bytes(done, blksz))
    requires SameOutside(a, a', ai + Bytes(done, blksz), ai + Bytes(done, blksz) + Bytes(small, blksz))
    ensures SameOutside(a0, a', ai, ai + Bytes(done + left, blksz))
    ensures fits && done > 0 ==> Copied(a', ai, b, bi, Bytes(done, blksz))
    ensures fits && Copied(a', ai + Bytes(done, blksz), b, bi + Bytes(done, blksz), Bytes(small, blksz)) ==>
              Copied(a', ai, b, bi, Bytes(done + small, blksz))
  {
    MoreBlocks(done, small, blksz);
    FewerBlocks(done + small, done + left, blksz);
    assert Bytes(0, blksz) == 0;
    hide Bytes;
    hide Copied;
    if fits {
      CopyMore(a, a', ai, b, bi, Bytes(done, blksz), Bytes(small, blksz));
    }
  }

  // One more byte of a copy.
  lemma NextByte(dst: seq<Byte>, at: nat, src: seq<Byte>, from: nat, i: nat)
    requires at + i < |dst| && from + i < |src| && dst[at..at + i] == src[from..from + i]
    ensures dst[at + i := src[from + i]][at..at + i + 1] == src[from..from + i + 1]
  {
    assert src[from..from + i + 1] == src[from..from + i] + [src[from + i]];
    assert dst[at + i := src[from + i]][at..at + i + 1] == dst[at..at + i] + [src[from + i]];
  }

  class Storage {
    const blksz: nat
    const maxXfer: nat
    const memory: array<Byte>
    const senseBuf: array<Byte>
    // The blocks on the device, one after the other.
    var disk: seq<Byte>
    // The shared command block.
    var cmd: seq<Byte>
    var datalen: nat
    var pdata: Pointer
    var lun: nat
    // Every attempt to move data so far.
    var log: seq<Attempt>

    constructor (memory: array<Byte>, senseBuf: array<Byte>, disk: seq<Byte>, blksz: nat, maxXfer: nat, lun: nat)
      requires 0 < maxXfer < 0x1_0000 && senseBuf.Length >= 18 && memory != senseBuf
      ensures Sound() && log == [] && this.memory == memory && this.senseBuf == senseBuf
      ensures this.disk == disk && this.blksz == blksz && this.maxXfer == maxXfer && this.lun == lun
    {
      this.memory, this.senseBuf, this.disk := memory, senseBuf, disk;
      this.blksz, this.maxXfer, this.lun := blksz, maxXfer, lun;
      cmd, datalen, pdata, log := [], 0, SenseBuf, [];
    }

    ghost predicate Sound()
      reads this
    {
      0 < maxXfer < 0x1_0000 && senseBuf.Length >= 18 && memory != senseBuf
    }

    // What the device does with READ(10): it sends the whole chunk, or it fails and leaves anything in the chunk.  What
    // another logical unit sends is not known.
    method DeviceReads() returns (failed: bool)
      requires Sound() && |cmd| == 12 && pdata.Memory?
      requires datalen == Bytes(Count(cmd), blksz) && pdata.addr + datalen <= memory.Length
      modifies this`log, memory
      ensures log == old(log) + [Attempt(Access(false, Unit(cmd)), Lba(cmd), Count(cmd), !failed)]
      ensures SameOutside(old(memory[..]), memory[..], pdata.addr, pdata.addr + datalen)
      ensures !failed && Unit(cmd) == lun ==>
                && Bytes(Lba(cmd), blksz) + datalen <= |disk|
                && memory[pdata.addr..pdata.addr + datalen]
                   == disk[Bytes(Lba(cmd), blksz)..Bytes(Lba(cmd), blksz) + datalen]
    {
      hide Bytes, Lba, Count, Unit;
      var from := Bytes(Lba(cmd), blksz);
      failed := Unit(cmd) == lun && from + datalen > |disk|;
      if * {
        failed := true;
      }
      var known := !failed && Unit(cmd) == lun;
      var i := 0;
      while i < datalen
        invariant i <= datalen && log == old(log)
                  && SameOutside(old(memory[..]), memory[..], pdata.addr, pdata.addr + datalen)
        invariant known ==> memory[pdata.addr..pdata.addr + i] == disk[from..from + i]
      {
        if known {
          NextByte(memory[..], pdata.addr, disk, from, i);
          memory[pdata.addr + i] := disk[from + i];
        } else {
          memory[pdata.addr + i] := *;
        }
        i := i + 1;
      }
      log := log + [Attempt(Access(false, Unit(cmd)), Lba(cmd), Count(cmd), !failed)];
    }

    // And with WRITE(10), which on another logical unit leaves this one alone.
    method DeviceWrites() returns (failed: bool)
      requires Sound() && |cmd| == 12 && pdata.Memory?
      requires datalen == Bytes(Count(cmd), blksz) && pdata.addr + datalen <= memory.Length
      modifies this`log, this`disk
      ensures log == old(log) + [Attempt(Access(true, Unit(cmd)), Lba(cmd), Count(cmd), !failed)]
      ensures SameOutside(old(disk), disk, Bytes(Lba(cmd), blksz), Bytes(Lba(cmd), blksz) + datalen)
      ensures Unit(cmd) != lun ==> disk == old(disk)
      ensures !failed && Unit(cmd) == lun ==>
                && Bytes(Lba(cmd), blksz) + datalen <= |disk|
                && disk[Bytes(Lba(cmd), blksz)..Bytes(Lba(cmd), blksz) + datalen]
                   == memory[pdata.addr..pdata.addr + datalen]
    {
      hide Bytes, Lba, Count, Unit;
      var to, here := Bytes(Lba(cmd), blksz), Unit(cmd) == lun;
      failed := here && to + datalen > |disk|;
      if * {
        failed := true;
      }
      var i := 0;
      while here && i < datalen
        invariant i <= datalen && log == old(log) && SameOutside(old(disk), disk, to, to + datalen)
        invariant !here ==> disk == old(disk)
        invariant here && !failed ==>
                    to + datalen <= |disk| && disk[to..to + i] == memory[pdata.addr..pdata.addr + i]
      {
        if !failed {
          NextByte(disk, to, memory[..], pdata.addr, i);
          disk := disk[to + i := memory[pdata.addr + i]];
        } else if to + i < |disk| {
          var junk: Byte := *;
          disk := disk[to + i := junk];
        }
        i := i + 1;
      }
      log := log + [Attempt(Access(true, Unit(cmd)), Lba(cmd), Count(cmd), !failed)];
    }

    // REQUEST SENSE: something about the last failure.
    method DeviceSenses() returns (failed: bool)
      requires Sound() && datalen <= senseBuf.Length
      modifies senseBuf
    {
      var i := 0;
      while i < datalen {
        senseBuf[i] := *;
        i := i + 1;
      }
      failed := *;
    }

    /** The transport: the device does what the bytes of the command block say.  28 (hex) reads, 2A writes, 03 gives
        sense data, and nothing else moves data. */
    method Transport() returns (failed: bool)
      requires Sound() && |cmd| == 12
      requires cmd[0] == 0x28 || cmd[0] == 0x2A ==>
                 pdata.Memory? && datalen == Bytes(Count(cmd), blksz) && pdata.addr + datalen <= memory.Length
      requires cmd[0] == 0x03 ==> pdata == SenseBuf && datalen == cmd[4] <= senseBuf.Length
      modifies this`log, this`disk, memory, senseBuf
      ensures cmd[0] != 0x2A ==> disk == old(disk)
      ensures cmd[0] != 0x28 ==> memory[..] == old(memory[..])
      ensures cmd[0] != 0x28 && cmd[0] != 0x2A ==> log == old(log)
      ensures cmd[0] == 0x28 || cmd[0] == 0x2A ==>
                log == old(log) + [Attempt(Access(cmd[0] == 0x2A, Unit(cmd)), Lba(cmd), Count(cmd), !failed)]
      ensures cmd[0] == 0x28 ==>
                && SameOutside(old(memory[..]), memory[..], pdata.addr, pdata.addr + datalen)
                && (!failed && Unit(cmd) == lun ==>
                      Copied(memory[..], pdata.addr, disk, Bytes(Lba(cmd), blksz), datalen))
      ensures cmd[0] == 0x2A ==>
                && SameOutside(old(disk), disk, Bytes(Lba(cmd), blksz), Bytes(Lba(cmd), blksz) + datalen)
                && (!failed && Unit(cmd) == lun ==>
                      Copied(disk, Bytes(Lba(cmd), blksz), memory[..], pdata.addr, datalen))
    {
      hide Bytes, Lba, Count, Unit, SameOutside;
      if cmd[0] == 0x28 {
        failed := DeviceReads();
      } else if cmd[0] == 0x2A {
        failed := DeviceWrites();
      } else if cmd[0] == 0x03 {
        failed := DeviceSenses();
      } else {
        failed := *;
      }
    }

    // usb_request_sense: the same command block is used, and its data pointer is put back.
    method RequestSense()
      requires Sound()
      modifies this`cmd, this`datalen, this`pdata, this`log, this`disk, memory, senseBuf
      ensures pdata == old(pdata) && datalen == 18
      ensures cmd == [0x03, lun * 32 % 256, 0, 0, 18, 0, 0, 0, 0, 0, 0, 0]
      ensures log == old(log) && disk == old(disk) && memory[..] == old(memory[..])
    {
      var ptr := pdata;
      cmd := [SCSI_REQ_SENSE, lun * 32 % 256, 0, 0, 18, 0, 0, 0, 0, 0, 0, 0];
      datalen := 18;
      pdata := SenseBuf;
      var ignored := Transport();
      pdata := ptr;
    }

    // usb_read_10
    method Read10(start: nat, blocks: nat) returns (failed: bool)
      requires Sound() && pdata.Memory? && blocks < 0x1_0000
      requires datalen == Bytes(blocks, blksz) && pdata.addr + datalen <= memory.Length
      modifies this`cmd, this`log, this`disk, memory, senseBuf
      ensures cmd == Command(SCSI_READ10, lun, start, blocks)
      ensures log == old(log) + [Attempt(Access(false, lun % 8), start % LBA_LIMIT, blocks, !failed)]
      ensures disk == old(disk) && SameOutside(old(memory[..]), memory[..], pdata.addr, pdata.addr + datalen)
      ensures !failed && start < LBA_LIMIT && lun < 8 ==>
                Copied(memory[..], pdata.addr, disk, Bytes(start, blksz), datalen)
    {
      cmd := Command(SCSI_READ10, lun, start, blocks);
      CommandReachesBlockIff(SCSI_READ10, lun, start, blocks);
      CommandReachesUnitIff(SCSI_READ10, lun, start, blocks);
      assert cmd[0] == 0x28;
      hide Command, Lba, Count, Unit, Bytes, SameOutside, Copied;
      failed := Transport();
    }

    // usb_write_10
    method Write10(start: nat, blocks: nat) returns (failed: bool)
      requires Sound() && pdata.Memory? && blocks < 0x1_0000
      requires datalen == Bytes(blocks, blksz) && pdata.addr + datalen <= memory.Length
      modifies this`cmd, this`log, this`disk, memory, senseBuf
      ensures cmd == Command(SCSI_WRITE10, lun, start, blocks)
      ensures log == old(log) + [Attempt(Access(true, lun % 8), start % LBA_LIMIT, blocks, !failed)]
      ensures memory[..] == old(memory[..])
      ensures SameOutside(old(disk), disk, Bytes(start % LBA_LIMIT, blksz), Bytes(start % LBA_LIMIT, blksz) + datalen)
      ensures !failed && start < LBA_LIMIT && lun < 8 ==>
                Copied(disk, Bytes(start, blksz), memory[..], pdata.addr, datalen)
    {
      cmd := Command(SCSI_WRITE10, lun, start, blocks);
      CommandReachesBlockIff(SCSI_WRITE10, lun, start, blocks);
      CommandReachesUnitIff(SCSI_WRITE10, lun, start, blocks);
      assert cmd[0] == 0x2A;
      hide Command, Lba, Count, Unit, Bytes, SameOutside, Copied;
      failed := Transport();
    }

    // One chunk of usb_stor_read: from retry_it on, at most two more tries.
    method ReadChunk(start: nat, smallblks: nat, bufAddr: nat) returns (ok: bool)
      requires Sound() && 0 < smallblks <= maxXfer && bufAddr + Bytes(smallblks, blksz) <= memory.Length
      modifies this`cmd, this`datalen, this`pdata, this`log, this`disk, memory, senseBuf
      ensures Tried(old(log), log, Access(false, lun % 8), start, smallblks, ok)
      ensures disk == old(disk)
      ensures SameOutside(old(memory[..]), memory[..], bufAddr, bufAddr + Bytes(smallblks, blksz))
      ensures ok ==> datalen == Bytes(smallblks, blksz)
      ensures ok && start < LBA_LIMIT && lun < 8 ==> Copied(memory[..], bufAddr, disk, Bytes(start, blksz), datalen)
    {
      var retry := 2;
      while true
        invariant 0 <= retry <= 2 && FailedSoFar(old(log), log, Access(false, lun % 8), start, smallblks, 2 - retry)
        invariant disk == old(disk)
        invariant SameOutside(old(memory[..]), memory[..], bufAddr, bufAddr + Bytes(smallblks, blksz))
        decreases retry
      {
        datalen := Bytes(smallblks, blksz);
        pdata := Memory(bufAddr);
        ghost var before := log;
        var failed := Read10(start, smallblks);
        if !failed {
          LastTry(old(log), before, Access(false, lun % 8), start, smallblks, 2 - retry, true);
          return true;
        }
        RequestSense();
        if retry == 0 {
          LastTry(old(log), before, Access(false, lun % 8), start, smallblks, 2 - retry, false);
          return false;
        }
        retry := retry - 1;
      }
    }

    /** usb_stor_read: the first n blocks have arrived in order, nothing outside the buffer has changed, and the
        attempts follow the protocol. */
    method Read(blknr: nat, blkcnt: nat, buffer: nat) returns (n: nat)
      requires Sound() && buffer + Bytes(blkcnt, blksz) <= memory.Length
      modifies this`cmd, this`datalen, this`pdata, this`log, this`disk, memory, senseBuf
      ensures Logged(old(log), log, Access(false, lun % 8), blknr, blkcnt, maxXfer, n)
      ensures disk == old(disk)
      ensures SameOutside(old(memory[..]), memory[..], buffer, buffer + Bytes(blkcnt, blksz))
      ensures blknr + blkcnt <= LBA_LIMIT && lun < 8 && n > 0 ==>
              Copied(memory[..], buffer, disk, Bytes(blknr, blksz), Bytes(n, blksz))
    {
      hide Bytes, LogSoFar, Logged, Tried, SameOutside, Copied, Transfer;
      NothingYet(log, memory[..], Access(false, lun % 8), blknr, maxXfer, buffer, buffer + Bytes(blkcnt, blksz));
      if blkcnt == 0 {
        return 0;
      }
      NoBytes(blksz);
      var bufAddr, start, blks := buffer, blknr, blkcnt;
      ghost var done := 0;
      while true
        invariant 0 < blks && done + blks == blkcnt && start == blknr + done && bufAddr == buffer + Bytes(done, blksz)
        invariant LogSoFar(old(log), log, Access(false, lun % 8), blknr, maxXfer, done)
        invariant disk == old(disk)
        invariant SameOutside(old(memory[..]), memory[..], buffer, buffer + Bytes(blkcnt, blksz))
        invariant blknr + blkcnt <= LBA_LIMIT && lun < 8 && done > 0 ==>
                    Copied(memory[..], buffer, disk, Bytes(blknr, blksz), Bytes(done, blksz))
        decreases blks
      {
        var smallblks := if blks > maxXfer then maxXfer else blks;
        ghost var logBefore, memBefore := log, memory[..];
        RoomFor(done, smallblks, blks, blknr, blksz);
        var ok := ReadChunk(start, smallblks, bufAddr);
        LogChunk(old(log), logBefore, log, Access(false, lun % 8), blknr, maxXfer, done, blks, ok);
        DataChunk(old(memory[..]), memBefore, memory[..], buffer, disk, Bytes(blknr, blksz), done, smallblks, blks,
                  blksz, blknr + blkcnt <= LBA_LIMIT && lun < 8);
        if !ok {
          return blkcnt - blks;
        }
        start := start + smallblks;
        blks := blks - smallblks;
        bufAddr := bufAddr + datalen;
        if blks == 0 {
          return blkcnt;
        }
        done := done + smallblks;
      }
    }

    // One chunk of usb_stor_write.
    method WriteChunk(start: nat, smallblks: nat, bufAddr: nat) returns (ok: bool)
      requires Sound() && 0 < smallblks <= maxXfer && bufAddr + Bytes(smallblks, blksz) <= memory.Length
      modifies this`cmd, this`datalen, this`pdata, this`log, this`disk, memory, senseBuf
      ensures Tried(old(log), log, Access(true, lun % 8), start, smallblks, ok)
      ensures memory[..] == old(memory[..])
      ensures SameOutside(old(disk), disk, Bytes(start % LBA_LIMIT, blksz),
                          Bytes(start % LBA_LIMIT, blksz) + Bytes(smallblks, blksz))
      ensures ok ==> datalen == Bytes(smallblks, blksz)
      ensures ok && start < LBA_LIMIT && lun < 8 ==> Copied(disk, Bytes(start, blksz), memory[..], bufAddr, datalen)
    {
      var retry := 2;
      while true
        invariant 0 <= retry <= 2 && FailedSoFar(old(log), log, Access(true, lun % 8), start, smallblks, 2 - retry)
        invariant memory[..] == old(memory[..])
        invariant SameOutside(old(disk), disk, Bytes(start % LBA_LIMIT, blksz),
                              Bytes(start % LBA_LIMIT, blksz) + Bytes(smallblks, blksz))
        decreases retry
      {
        datalen := Bytes(smallblks, blksz);
        pdata := Memory(bufAddr);
        ghost var before := log;
        var failed := Write10(start, smallblks);
        if !failed {
          LastTry(old(log), before, Access(true, lun % 8), start, smallblks, 2 - retry, true);
          return true;
        }
        RequestSense();
        if retry == 0 {
          LastTry(old(log), before, Access(true, lun % 8), start, smallblks, 2 - retry, false);
          return false;
        }
        retry := retry - 1;
      }
    }

    /** usb_stor_write: the first n blocks of the buffer are on the device in order, no block outside the request has
        changed, and the attempts follow the protocol. */
    method Write(blknr: nat, blkcnt: nat, buffer: nat) returns (n: nat)
      requires Sound() && buffer + Bytes(blkcnt, blksz) <= memory.Length
      modifies this`cmd, this`datalen, this`pdata, this`log, this`disk, memory, senseBuf
      ensures Logged(old(log), log, Access(true, lun % 8), blknr, blkcnt, maxXfer, n)
      ensures memory[..] == old(memory[..])
      ensures blknr + blkcnt <= LBA_LIMIT ==>
                SameOutside(old(disk), disk, Bytes(blknr, blksz), Bytes(blknr, blksz) + Bytes(blkcnt, blksz))
      ensures blknr + blkcnt <= LBA_LIMIT && lun < 8 && n > 0 ==>
              Copied(disk, Bytes(blknr, blksz), memory[..], buffer, Bytes(n, blksz))
    {
      hide Bytes, LogSoFar, Logged, Tried, SameOutside, Copied, Transfer;
      NothingYet(log, disk, Access(true, lun % 8), blknr, maxXfer, Bytes(blknr, blksz),
                 Bytes(blknr, blksz) + Bytes(blkcnt, blksz));
      if blkcnt == 0 {
        return 0;
      }
      NoBytes(blksz);
      var bufAddr, start, blks := buffer, blknr, blkcnt;
      ghost var done := 0;
      while true
        invariant 0 < blks && done + blks == blkcnt && start == blknr + done && bufAddr == buffer + Bytes(done, blksz)
        invariant LogSoFar(old(log), log, Access(true, lun % 8), blknr, maxXfer, done) && memory[..] == old(memory[..])
        invariant blknr + blkcnt <= LBA_LIMIT ==>
                    SameOutside(old(disk), disk, Bytes(blknr, blksz), Bytes(blknr, blksz) + Bytes(blkcnt, blksz))
        invariant blknr + blkcnt <= LBA_LIMIT && lun < 8 && done > 0 ==>
                    Copied(disk, Bytes(blknr, blksz), memory[..], buffer, Bytes(done, blksz))
        decreases blks
      {
        var smallblks := if blks > maxXfer then maxXfer else blks;
        ghost var logBefore, diskBefore := log, disk;
        RoomFor(done, smallblks, blks, blknr, blksz);
        var ok := WriteChunk(start, smallblks, bufAddr);
        LogChunk(old(log), logBefore, log, Access(true, lun % 8), blknr, maxXfer, done, blks, ok);
        if blknr + blkcnt <= LBA_LIMIT {
          DataChunk(old(disk), diskBefore, disk, Bytes(blknr, blksz), memory[..], buffer, done, smallblks, blks,
                    blksz, lun < 8);
        }
        if !ok {
          return blkcnt - blks;
        }
        start := start + smallblks;
        blks := blks - smallblks;
        bufAddr := bufAddr + datalen;
        if blks == 0 {
          return blkcnt;
        }
        done := done + smallblks;
      }
    }
  }

  lemma NoBytes(blksz: nat)
    ensures Bytes(0, blksz) == 0
  {
  }

  lemma RoomFor(done: nat, small: nat, left: nat, blknr: nat, blksz: nat)
    requires small <= left
    ensures Bytes(done, blksz) + Bytes(small, blksz) == Bytes(done + small, blksz) <= Bytes(done + left, blksz)
    ensures Bytes(blknr + done, blksz) == Bytes(blknr, blksz) + Bytes(done, blksz)
  {
    MoreBlocks(done, small, blksz);
    MoreBlocks(blknr, done, blksz);
    FewerBlocks(done + small, done + left, blksz);
  }
}
