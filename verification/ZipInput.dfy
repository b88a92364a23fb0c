/** Buffered input of the archive file: readbuf, seek_zipf, the SKIP case of do_string, and the
    window that NEXTBYTE reads from between defer_leftover_input and undefer_input (fileio.c). */
module ZipInput {
  import opened Basics

  datatype SeekResult = PK_OK | PK_BADERR | PK_EOF

  const EOF: int := -1

  lemma MoveOver(os: seq<Outcome>, o: Outcome, rest: seq<Outcome>)
    ensures os + ([o] + rest) == (os + [o]) + rest
  {
  }

  // The start of the block that holds offset at.
  function BlockStart(size: nat, at: int): int
    requires size > 0
  {
    at - at % size
  }

  lemma BlockStartFacts(size: nat, at: int)
    requires size > 0
    ensures BlockStart(size, at) == size * (at / size) && BlockStart(size, at) <= at < BlockStart(size, at) + size
    ensures at >= 0 ==> BlockStart(size, at) >= 0
  {
    if at >= 0 {
      assert at / size >= 0;
    }
  }

  /** What callers do between members. */
  datatype Op = Read(count: nat) | Seek(offset: int) | SkipOver(length: nat)

  datatype Outcome = Bytes(bytes: seq<Byte>) | Sought(result: SeekResult)

  // A plain cursor at offset at of the file: what a read there gives,
  function PlainRead(file: seq<Byte>, at: int, count: nat): (r: seq<Byte>)
    requires at >= 0
    ensures |r| == Min(count, Max(0, |file| - at))
  {
    if at >= |file| then [] else file[at..at + Min(count, |file| - at)]
  }

  // which places can be reached (those in a block that begins inside the file),
  function PlainSeek(file: seq<Byte>, size: nat, target: int): SeekResult
    requires size > 0
  {
    if target < 0 then PK_BADERR
    else if BlockStart(size, target) < |file| || BlockStart(size, target) == 0 then PK_OK
    else PK_EOF
  }

  function PlainOutcome(file: seq<Byte>, size: nat, extraBytes: int, at: int, op: Op): Outcome
    requires size > 0 && at >= 0
  {
    match op
    case Read(count) => Bytes(PlainRead(file, at, count))
    case Seek(offset) => Sought(PlainSeek(file, size, offset + extraBytes))
    case SkipOver(length) => Sought(PlainSeek(file, size, at + length))
  }

  // and where it is afterwards.
  function PlainNext(file: seq<Byte>, size: nat, extraBytes: int, at: int, op: Op): (next: int)
    requires size > 0 && at >= 0
    ensures next >= 0
  {
    match op
    case Read(count) => at + |PlainRead(file, at, count)|
    case Seek(offset) => if PlainSeek(file, size, offset + extraBytes) == PK_OK then offset + extraBytes else at
    case SkipOver(length) => if PlainSeek(file, size, at + length) == PK_OK then at + length else at
  }

  function PlainRun(file: seq<Byte>, size: nat, extraBytes: int, at: int, ops: seq<Op>): seq<Outcome>
    requires size > 0 && at >= 0
    decreases |ops|
  {
    if ops == [] then []
    else
      var o := PlainOutcome(file, size, extraBytes, at, ops[0]);
      [o] + if o == Sought(PK_EOF) then []
            else PlainRun(file, size, extraBytes, PlainNext(file, size, extraBytes, at, ops[0]), ops[1..])
  }

  predicate ReadsBehind(file: seq<Byte>, at: int, op: Op) {
    op.Read? && op.count > 0 && at > |file|
  }

  // Nothing follows a read behind the end of the file.
  predicate StaysInside(file: seq<Byte>, size: nat, extraBytes: int, at: int, ops: seq<Op>)
    requires size > 0 && at >= 0
    decreases |ops|
  {
    |ops| > 1 && PlainOutcome(file, size, extraBytes, at, ops[0]) != Sought(PK_EOF) ==>
      && !ReadsBehind(file, at, ops[0])
      && StaysInside(file, size, extraBytes, PlainNext(file, size, extraBytes, at, ops[0]), ops[1..])
  }

  lemma PlainStep(file: seq<Byte>, size: nat, extraBytes: int, at: int, ops: seq<Op>)
    requires size > 0 && at >= 0 && ops != [] && StaysInside(file, size, extraBytes, at, ops)
    ensures var o := PlainOutcome(file, size, extraBytes, at, ops[0]);
      var next := PlainNext(file, size, extraBytes, at, ops[0]);
      && (o == Sought(PK_EOF) ==> PlainRun(file, size, extraBytes, at, ops) == [o])
      && (o != Sought(PK_EOF) ==>
            PlainRun(file, size, extraBytes, at, ops) == [o] + PlainRun(file, size, extraBytes, next, ops[1..]))
      && (o != Sought(PK_EOF) && |ops| == 1 ==> PlainRun(file, size, extraBytes, at, ops) == [o])
      && (o != Sought(PK_EOF) && |ops| > 1 ==>
            !ReadsBehind(file, at, ops[0]) && StaysInside(file, size, extraBytes, next, ops[1..]))
  {
    hide PlainOutcome, PlainNext, ReadsBehind;
  }

  class Input {
    const file: seq<Byte>          // the archive
    const size: nat                // INBUFSIZ
    const extraBytes: int          // bytes prepended to the archive proper
    const inbuf: array<Byte>
    var incnt: int                 // bytes left in the buffer
    var inptr: int                 // offset of the next byte in the buffer
    var bufStart: int              // cur_zipfile_bufstart
    var filePos: int               // where the next read(2) starts
    var csize: int                 // member bytes not in the buffer, while deferred
    var incntLeftover: int
    var inptrLeftover: int
    ghost var block: int           // the number of the buffered block

    // Bytes of the file in the block at bufStart.
    function Filled(): int
      reads this
    {
      Max(0, Min(size, |file| - bufStart))
    }

    // The next byte to be handed out is file[Cursor()].
    function Cursor(): int
      reads this
    {
      bufStart + inptr
    }

    // The buffer holds the block of the file that begins at bufStart.
    ghost predicate Window()
      reads this, inbuf
    {
      && size > 0 && inbuf.Length == size
      && 0 <= bufStart && (bufStart < |file| || bufStart == 0) && bufStart == size * block && 0 <= inptr <= size
      && filePos == bufStart + Filled()
      && forall i | 0 <= i < Filled() :: inbuf[i] == file[bufStart + i]
    }

    // ... and incnt agrees with it.
    ghost predicate Valid()
      reads this, inbuf
    {
      Window() && incnt == Filled() - inptr
    }

    // read(2) on the archive: a whole block, or what is left of the file.
    method ReadBlock() returns (n: int)
      requires inbuf.Length == size && 0 <= filePos
      modifies this`filePos, inbuf
      ensures n == Max(0, Min(size, |file| - old(filePos))) && filePos == old(filePos) + n
      ensures forall i | 0 <= i < n :: inbuf[i] == file[old(filePos) + i]
      ensures forall i | n <= i < size :: inbuf[i] == old(inbuf[i])
    {
      n := Max(0, Min(size, |file| - filePos));
      forall i | 0 <= i < n {
        inbuf[i] := file[filePos + i];
      }
      filePos := filePos + n;
    }

    // A freshly opened archive: nothing read, the first byte is next.
    constructor (file: seq<Byte>, size: nat, extraBytes: int)
      requires size > 0
      ensures Valid() && fresh(inbuf) && Cursor() == 0
      ensures this.file == file && this.size == size && this.extraBytes == extraBytes
      ensures incntLeftover == 0
    {
      this.file, this.size, this.extraBytes := file, size, extraBytes;
      inbuf := new Byte[size](_ => 0);
      inptr, bufStart, filePos, csize, incntLeftover, inptrLeftover, incnt, block := 0, 0, 0, 0, 0, 0, 0, 0;
      new;
      incnt := ReadBlock();
    }

    // The next block; when the buffer is used up the cursor stays.
    method Refill() returns (more: bool)
      requires Window()
      modifies this`incnt, this`inptr, this`bufStart, this`filePos, this`block, inbuf
      ensures Window() && (more <==> old(filePos) < |file|)
      ensures more ==> Valid() && incnt > 0 && inptr == 0 && bufStart == old(bufStart) + size
      ensures !more ==> incnt == 0 && bufStart == old(bufStart) && inptr == old(inptr)
      ensures old(inptr >= Filled()) ==> Cursor() == old(Cursor()) && (more <==> old(Cursor()) < |file|)
    {
      incnt := ReadBlock();
      if incnt == 0 {
        return false;
      }
      NextBlock(size, block);
      bufStart, block := bufStart + size, block + 1;
      inptr := 0;
      more := true;
    }

    lemma NextBlock(s: int, k: int)
      ensures s * (k + 1) == s * k + s
    {
    }

    // memcpy(buf, G.inptr, count), and the counters moved on
    method CopyOut(buf: array<Byte>, at: nat, count: nat)
      requires Valid() && buf != inbuf && 0 < count <= incnt && at + count <= buf.Length
      modifies this`incnt, this`inptr, buf
      ensures Valid() && Cursor() == old(Cursor()) + count <= |file|
      ensures forall i | 0 <= i < buf.Length ::
                buf[i] == if at <= i < at + count then file[old(Cursor()) + i - at] else old(buf[i])
    {
      forall i | 0 <= i < count {
        buf[at + i] := inbuf[inptr + i];
      }
      inptr := inptr + count;
      incnt := incnt - count;
    }

    /** readbuf: what a plain read at the cursor gives.  The window stays right unless the caller
        reads behind the end of the file, where incnt is reset although inptr is beyond the data. */
    method ReadBuf(buf: array<Byte>, n: nat) returns (got: nat)
      requires Valid() && buf != inbuf && n <= buf.Length
      modifies this`incnt, this`inptr, this`bufStart, this`filePos, this`block, inbuf, buf
      ensures got == Min(n, Max(0, |file| - old(Cursor())))
      ensures Cursor() == old(Cursor()) + got
      ensures forall i | 0 <= i < buf.Length ::
                buf[i] == if i < got then file[old(Cursor()) + i] else old(buf[i])
      ensures Window() && (Valid() <==> n == 0 || old(Cursor()) <= |file|)
      ensures n > 0 && old(Cursor()) > |file| ==> incnt == 0 && inptr == old(inptr) && bufStart == old(bufStart)
    {
      var left := n;
      got := 0;
      while left > 0
        invariant 0 <= left <= n && got == n - left && Valid()
        invariant Cursor() == old(Cursor()) + got
        invariant got > 0 ==> Cursor() <= |file|
        invariant got == 0 ==> inptr == old(inptr) && bufStart == old(bufStart)
        invariant forall i | 0 <= i < buf.Length ::
                    buf[i] == if i < got then file[old(Cursor()) + i] else old(buf[i])
      {
        if incnt <= 0 {
          var more := Refill();
          if !more {
            return;
          }
        }
        var count := if left < incnt then left else incnt;
        CopyOut(buf, got, count);
        got := got + count;
        left := left - count;
      }
    }

    /** seek_zipf: afterwards the byte at absOffset + extraBytes is next.  It works from any window,
        and even without a valid one if another block has to be read.  Seeking behind the end of the
        file succeeds only within its last block; otherwise the buffer counts as used up. */
    method SeekZipf(absOffset: int) returns (r: SeekResult)
      requires size > 0 && inbuf.Length == size
      modifies this`incnt, this`inptr, this`bufStart, this`filePos, this`block, inbuf
      ensures var request := absOffset + extraBytes;
        && (r == PK_BADERR <==> request < 0)
        && (r == PK_BADERR ==> unchanged(this) && unchanged(inbuf))
        && (r != PK_BADERR ==> bufStart == BlockStart(size, request))
        && (r == PK_OK <==>
              request >= 0 && (BlockStart(size, request) < |file| || BlockStart(size, request) == old(bufStart)))
        && (r == PK_OK ==> Cursor() == request)
        && (r == PK_OK && (bufStart != old(bufStart) || old(Valid())) ==> Valid())
        && (r == PK_OK && bufStart == old(bufStart) ==> incnt == old(incnt) + old(inptr) - inptr && unchanged(inbuf))
        && (r == PK_EOF ==> incnt == 0 && inptr == old(inptr) && filePos == bufStart && inbuf[..] == old(inbuf[..]))
    {
      var request := absOffset + extraBytes;
      if request < 0 {
        return PK_BADERR;
      }
      BlockStartFacts(size, request);
      var inbufOffset := request % size;
      var start := request - inbufOffset;
      if start != bufStart {
        filePos := start;
        bufStart, block := start, request / size;
        incnt := ReadBlock();
        if incnt <= 0 {
          assert inbuf[..] == old(inbuf[..]);
          return PK_EOF;
        }
        incnt := incnt - inbufOffset;
        inptr := inbufOffset;
      } else {
        incnt := incnt + inptr - inbufOffset;
        inptr := inbufOffset;
      }
      r := PK_OK;
    }

    // The SKIP case of do_string.
    method Skip(length: nat) returns (r: SeekResult)
      requires Valid()
      modifies this`incnt, this`inptr, this`bufStart, this`filePos, this`block, inbuf
      ensures var target := old(Cursor()) + length;
        && (r == PK_OK <==> BlockStart(size, target) < |file| || BlockStart(size, target) == 0)
        && (target < |file| ==> r == PK_OK)
        && (r == PK_OK ==> Valid() && Cursor() == target)
        && (r != PK_OK ==> r == PK_EOF && incnt == 0 && bufStart == BlockStart(size, target) && inptr == old(inptr))
    {
      BlockStartFacts(size, Cursor() + length);
      r := SeekZipf(bufStart - extraBytes + inptr + length);
    }

    // readbuf into a buffer of its own.
    method ReadBytes(count: nat) returns (s: seq<Byte>)
      requires Valid()
      modifies this`incnt, this`inptr, this`bufStart, this`filePos, this`block, inbuf
      ensures s == PlainRead(file, old(Cursor()), count) && Cursor() == old(Cursor()) + |s|
      ensures count == 0 || old(Cursor()) <= |file| ==> Valid()
    {
      var buf := new Byte[count];
      var got := ReadBuf(buf, count);
      s := buf[..got];
      hide Window, Filled;
    }

    // One operation, with the bytes or the code it gives back.
    method Perform(op: Op) returns (o: Outcome)
      requires Valid()
      modifies this`incnt, this`inptr, this`bufStart, this`filePos, this`block, inbuf
      ensures old(Cursor()) >= 0 && o == PlainOutcome(file, size, extraBytes, old(Cursor()), op)
      ensures o != Sought(PK_EOF) ==> Cursor() == PlainNext(file, size, extraBytes, old(Cursor()), op)
      ensures o != Sought(PK_EOF) && !ReadsBehind(file, old(Cursor()), op) ==> Valid()
    {
      assert bufStart == 0 || bufStart < |file|;
      hide BlockStart, PlainRead, Filled;
      match op
      case Read(count) =>
        var bytes := ReadBytes(count);
        o := Bytes(bytes);
      case Seek(offset) =>
        var r := SeekZipf(offset);
        o := Sought(r);
      case SkipOver(length) =>
        var r := Skip(length);
        o := Sought(r);
    }

    /** Any sequence of reads, seeks and skips gives what a plain cursor into the file gives, as long
        as nothing follows a read behind the end of the file.  It ends with the first PK_EOF. */
    method PerformAll(ops: seq<Op>) returns (os: seq<Outcome>)
      requires Valid() && StaysInside(file, size, extraBytes, Cursor(), ops)
      modifies this`incnt, this`inptr, this`bufStart, this`filePos, this`block, inbuf
      ensures os == PlainRun(file, size, extraBytes, old(Cursor()), ops)
    {
      ValidMeans();
      assert ops == [] ==> PlainRun(file, size, extraBytes, Cursor(), ops) == [];
      hide *;
      os := [];
      ghost var todo := PlainRun(file, size, extraBytes, Cursor(), ops);
      ghost var whole := todo;
      assert ops[0..] == ops;
      var i: nat := 0;
      while i < |ops|
        invariant i <= |ops| && size > 0 && whole == os + todo && (i == |ops| ==> todo == [])
        invariant i < |ops| ==> Valid() && Cursor() >= 0 && StaysInside(file, size, extraBytes, Cursor(), ops[i..])
        invariant i < |ops| ==> todo == PlainRun(file, size, extraBytes, Cursor(), ops[i..])
      {
        todo := OneOp(ops, i);
        var o := Perform(ops[i]);
        MoveOver(os, o, todo);
        os := os + [o];
        if o == Sought(PK_EOF) {
          return;
        }
        if i + 1 < |ops| {
          ValidMeans();
        }
        i := i + 1;
      }
    }

    lemma ValidMeans()
      requires Valid()
      ensures size > 0 && Cursor() >= 0
    {
    }

    // What the next operation of a plain run is to give and to leave.
    lemma OneOp(ops: seq<Op>, i: nat) returns (rest: seq<Outcome>)
      requires size > 0 && Cursor() >= 0 && i < |ops| && StaysInside(file, size, extraBytes, Cursor(), ops[i..])
      ensures var at := Cursor();
        var o, next := PlainOutcome(file, size, extraBytes, at, ops[i]), PlainNext(file, size, extraBytes, at, ops[i]);
        && PlainRun(file, size, extraBytes, at, ops[i..]) == [o] + rest
        && (o == Sought(PK_EOF) || i + 1 == |ops| ==> rest == [])
        && (o != Sought(PK_EOF) && i + 1 < |ops| ==>
              && rest == PlainRun(file, size, extraBytes, next, ops[i + 1..])
              && !ReadsBehind(file, at, ops[i]) && StaysInside(file, size, extraBytes, next, ops[i + 1..]))
    {
      assert ops[i..][1..] == ops[i + 1..];
      PlainStep(file, size, extraBytes, Cursor(), ops[i..]);
      hide *;
      rest := PlainRun(file, size, extraBytes, Cursor(), ops[i..])[1..];
    }

    /** Between defer_leftover_input and undefer_input only the bytes of the current member, which
        ends at file offset end, may be taken.  over counts the attempts to read behind its end. */
    ghost predicate Deferred(end: int, over: nat)
      reads this, inbuf
    {
      && Window()
      && (if incntLeftover > 0 then
            && csize + over == 0 && bufStart + inptrLeftover == end && inptrLeftover + incntLeftover == Filled()
            && inptr + Max(0, incnt) == inptrLeftover
          else
            && incntLeftover == 0 && inptr + Max(0, incnt) == Filled() && csize == end - bufStart - Filled() - over
            && (over > 0 ==> end == bufStart + Filled()))
      && incnt >= -1 && (over > 0 ==> incnt <= 0) && csize + over >= 0
    }

    // Member bytes that have not been handed out.
    function MemberLeft(): int
      reads this
    {
      csize + incnt
    }

    // The comment at the head of the functions: csize + incnt is what remains of the member.
    lemma MemberLeftIsExact(end: int, over: nat)
      requires Deferred(end, over) && incnt >= 0
      ensures MemberLeft() == end - Cursor() - over && Cursor() <= end
    {
    }

    method DeferLeftoverInput()
      requires Valid() && incnt >= 0
      modifies this`incnt, this`csize, this`incntLeftover, this`inptrLeftover
      ensures Deferred(Cursor() + Max(0, old(csize)), 0) && MemberLeft() == Max(0, old(csize))
      ensures incnt == Min(old(incnt), Max(0, old(csize)))
    {
      if incnt > csize {
        if csize < 0 {
          csize := 0;
        }
        inptrLeftover := inptr + csize;
        incntLeftover := incnt - csize;
        incnt := csize;
      } else {
        incntLeftover := 0;
      }
      csize := csize - incnt;
    }

    /** undefer_input: the ordinary window is back, with the cursor just behind the last byte taken;
        only when the buffer went on behind the member does every read behind its end move the
        cursor one byte too far. */
    method UndeferInput(ghost end: int, ghost over: nat)
      requires Deferred(end, over)
      modifies this`incnt, this`inptr, this`csize, this`incntLeftover
      ensures Cursor() == old(Cursor()) + (if old(incntLeftover) > 0 then over else 0)
      ensures incnt == Filled() - inptr && (over == 0 ==> Valid())
      ensures csize == end - old(Cursor()) - over
    {
      if incnt > 0 {
        csize := csize + incnt;
      }
      if incntLeftover > 0 {
        incnt := incntLeftover + csize;
        inptr := inptrLeftover - csize;
        incntLeftover := 0;
      } else if incnt < 0 {
        incnt := 0;
      }
    }

    // The block behind a used-up buffer, cut to the member.
    method NextOfMember(ghost end: int) returns (more: bool)
      requires Deferred(end, 0) && incnt <= 0 && csize > 0
      modifies this`incnt, this`inptr, this`bufStart, this`filePos, this`block, this`csize,
               this`incntLeftover, this`inptrLeftover, inbuf
      ensures Deferred(end, 0) && Cursor() == old(Cursor()) < end && (more <==> Cursor() < |file|)
      ensures incnt == Max(0, Min(size, Min(|file|, end) - Cursor())) && (more ==> incnt > 0)
    {
      more := Refill();
      if more {
        assert csize == end - Cursor() && incnt == Min(size, |file| - Cursor());
        DeferLeftoverInput();
      }
    }

    // One more attempt to read behind the end of the member.
    method OneTooMany(ghost end: int, ghost over: nat)
      requires Deferred(end, over) && csize <= 0
      modifies this`csize, this`incnt
      ensures incnt == 0 && Cursor() == old(Cursor())
      ensures old(incnt) <= 0 ==> Deferred(end, over + 1) && Cursor() >= end
    {
      csize := csize - 1;
      incnt := 0;
    }

    lemma MemberGoesOn(end: int, over: nat)
      requires Deferred(end, over) && csize > 0
      ensures over == 0 && Cursor() < end && (incnt > 0 ==> Cursor() < |file|)
    {
    }

    // A byte that is still in the buffer is taken from there.
    method TakeByte(ghost end: int) returns (b: Byte)
      requires Deferred(end, 0) && incnt > 0
      modifies this`incnt, this`inptr
      ensures Deferred(end, 0) && old(Cursor()) < |file| && b == file[old(Cursor())]
      ensures Cursor() == old(Cursor()) + 1 && MemberLeft() == old(MemberLeft()) - 1
    {
      b := inbuf[inptr];
      incnt := incnt - 1;
      inptr := inptr + 1;
    }

    /** readbyte: the next byte of the member, or EOF at the end of the member or of the file.  It is
        meant for a used-up buffer; called when the buffer holds the last bytes of the member it
        forgets them. */
    method ReadByte(ghost end: int, ghost over: nat) returns (b: int)
      requires Deferred(end, over)
      modifies this`incnt, this`inptr, this`bufStart, this`filePos, this`block, this`csize,
               this`incntLeftover, this`inptrLeftover, inbuf
      ensures old(incnt > 0 && csize <= 0) ==> b == EOF && incnt == 0 && Cursor() == old(Cursor())
      ensures !old(incnt > 0 && csize <= 0) ==>
                && (old(Cursor()) < end && old(Cursor()) < |file| ==>
                      Deferred(end, over) && b == file[old(Cursor())] && Cursor() == old(Cursor()) + 1)
                && (old(Cursor()) >= end ==> Deferred(end, over + 1) && b == EOF && Cursor() == old(Cursor()))
                && (|file| <= old(Cursor()) < end ==> Deferred(end, over) && b == EOF && Cursor() == old(Cursor()))
    {
      if csize <= 0 {
        OneTooMany(end, over);
        return EOF;
      }
      MemberGoesOn(end, over);
      hide Deferred, Window, Filled;
      if incnt <= 0 {
        var more := NextOfMember(end);
        if !more {
          return EOF;
        }
      }
      b := TakeByte(end);
    }

    /** fillinbuf, called when the buffer is used up: all of the member that the next block holds.  At
        the end of the member it still reads the next block, and the cursor moves on to it. */
    method FillInBuf(ghost end: int, ghost over: nat) returns (n: int)
      requires Deferred(end, over) && incnt <= 0
      modifies this`incnt, this`inptr, this`bufStart, this`filePos, this`block, this`csize,
               this`incntLeftover, this`inptrLeftover, inbuf
      ensures n == Max(0, Min(size, Min(|file|, end) - old(Cursor())))
      ensures old(csize) > 0 ==> Deferred(end, 0) && n == incnt && Cursor() == old(Cursor())
      ensures old(csize) > 0 ==> forall q | Cursor() <= q < Cursor() + n :: inbuf[q - bufStart] == file[q]
      ensures old(csize) <= 0 ==> Cursor() == if old(filePos) < |file| then old(bufStart) + size else old(Cursor())
    {
      var more := Refill();
      if !more {
        return 0;
      }
      assert old(csize) > 0 ==> csize == end - Cursor() && incnt == Min(size, |file| - Cursor());
      DeferLeftoverInput();
      n := incnt;
    }
  }

  /** Where it goes wrong: after a read behind the end, a seek back inside the last block leaves two
      more bytes to hand out than the file has. */
  method ReadBehindEndSpoilsSeek(file: seq<Byte>) returns (i: Input)
    requires |file| == 10
    ensures i.Cursor() == 5 && i.Filled() - i.inptr == 5 && i.incnt == 7
  {
    i := new Input(file, 16, 0);
    var buf := new Byte[1];
    var r := i.SeekZipf(12);
    var n := i.ReadBuf(buf, 1);
    r := i.SeekZipf(5);
  }
}
