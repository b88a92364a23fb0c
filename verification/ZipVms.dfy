/** Text-mode output of flush (fileio.c) for VMS variable-length records: a 16-bit length word, the
    bytes of the line, and a pad byte after an odd number of them. */
module ZipVms {
  import opened Basics
  import opened ZipText

  // VMS_line_state with the length and parity it needs: ready for a length word, one byte of it
  // read, left bytes of a line to come, line end due, pad byte due.
  datatype State =
    | Ready
    | HalfWord(low: nat)
    | Line(left: nat, pad: bool)
    | LineEnd(pad: bool)
    | Pad

  datatype Result = Result(out: seq<Byte>, next: State)

  function Native(sys: System, s: seq<Byte>): (r: seq<Byte>)
    ensures |r| == |s|
  {
    seq<Byte>(|s|, i requires 0 <= i < |s| => sys.native(s[i]))
  }

  function Word(low: Byte, high: Byte): nat {
    var l: int, h: int := low, high;
    l + 256 * h
  }

  // States that do nothing but pass on to the next one.
  function Rank(st: State): nat {
    match st case Line(_, _) => 2 case LineEnd(_) => 1 case _ => 0
  }

  function Prefixed(out: seq<Byte>, r: Result): Result {
    Result(out + r.out, r.next)
  }

  /** All bytes of s at once. */
  function ConvertRecords(sys: System, st: State, s: seq<Byte>): Result
    decreases |s|, Rank(st)
  {
    if s == [] then Result([], st)
    else match st
      case Ready =>
        if |s| == 1 then Result([], HalfWord(s[0]))
        else ConvertRecords(sys, Line(Word(s[0], s[1]), s[0] % 2 == 1), s[2..])
      case HalfWord(low) =>
        ConvertRecords(sys, Line(low + 256 * (s[0] as int), low % 2 == 1), s[1..])
      case Line(left, pad) =>
        if left < |s| then Prefixed(Native(sys, s[..left]), ConvertRecords(sys, LineEnd(pad), s[left..]))
        else Result(Native(sys, s), Line(left - |s|, pad))
      case LineEnd(pad) =>
        Prefixed(sys.eol, ConvertRecords(sys, if pad then Pad else Ready, s))
      case Pad =>
        ConvertRecords(sys, Ready, s[1..])
  }

  lemma NativeConcat(sys: System, a: seq<Byte>, b: seq<Byte>)
    ensures Native(sys, a + b) == Native(sys, a) + Native(sys, b)
  {
  }

  // The claim of ConvertConcat for one start state and cut.
  ghost predicate Cuts(sys: System, st: State, a: seq<Byte>, b: seq<Byte>) {
    var first := ConvertRecords(sys, st, a);
    ConvertRecords(sys, st, a + b) == Prefixed(first.out, ConvertRecords(sys, first.next, b))
  }

  /** Cutting the input anywhere, inside the length word, the line or before the pad byte, makes no
      difference. */
  lemma {:induction false} ConvertConcat(sys: System, st: State, a: seq<Byte>, b: seq<Byte>)
    ensures Cuts(sys, st, a, b)
    decreases |a|, Rank(st), 1
  {
    hide *;
    if a == [] || b == [] {
      NothingToCut(sys, st, a, b);
    } else {
      match st
      case Ready => ReadyConcat(sys, a, b);
      case HalfWord(low) => HalfWordConcat(sys, low, a, b);
      case Line(left, pad) => LineConcat(sys, left, pad, a, b);
      case LineEnd(pad) => LineEndConcat(sys, pad, a, b);
      case Pad => PadConcat(sys, a, b);
    }
  }

  lemma NothingToCut(sys: System, st: State, a: seq<Byte>, b: seq<Byte>)
    requires a == [] || b == []
    ensures Cuts(sys, st, a, b)
  {
    assert a + b == if a == [] then b else a;
    var r := ConvertRecords(sys, st, a);
    assert r.out + [] == r.out;
  }

  lemma {:induction false} HalfWordConcat(sys: System, low: nat, a: seq<Byte>, b: seq<Byte>)
    requires a != []
    ensures Cuts(sys, HalfWord(low), a, b)
    decreases |a|, Rank(HalfWord(low)), 0
  {
    assert (a + b)[1..] == a[1..] + b;
    ConvertConcat(sys, Line(low + 256 * (a[0] as int), low % 2 == 1), a[1..], b);
  }

  lemma {:induction false} LineEndConcat(sys: System, pad: bool, a: seq<Byte>, b: seq<Byte>)
    requires a != []
    ensures Cuts(sys, LineEnd(pad), a, b)
    decreases |a|, Rank(LineEnd(pad)), 0
  {
    var next := if pad then Pad else Ready;
    ConvertConcat(sys, next, a, b);
    PrefixedTwice(sys.eol, ConvertRecords(sys, next, a), b, sys);
  }

  lemma {:induction false} PadConcat(sys: System, a: seq<Byte>, b: seq<Byte>)
    requires a != []
    ensures Cuts(sys, Pad, a, b)
    decreases |a|, Rank(Pad), 0
  {
    assert (a + b)[1..] == a[1..] + b;
    ConvertConcat(sys, Ready, a[1..], b);
  }

  lemma PrefixedTwice(out: seq<Byte>, r: Result, b: seq<Byte>, sys: System)
    ensures Prefixed(out, Prefixed(r.out, ConvertRecords(sys, r.next, b)))
         == Prefixed(Prefixed(out, r).out, ConvertRecords(sys, Prefixed(out, r).next, b))
  {
    Associative(out, r.out, ConvertRecords(sys, r.next, b).out);
  }

  lemma {:induction false} ReadyConcat(sys: System, a: seq<Byte>, b: seq<Byte>)
    requires a != [] && b != []
    ensures Cuts(sys, Ready, a, b)
    decreases |a|, Rank(Ready), 0
  {
    if |a| == 1 {
      assert (a + b)[2..] == b[1..];
    } else {
      assert (a + b)[2..] == a[2..] + b;
      ConvertConcat(sys, Line(Word(a[0], a[1]), a[0] % 2 == 1), a[2..], b);
    }
  }

  lemma {:induction false} LineConcat(sys: System, left: nat, pad: bool, a: seq<Byte>, b: seq<Byte>)
    requires a != [] && b != []
    ensures Cuts(sys, Line(left, pad), a, b)
    decreases |a|, Rank(Line(left, pad)), 0
  {
    if left < |a| {
      assert (a + b)[..left] == a[..left] && (a + b)[left..] == a[left..] + b;
      ConvertConcat(sys, LineEnd(pad), a[left..], b);
      PrefixedTwice(Native(sys, a[..left]), ConvertRecords(sys, LineEnd(pad), a[left..]), b, sys);
    } else if left < |a + b| {
      var rest := left - |a|;
      assert (a + b)[..left] == a + b[..rest] && (a + b)[left..] == b[rest..];
      NativeConcat(sys, a, b[..rest]);
      Associative(Native(sys, a), Native(sys, b[..rest]), ConvertRecords(sys, LineEnd(pad), b[rest..]).out);
    } else {
      NativeConcat(sys, a, b);
    }
  }

  // What a sequence of chunks gives.
  function ConvertChunks(sys: System, st: State, chunks: seq<seq<Byte>>): Result
    decreases chunks
  {
    if chunks == [] then Result([], st)
    else
      var first := ConvertRecords(sys, st, chunks[0]);
      Prefixed(first.out, ConvertChunks(sys, first.next, chunks[1..]))
  }

  lemma {:induction false} ChunkingDoesNotMatter(sys: System, st: State, chunks: seq<seq<Byte>>)
    ensures ConvertChunks(sys, st, chunks) == ConvertRecords(sys, st, Concat(chunks))
    decreases chunks
  {
    if chunks != [] {
      ConvertConcat(sys, st, chunks[0], Concat(chunks[1..]));
      ChunkingDoesNotMatter(sys, ConvertRecords(sys, st, chunks[0]).next, chunks[1..]);
    }
  }

  type Text = l: seq<Byte> | |l| < 0x10000

  // One record as VMS stores it.
  function EncodeLine(l: Text): seq<Byte> {
    [|l| % 256, |l| / 256] + l + (if |l| % 2 == 1 then [0] else [])
  }

  function EncodeLines(ls: seq<Text>): seq<Byte> {
    if ls == [] then [] else EncodeLine(ls[0]) + EncodeLines(ls[1..])
  }

  // The lines with a line end after each.
  function NativeLines(sys: System, ls: seq<Text>): seq<Byte> {
    if ls == [] then [] else Native(sys, ls[0]) + sys.eol + NativeLines(sys, ls[1..])
  }

  // A line end is still due after a last line of even length: nothing follows that would release it.
  function Due(sys: System, ls: seq<Text>): seq<Byte> {
    if ls != [] && |ls[|ls| - 1]| % 2 == 0 then sys.eol else []
  }

  lemma LineComesOut(sys: System, l: Text)
    ensures ConvertRecords(sys, Ready, EncodeLine(l))
         == if |l| % 2 == 1 then Result(Native(sys, l) + sys.eol, Ready) else Result(Native(sys, l), Line(0, false))
  {
    var e := EncodeLine(l);
    assert e[2..] == l + (if |l| % 2 == 1 then [0] else []);
    assert Word(e[0], e[1]) == |l| && e[0] % 2 == |l| % 2;
    if |l| % 2 == 1 {
      OddLineComesOut(sys, l);
    } else {
      EvenLineComesOut(sys, l);
    }
    assert ConvertRecords(sys, Ready, e) == ConvertRecords(sys, Line(|l|, |l| % 2 == 1), e[2..]);
    hide ConvertRecords, Native;
  }

  lemma OddLineComesOut(sys: System, l: seq<Byte>)
    ensures ConvertRecords(sys, Line(|l|, true), l + [0]) == Result(Native(sys, l) + sys.eol, Ready)
  {
    assert (l + [0])[..|l|] == l && (l + [0])[|l|..] == [0] && [0][1..] == [];
    assert ConvertRecords(sys, Pad, [0]) == Result([], Ready);
    assert ConvertRecords(sys, LineEnd(true), [0]) == Prefixed(sys.eol, Result([], Ready)) == Result(sys.eol, Ready);
  }

  lemma EvenLineComesOut(sys: System, l: seq<Byte>)
    ensures ConvertRecords(sys, Line(|l|, false), l + []) == Result(Native(sys, l), Line(0, false))
  {
    assert l + [] == l;
    assert l == [] ==> Native(sys, l) == [];
  }

  // The line end of a line of even length comes out when something follows.
  lemma FirstLineComesOut(sys: System, l: Text, rest: seq<Byte>)
    ensures ConvertRecords(sys, Ready, EncodeLine(l) + rest).out
         == if |l| % 2 == 1 || rest != [] then (Native(sys, l) + sys.eol) + ConvertRecords(sys, Ready, rest).out
            else Native(sys, l)
  {
    LineComesOut(sys, l);
    ConvertConcat(sys, Ready, EncodeLine(l), rest);
    DueLineEnd(sys, rest);
    hide ConvertRecords, Native, EncodeLine;
    if |l| % 2 == 0 && rest != [] {
      Associative(Native(sys, l), sys.eol, ConvertRecords(sys, Ready, rest).out);
    }
  }

  lemma DueLineEnd(sys: System, rest: seq<Byte>)
    ensures ConvertRecords(sys, Line(0, false), rest).out
         == if rest == [] then [] else sys.eol + ConvertRecords(sys, Ready, rest).out
  {
    if rest != [] {
      assert rest[..0] == [] && rest[0..] == rest && Native(sys, []) == [];
    }
  }

  /** Every record comes out as its line and a native line end, except that the line end of the last
      record is missing if its length is even. */
  lemma {:induction false} RecordsComeOut(sys: System, ls: seq<Text>)
    ensures ConvertRecords(sys, Ready, EncodeLines(ls)).out + Due(sys, ls) == NativeLines(sys, ls)
    decreases ls
  {
    if ls != [] {
      var l, rest := ls[0], ls[1..];
      FirstLineComesOut(sys, l, EncodeLines(rest));
      RecordsComeOut(sys, rest);
      assert rest != [] ==> EncodeLines(rest) != [] && Due(sys, ls) == Due(sys, rest);
      Associative(Native(sys, l) + sys.eol, ConvertRecords(sys, Ready, EncodeLines(rest)).out, Due(sys, ls));
    } else {
      assert ConvertRecords(sys, Ready, []).out == [];
    }
    hide ConvertRecords, Native, EncodeLine;
  }

  lemma AllLineEndsIff(sys: System, ls: seq<Text>)
    requires sys.eol != []
    ensures ConvertRecords(sys, Ready, EncodeLines(ls)).out == NativeLines(sys, ls)
       <==> ls == [] || |ls[|ls| - 1]| % 2 == 1
  {
    RecordsComeOut(sys, ls);
  }

  // What ConvertRecords puts out before it looks at s again.
  function Emitted(sys: System, st: State, s: seq<Byte>): seq<Byte> {
    match st
    case Line(left, _) => if left < |s| then Native(sys, s[..left]) else Native(sys, s)
    case LineEnd(_) => sys.eol
    case _ => []
  }

  // One round of the loop over raw, on values: the state that follows and how far it reads.
  function Follow(st: State, s: seq<Byte>): (r: (State, nat))
    requires s != []
    ensures r.1 <= |s|
  {
    match st
    case Ready => if |s| == 1 then (HalfWord(s[0]), 1) else (Line(Word(s[0], s[1]), s[0] % 2 == 1), 2)
    case HalfWord(low) => (Line(low + 256 * (s[0] as int), low % 2 == 1), 1)
    case Line(left, pad) => if left < |s| then (LineEnd(pad), left) else (Line(left - |s|, pad), |s|)
    case LineEnd(pad) => (if pad then Pad else Ready, 0)
    case Pad => (Ready, 1)
  }

  lemma RecordStep(sys: System, st: State, raw: seq<Byte>, p: nat)
    requires p < |raw|
    ensures var (next, n) := Follow(st, raw[p..]);
            ConvertRecords(sys, st, raw[p..])
                == Prefixed(Emitted(sys, st, raw[p..]), ConvertRecords(sys, next, raw[p + n..]))
  {
    var (next, n) := Follow(st, raw[p..]);
    assert raw[p..][n..] == raw[p + n..];
  }

  // The line end that the state still owes, as far as the input read so far does not pay for it.
  function Room(eol: nat, st: State): (r: nat)
    ensures r <= eol
  {
    match st
    case Ready => 0
    case HalfWord(_) => Min(eol, 1)
    case Line(_, _) => eol
    case LineEnd(_) => eol
    case Pad => 0
  }

  // Reading s from st on reaches a line that goes on to the end of s, and until then no byte is read without one being
  // written: no pad byte, and no length word that a two-byte line end does not make up for.
  predicate KeepsPace(eol: nat, st: State, s: seq<Byte>)
    decreases |s|, Rank(st)
  {
    s != [] &&
    match st
    case Line(left, pad) => left >= |s| || KeepsPace(eol, LineEnd(pad), s[left..])
    case LineEnd(pad) => !pad && KeepsPace(eol, Ready, s)
    case Ready => eol == 2 && |s| > 1 && KeepsPace(eol, Line(Word(s[0], s[1]), s[0] % 2 == 1), s[2..])
    case HalfWord(low) => eol == 2 && KeepsPace(eol, Line(low + 256 * (s[0] as int), low % 2 == 1), s[1..])
    case Pad => false
  }

  /** A full chunk makes flush lose count: it comes while a line or its end is due, and it keeps pace. */
  predicate LosesCount(eol: nat, bufSize: nat, st: State, raw: seq<Byte>) {
    |raw| == bufSize && (st.Line? || st.LineEnd?) && KeepsPace(eol, st, raw)
  }

  // The line that such a chunk ends in, as it was when the chunk's first byte of it was read.
  function LastLine(eol: nat, st: State, s: seq<Byte>): State
    requires KeepsPace(eol, st, s)
    decreases |s|, Rank(st)
  {
    match st
    case Line(left, pad) => if left >= |s| then st else LastLine(eol, LineEnd(pad), s[left..])
    case LineEnd(pad) => LastLine(eol, Ready, s)
    case Ready => LastLine(eol, Line(Word(s[0], s[1]), s[0] % 2 == 1), s[2..])
    case HalfWord(low) => LastLine(eol, Line(low + 256 * (s[0] as int), low % 2 == 1), s[1..])
    case Pad => Pad
  }

  /** The state in which flush leaves the output: that of the whole conversion, or else the last line counts as still
      to come from its first byte in the chunk on. */
  function After(sys: System, bufSize: nat, st: State, raw: seq<Byte>): State {
    if LosesCount(|sys.eol|, bufSize, st, raw) then LastLine(|sys.eol|, st, raw) else ConvertRecords(sys, st, raw).next
  }

  // Which is too long.
  lemma {:induction false} LastLineIsTooLong(sys: System, st: State, s: seq<Byte>)
    requires KeepsPace(|sys.eol|, st, s)
    ensures var l, next := LastLine(|sys.eol|, st, s), ConvertRecords(sys, st, s).next;
            l.Line? && next.Line? && next.left < l.left && next.pad == l.pad
    decreases |s|, Rank(st)
  {
    match st {
      case Line(left, pad) =>
        if left < |s| {
          LastLineIsTooLong(sys, LineEnd(pad), s[left..]);
        }
      case LineEnd(pad) => LastLineIsTooLong(sys, Ready, s);
      case Ready => LastLineIsTooLong(sys, Line(Word(s[0], s[1]), s[0] % 2 == 1), s[2..]);
      case HalfWord(low) => LastLineIsTooLong(sys, Line(low + 256 * (s[0] as int), low % 2 == 1), s[1..]);
      case Pad =>
    }
  }

  /** With line ends of at most one byte this is a full chunk in the middle of one line. */
  lemma LosesCountInOneLine(eol: nat, bufSize: nat, st: State, raw: seq<Byte>)
    requires eol <= 1 && 2 <= bufSize
    ensures LosesCount(eol, bufSize, st, raw) <==> |raw| == bufSize && st.Line? && st.left >= |raw|
  {
    if st.Line? && st.left < |raw| {
      NoPaceAfterLine(eol, st.pad, raw[st.left..]);
    } else if st.LineEnd? {
      NoPaceAfterLine(eol, st.pad, raw);
    }
  }

  lemma NoPaceAfterLine(eol: nat, pad: bool, s: seq<Byte>)
    requires eol <= 1
    ensures !KeepsPace(eol, LineEnd(pad), s)
  {
    assert !KeepsPace(eol, Ready, s);
  }

  // After p bytes with q bytes waiting to be written the translation buffer would fill up within the chunk.
  predicate OnPace(eol: nat, bufSize: nat, st: State, raw: seq<Byte>, p: nat, q: nat)
    requires p <= |raw|
  {
    |raw| == bufSize && q + Room(eol, st) == p + eol && KeepsPace(eol, st, raw[p..])
  }

  // How many bytes wait to be written after a round that does not lose count: a line end that does not fit makes room.
  function Waiting(sys: System, bufSize: nat, st: State, s: seq<Byte>, q: nat): nat
    requires s != []
  {
    if st.LineEnd? && q + |sys.eol| > bufSize then |sys.eol| else q + |Emitted(sys, st, s)|
  }

  // Such a round keeps pace if it did before.
  lemma PaceStep(sys: System, bufSize: nat, st: State, raw: seq<Byte>, p: nat, q: nat)
    requires p < |raw| <= bufSize && |sys.eol| <= 2 <= bufSize && q + Room(|sys.eol|, st) <= p + |sys.eol|
    requires !(st.Line? && st.left >= |raw| - p >= bufSize - q)
    ensures var (next, n) := Follow(st, raw[p..]);
            var q' := Waiting(sys, bufSize, st, raw[p..], q);
            && q' + Room(|sys.eol|, next) <= p + n + |sys.eol|
            && (OnPace(|sys.eol|, bufSize, st, raw, p, q) <==> OnPace(|sys.eol|, bufSize, next, raw, p + n, q'))
            && (OnPace(|sys.eol|, bufSize, st, raw, p, q) ==>
                  LastLine(|sys.eol|, st, raw[p..]) == LastLine(|sys.eol|, next, raw[p + n..]))
  {
    var s, eol := raw[p..], |sys.eol|;
    assert s[Follow(st, s).1..] == raw[p + Follow(st, s).1..];
    if st.Line? && st.left >= |s| {
      assert !KeepsPace(eol, Follow(st, s).0, s[|s|..]);
    } else {
      NextKeepsPace(eol, st, s);
    }
    hide KeepsPace, LastLine;
  }

  // States in which no byte is read without one being written.
  predicate OnTime(eol: nat, st: State) {
    match st case Line(_, _) => true case LineEnd(pad) => !pad case Pad => false case _ => eol == 2
  }

  lemma NextKeepsPace(eol: nat, st: State, s: seq<Byte>)
    requires s != [] && !(st.Line? && st.left >= |s|)
    ensures var (next, n) := Follow(st, s);
            && (KeepsPace(eol, st, s) <==> OnTime(eol, st) && KeepsPace(eol, next, s[n..]))
            && (KeepsPace(eol, st, s) ==> LastLine(eol, st, s) == LastLine(eol, next, s[n..]))
  {
    var (next, n) := Follow(st, s);
    assert n == 0 ==> s[n..] == s;
    assert !KeepsPace(eol, Pad, s) && (n == |s| ==> !KeepsPace(eol, next, s[n..]));
  }

  // The round that loses count is on pace.
  lemma LastPace(sys: System, bufSize: nat, st: State, raw: seq<Byte>, p: nat, q: nat)
    requires p < |raw| <= bufSize && |sys.eol| <= 2 <= bufSize && q + Room(|sys.eol|, st) <= p + |sys.eol|
    ensures st.Line? && st.left >= |raw| - p >= bufSize - q ==>
              OnPace(|sys.eol|, bufSize, st, raw, p, q) && LastLine(|sys.eol|, st, raw[p..]) == st && q == p
  {
  }

  // The output after a line of which a first part, perhaps none of it, was written together with what waited before.
  lemma NativeInTwo(sys: System, written: seq<Byte>, trans: seq<Byte>, raw: seq<Byte>, p: nat, m: nat, e: nat)
    requires p <= m <= e <= |raw|
    ensures written + (trans + Native(sys, raw[p..m])) + ([] + Native(sys, raw[m..e]))
         == written + trans + Native(sys, raw[p..e])
    ensures m == p ==> written + (trans + Native(sys, raw[m..e])) == written + trans + Native(sys, raw[p..e])
  {
    NativeConcat(sys, raw[p..m], raw[m..e]);
    assert raw[p..m] + raw[m..e] == raw[p..e];
    hide Native;
    var x, y := Native(sys, raw[p..m]), Native(sys, raw[m..e]);
    Associative(written, trans, x);
    Associative(written + trans, x, y);
    Associative(written, trans, y);
    assert [] + y == y;
  }

  class VmsOutput {
    const sys: System
    const bufSize: nat      // transbufsiz
    var lineState: int      // VMS_line_state, -1 for files that are not VMS text
    var lineLength: nat
    var linePad: bool
    var out: seq<Byte>      // what has been written to the output file

    ghost predicate Valid()
      reads this
    {
      && 0 <= lineState <= 4 && |sys.eol| <= 2 <= bufSize
      && (lineState == 1 ==> linePad == (lineLength % 2 == 1))
    }

    ghost function Current(): State
      requires Valid()
      reads this
    {
      if lineState == 0 then Ready
      else if lineState == 1 then HalfWord(lineLength)
      else if lineState == 2 then Line(lineLength, linePad)
      else if lineState == 3 then LineEnd(linePad)
      else Pad
    }

    // A new member with VMS variable-length text.
    constructor (sys: System, bufSize: nat)
      requires |sys.eol| <= 2 <= bufSize
      ensures Valid() && Current() == Ready && out == [] && this.sys == sys && this.bufSize == bufSize
    {
      this.sys, this.bufSize, lineState, lineLength, linePad, out := sys, bufSize, 0, 0, false, [];
    }

    // Case 0 and 1: the length word or as much of it as there is.
    method ReadLength(raw: seq<Byte>, p: nat) returns (next: nat)
      requires Valid() && lineState <= 1 && p < |raw|
      modifies this`lineState, this`lineLength, this`linePad
      ensures Valid() && p < next <= |raw|
      ensures Follow(old(Current()), raw[p..]) == (Current(), next - p)
    {
      next := p;
      if lineState == 0 {
        if p == |raw| - 1 {
          lineLength, next, lineState := raw[p], p + 1, 1;
        } else {
          lineLength, next, lineState := Word(raw[p], raw[p + 1]), p + 2, 2;
        }
        linePad := lineLength % 2 != 0;
      } else {
        var high: int := raw[p];
        lineLength, next, lineState := lineLength + high * 256, p + 1, 2;
      }
    }

    /** Case 2: as much of the line as there is.  When the translation buffer fills up it is written
        first; the code then counts only the bytes copied after that.  So the count is wrong exactly if the line goes on
        to the end of the chunk, fills the buffer, and did not find it full. */
    method CopyLine(raw: seq<Byte>, p: nat, trans: seq<Byte>)
      returns (next: nat, trans': seq<Byte>, ghost lossless: bool)
      requires Valid() && lineState == 2 && p < |raw| <= bufSize && |trans| <= bufSize
      modifies this`lineState, this`lineLength, this`out
      ensures Valid() && p <= next <= |raw| && |trans'| <= bufSize
      ensures next == p + Min(old(lineLength), |raw| - p)
      ensures out + trans' == old(out) + trans + Native(sys, raw[p..next])
      ensures old(lineLength) < |raw| - p ==> Current() == LineEnd(linePad)
      ensures old(lineLength) >= |raw| - p ==>
                lineState == 2 && lineLength == old(lineLength) - (next - p) + if lossless then 0 else bufSize - |trans|
      ensures lossless <==> !(old(lineLength) >= |raw| - p >= bufSize - |trans| > 0)
      ensures var all := |trans| + (next - p); |trans'| == if all < bufSize then all else all - bufSize
    {
      hide Native;
      ghost var written := out;
      var remaining := |raw| - p;
      if lineLength < remaining {
        remaining := lineLength;
        lineState := 3;
      }
      next, trans' := p, trans;
      ghost var all := p + remaining;
      var outroom := bufSize - |trans|;
      lossless := true;
      if remaining >= outroom {
        lossless := lineState == 3 || outroom == 0;
        remaining := remaining - outroom;
        trans' := trans' + Native(sys, raw[p..p + outroom]);
        next := next + outroom;
        out := out + trans';
        trans' := [];
      }
      NativeInTwo(sys, written, trans, raw, p, next, all);
      lineLength := lineLength - remaining;
      trans' := trans' + Native(sys, raw[next..next + remaining]);
      next := next + remaining;
    }

    // One round of the loop of flush at raw[p..].
    method Round(raw: seq<Byte>, p: nat, trans: seq<Byte>) returns (next: nat, trans': seq<Byte>, ghost lossless: bool)
      requires Valid() && p < |raw| <= bufSize && |trans| <= bufSize
      requires |trans| + Room(|sys.eol|, Current()) <= p + |sys.eol|
      modifies this
      ensures Valid() && |trans'| <= bufSize
      ensures next == p + Follow(old(Current()), raw[p..]).1
      ensures out + trans' == old(out) + trans + Emitted(sys, old(Current()), raw[p..])
      ensures lossless <==> Current() == Follow(old(Current()), raw[p..]).0
      ensures !lossless <==> old(Current()).Line? && old(Current()).left >= |raw| - p >= bufSize - |trans|
      ensures lossless ==> |trans'| == Waiting(sys, bufSize, old(Current()), raw[p..], |trans|)
      ensures !lossless && |trans| == p && |raw| == bufSize ==> Current() == old(Current())
      ensures next > p || Rank(Current()) < Rank(old(Current()))
    {
      next, trans', lossless := p, trans, true;
      if lineState <= 1 {
        next := ReadLength(raw, p);
      } else if lineState == 2 {
        assert raw[p..][..Min(lineLength, |raw| - p)] == raw[p..p + Min(lineLength, |raw| - p)];
        next, trans', lossless := CopyLine(raw, p, trans);
      } else if lineState == 3 {
        if |trans'| > bufSize - |sys.eol| {
          out := out + trans';
          trans' := [];
        }
        trans' := trans' + sys.eol;
        lineState := if linePad then 4 else 0;
      } else {
        next := p + 1;
        lineState := 0;
      }
    }

    // What the rounds keep: pace with the input, and the answer to the question whether count will be lost.
    ghost predicate InStep(st0: State, raw: seq<Byte>, p: nat, q: nat)
      requires Valid() && p <= |raw|
      reads this
    {
      && q + Room(|sys.eol|, Current()) <= p + |sys.eol|
      && (OnPace(|sys.eol|, bufSize, Current(), raw, p, q) <==> LosesCount(|sys.eol|, bufSize, st0, raw))
      && (LosesCount(|sys.eol|, bufSize, st0, raw) ==>
            LastLine(|sys.eol|, Current(), raw[p..]) == LastLine(|sys.eol|, st0, raw))
    }

    // The loop of flush at byte p of raw: what has been written and what waits make up the output so far.
    ghost predicate Midway(written: seq<Byte>, st0: State, raw: seq<Byte>, p: nat, trans: seq<Byte>, lossless: bool)
      reads this
    {
      && Valid() && p <= |raw| <= bufSize && |trans| <= bufSize
      && var whole := ConvertRecords(sys, st0, raw);
         if lossless then
           && InStep(st0, raw, p, |trans|)
           && whole.next == ConvertRecords(sys, Current(), raw[p..]).next
           && written + whole.out == (out + trans) + ConvertRecords(sys, Current(), raw[p..]).out
         else
           && p == |raw| && written + whole.out == out + trans
           && LosesCount(|sys.eol|, bufSize, st0, raw) && Current() == LastLine(|sys.eol|, st0, raw)
    }

    lemma StartsMidway(raw: seq<Byte>)
      requires Valid() && |raw| <= bufSize
      ensures Midway(out, Current(), raw, 0, [], true)
    {
      assert raw[0..] == raw && out + [] == out;
      hide ConvertRecords, KeepsPace, LastLine;
    }

    lemma EndsMidway(written: seq<Byte>, st0: State, raw: seq<Byte>, trans: seq<Byte>, lossless: bool)
      requires Midway(written, st0, raw, |raw|, trans, lossless)
      ensures Valid() && Current() == After(sys, bufSize, st0, raw)
      ensures out + trans == written + ConvertRecords(sys, st0, raw).out
      ensures Current() == ConvertRecords(sys, st0, raw).next <==> !LosesCount(|sys.eol|, bufSize, st0, raw)
    {
      EndOfChunk(sys, Current(), raw, |raw|);
      assert raw[|raw|..] == [] && !KeepsPace(|sys.eol|, Current(), []);
      hide ConvertRecords;
      if LosesCount(|sys.eol|, bufSize, st0, raw) {
        LastLineIsTooLong(sys, st0, raw);
      }
      hide KeepsPace, LastLine;
    }

    // One more round.
    method Proceed(ghost written: seq<Byte>, ghost st0: State, raw: seq<Byte>, p: nat, trans: seq<Byte>)
      returns (next: nat, trans': seq<Byte>, ghost lossless: bool)
      requires Midway(written, st0, raw, p, trans, true) && p < |raw|
      modifies this
      ensures Midway(written, st0, raw, next, trans', lossless)
      ensures next > p || (next == p && Rank(Current()) < Rank(old(Current())))
    {
      ghost var sofar, st, s, q := out + trans, Current(), raw[p..], |trans|;
      RecordStep(sys, st, raw, p);
      LastPace(sys, bufSize, st, raw, p, q);
      if !(st.Line? && st.left >= |raw| - p >= bufSize - q) {
        PaceStep(sys, bufSize, st, raw, p, q);
      }
      hide ConvertRecords, Emitted, Rank, LosesCount, Waiting, LastLine, KeepsPace;
      next, trans', lossless := Round(raw, p, trans);
      Associative(sofar, Emitted(sys, st, s), ConvertRecords(sys, Follow(st, s).0, raw[next..]).out);
      EndOfChunk(sys, Follow(st, s).0, raw, next);
    }

    /** flush of one chunk.  What is written is always right.  The state left for the next chunk is
        right too unless the chunk loses count, and then the rest of the current line is overestimated. */
    method Flush(raw: seq<Byte>)
      requires Valid() && |raw| <= bufSize
      modifies this
      ensures Valid() && Current() == After(sys, bufSize, old(Current()), raw)
      ensures out == old(out) + ConvertRecords(sys, old(Current()), raw).out
      ensures Current() == ConvertRecords(sys, old(Current()), raw).next
         <==> !LosesCount(|sys.eol|, bufSize, old(Current()), raw)
    {
      ghost var written, st0, lossless := out, Current(), true;
      var p, trans := 0, [];
      StartsMidway(raw);
      hide Midway, ConvertRecords, Rank, LosesCount, After;
      while p < |raw|
        invariant p <= |raw| && Valid() && Midway(written, st0, raw, p, trans, lossless) && (p < |raw| ==> lossless)
        decreases |raw| - p, Rank(Current())
      {
        p, trans, lossless := Proceed(written, st0, raw, p, trans);
        MidwayMeans(written, st0, raw, p, trans, lossless);
      }
      EndsMidway(written, st0, raw, trans, lossless);
      if |trans| > 0 {
        out := out + trans;
      }
    }

    lemma MidwayMeans(written: seq<Byte>, st0: State, raw: seq<Byte>, p: nat, trans: seq<Byte>, lossless: bool)
      requires Midway(written, st0, raw, p, trans, lossless)
      ensures Valid() && p <= |raw| && (p < |raw| ==> lossless)
    {
    }

    /** A member in any number of chunks: if none but the last loses count, the output is that of one pass over the
        whole. */
    method FlushAll(chunks: seq<seq<Byte>>)
      requires Valid() && forall k :: 0 <= k < |chunks| ==> |chunks[k]| <= bufSize
      modifies this
      ensures Valid()
      ensures KeepsCount(sys, bufSize, old(Current()), chunks) ==>
                out == old(out) + ConvertRecords(sys, old(Current()), Concat(chunks)).out
    {
      ghost var whole := ConvertRecords(sys, Current(), Concat(chunks)).out;
      ghost var counts := KeepsCount(sys, bufSize, Current(), chunks);
      WholeInChunks(sys, Current(), chunks);
      var i := 0;
      assert chunks[i..] == chunks;
      while i < |chunks|
        invariant Valid() && i <= |chunks|
        invariant counts && i < |chunks| ==> KeepsCount(sys, bufSize, Current(), chunks[i..])
        invariant counts && i < |chunks| ==> old(out) + whole == out + ConvertChunks(sys, Current(), chunks[i..]).out
        invariant counts && i == |chunks| ==> out == old(out) + whole
      {
        assert chunks[i..][1..] == chunks[i + 1..];
        NextChunk(sys, Current(), chunks[i..]);
        ghost var before, written := Current(), out;
        Flush(chunks[i]);
        hide ConvertChunks, ConvertRecords, LosesCount;
        ghost var rest := ConvertChunks(sys, Current(), chunks[i + 1..]).out;
        Associative(written, ConvertRecords(sys, before, chunks[i]).out, rest);
        i := i + 1;
      }
    }
  }

  // Full chunks of a line of four bytes, whose count stays as it was.
  lemma CountStays(c: Byte, d: Byte)
    ensures After(UNIX, 2, Ready, [4, 0]) == Line(4, false) && ConvertRecords(UNIX, Ready, [4, 0]).out == []
    ensures After(UNIX, 2, Line(4, false), [c, d]) == Line(4, false)
    ensures ConvertRecords(UNIX, Line(4, false), [c, d]).out == [c, d]
  {
    assert [4, 0][2..] == [];
    assert Native(UNIX, [c, d]) == [c, d];
  }

  lemma TwoRecords()
    ensures ConvertRecords(UNIX, Ready, [4, 0, 65, 66, 67, 68, 0, 0]).out == [65, 66, 67, 68, LF]
  {
    var s := [4, 0, 65, 66, 67, 68, 0, 0];
    var l := s[2..];
    assert ConvertRecords(UNIX, Ready, s) == ConvertRecords(UNIX, Line(4, false), l);
    assert l[..4] == [65, 66, 67, 68] && l[4..] == [0, 0] && [0, 0][2..] == [];
    assert Native(UNIX, l[..4]) == [65, 66, 67, 68];
    assert ConvertRecords(UNIX, Ready, [0, 0]) == ConvertRecords(UNIX, Line(0, false), [])
           == Result([], Line(0, false));
    assert ConvertRecords(UNIX, LineEnd(false), [0, 0]).out == [LF];
  }

  /** An input that goes wrong: one record of four bytes and an empty one, in chunks that fill a buffer of two bytes. */
  method FullChunksLoseCount() returns (o: VmsOutput)
    ensures o.out == [65, 66, 67, 68, 0, 0]
    ensures ConvertRecords(UNIX, Ready, [4, 0] + [65, 66] + [67, 68] + [0, 0]).out == [65, 66, 67, 68, LF]
  {
    TwoRecords();
    assert [4, 0] + [65, 66] + [67, 68] + [0, 0] == [4, 0, 65, 66, 67, 68, 0, 0];
    CountStays(65, 66);
    CountStays(67, 68);
    CountStays(0, 0);
    hide ConvertRecords, After, LosesCount;
    o := new VmsOutput(UNIX, 2);
    o.Flush([4, 0]);
    o.Flush([65, 66]);
    o.Flush([67, 68]);
    o.Flush([0, 0]);
  }

  lemma WholeInChunks(sys: System, st: State, chunks: seq<seq<Byte>>)
    ensures ConvertChunks(sys, st, chunks) == ConvertRecords(sys, st, Concat(chunks))
    ensures chunks == [] ==> ConvertRecords(sys, st, Concat(chunks)).out == []
  {
    ChunkingDoesNotMatter(sys, st, chunks);
  }

  lemma NextChunk(sys: System, st: State, chunks: seq<seq<Byte>>)
    requires chunks != []
    ensures var first := ConvertRecords(sys, st, chunks[0]);
            ConvertChunks(sys, st, chunks).out == first.out + ConvertChunks(sys, first.next, chunks[1..]).out
    ensures |chunks| == 1 ==> ConvertChunks(sys, st, chunks).out == ConvertRecords(sys, st, chunks[0]).out
  {
  }

  // No chunk but perhaps the last loses count.
  ghost predicate KeepsCount(sys: System, bufSize: nat, st: State, chunks: seq<seq<Byte>>)
    decreases |chunks|
  {
    |chunks| > 1 ==>
      && !LosesCount(|sys.eol|, bufSize, st, chunks[0])
      && KeepsCount(sys, bufSize, ConvertRecords(sys, st, chunks[0]).next, chunks[1..])
  }

  /** Chunks smaller than the translation buffer never lose count. */
  lemma {:induction false} SmallChunksKeepCount(sys: System, bufSize: nat, st: State, chunks: seq<seq<Byte>>)
    requires forall k :: 0 <= k < |chunks| - 1 ==> |chunks[k]| < bufSize
    ensures KeepsCount(sys, bufSize, st, chunks)
    decreases |chunks|
  {
    if |chunks| > 1 {
      SmallChunksKeepCount(sys, bufSize, ConvertRecords(sys, st, chunks[0]).next, chunks[1..]);
    }
  }

  lemma EndOfChunk(sys: System, st: State, raw: seq<Byte>, p: nat)
    requires p <= |raw|
    ensures p == |raw| ==> ConvertRecords(sys, st, raw[p..]) == Result([], st)
  {
  }
}
