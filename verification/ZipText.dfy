/** Text-mode output of flush (fileio.c): line ends of stream-oriented members become native ones,
    however the member is cut into calls. */
module ZipText {
  import opened Basics

  const LF: Byte := 10
  const CR: Byte := 13
  const CTRLZ: Byte := 26

  // What the system uses for a line end, and its code for an ASCII character.
  datatype System = System(eol: seq<Byte>, native: Byte -> Byte)

  // What one byte of text turns into: CR LF, a lone CR and a lone LF are one line end each, ^Z is
  // dropped.
  function Emit(sys: System, c: Byte): seq<Byte> {
    if c == CR || c == LF then sys.eol else if c == CTRLZ then [] else [sys.native(c)]
  }

  function Width(s: seq<Byte>): (n: nat)
    requires s != []
    ensures 1 <= n <= |s|
  {
    if |s| > 1 && s[0] == CR && s[1] == LF then 2 else 1
  }

  /** The whole text at once. */
  function Convert(sys: System, s: seq<Byte>): seq<Byte> {
    if s == [] then [] else Emit(sys, s[0]) + Convert(sys, s[Width(s)..])
  }

  // The text that continues after a chunk which did (afterCR) or did not end in CR.
  function ConvertRest(sys: System, afterCR: bool, s: seq<Byte>): seq<Byte> {
    if afterCR && s != [] && s[0] == LF then Convert(sys, s[1..]) else Convert(sys, s)
  }

  predicate EndsInCR(s: seq<Byte>) {
    s != [] && s[|s| - 1] == CR
  }

  lemma {:induction false} ConvertConcat(sys: System, a: seq<Byte>, b: seq<Byte>)
    ensures Convert(sys, a + b) == Convert(sys, a) + ConvertRest(sys, EndsInCR(a), b)
  {
    hide Convert, ConvertRest;
    if a == [] || a == [CR] {
      ConvertAtStart(sys, b);
      assert [] + b == b;
    } else {
      var k := Width(a);
      ConvertFirst(sys, a, b);
      ConvertConcat(sys, a[k..], b);
      Associative(Emit(sys, a[0]), Convert(sys, a[k..]), ConvertRest(sys, EndsInCR(a), b));
    }
  }

  lemma ConvertAtStart(sys: System, b: seq<Byte>)
    ensures Convert(sys, b) == Convert(sys, []) + ConvertRest(sys, EndsInCR([]), b)
    ensures Convert(sys, [CR] + b) == Convert(sys, [CR]) + ConvertRest(sys, EndsInCR([CR]), b)
  {
    assert ([CR] + b)[1..] == b;
    assert b != [] ==> ([CR] + b)[2..] == b[1..];
    assert Convert(sys, [CR]) == Emit(sys, CR);
  }

  // What comes first in a does not depend on what follows, unless a is just a CR.
  lemma ConvertFirst(sys: System, a: seq<Byte>, b: seq<Byte>)
    requires a != [] && a != [CR]
    ensures Convert(sys, a) == Emit(sys, a[0]) + Convert(sys, a[Width(a)..])
    ensures Convert(sys, a + b) == Emit(sys, a[0]) + Convert(sys, a[Width(a)..] + b)
    ensures EndsInCR(a[Width(a)..]) == EndsInCR(a)
  {
    assert Width(a) == Width(a + b);
    assert (a + b)[Width(a)..] == a[Width(a)..] + b;
  }

  lemma ConvertStep(sys: System, raw: seq<Byte>, p: nat)
    requires p < |raw|
    ensures var next := if p + 1 < |raw| && raw[p] == CR && raw[p + 1] == LF then p + 2 else p + 1;
            Convert(sys, raw[p..]) == Emit(sys, raw[p]) + Convert(sys, raw[next..])
  {
    var s := raw[p..];
    assert s[Width(s)..] == raw[p + Width(s)..];
  }

  lemma Associative(a: seq<Byte>, b: seq<Byte>, c: seq<Byte>)
    ensures a + (b + c) == (a + b) + c
  {
  }

  // The loop of flush over raw[from..]; endedInCR becomes didCRlast.
  method Translate(sys: System, raw: seq<Byte>, from: nat) returns (trans: seq<Byte>, endedInCR: bool)
    requires from <= |raw|
    ensures trans == Convert(sys, raw[from..])
    ensures endedInCR <==> from < |raw| && EndsInCR(raw)
  {
    var p := from;
    trans, endedInCR := [], false;
    hide Convert;
    while p < |raw|
      invariant from <= p <= |raw|
      invariant Convert(sys, raw[from..]) == trans + Convert(sys, raw[p..])
      invariant endedInCR ==> p == |raw|
      invariant p == |raw| ==> (endedInCR <==> from < |raw| && EndsInCR(raw))
    {
      ConvertStep(sys, raw, p);
      ghost var before, c := trans, raw[p];
      if raw[p] == CR {
        trans := trans + sys.eol;
        if p == |raw| - 1 {
          endedInCR := true;
        } else if raw[p + 1] == LF {
          p := p + 1;
        }
      } else if raw[p] == LF {
        trans := trans + sys.eol;
      } else if raw[p] != CTRLZ {
        trans := trans + [sys.native(raw[p])];
      }
      p := p + 1;
      assert trans == before + Emit(sys, c);
      Associative(before, Emit(sys, c), Convert(sys, raw[p..]));
    }
    assert raw[p..] == [];
    ConvertNothing(sys);
  }

  lemma ConvertNothing(sys: System)
    ensures Convert(sys, []) == []
  {
  }

  class TextOutput {
    const sys: System
    var newfile: bool
    var didCRlast: bool
    var out: seq<Byte>     // what has been written to the output file

    // A new member: extract_or_test_member sets newfile.
    constructor (sys: System)
      ensures this.sys == sys && newfile && out == []
    {
      this.sys, newfile, didCRlast, out := sys, true, false, [];
    }

    // The state a chunk meets.
    predicate AfterCR()
      reads this
    {
      !newfile && didCRlast
    }

    /** flush of one chunk in text mode, for a member that is not VMS text. */
    method Flush(raw: seq<Byte>)
      modifies this
      ensures out == old(out) + ConvertRest(sys, old(AfterCR()), raw)
      ensures raw != [] ==> !newfile && AfterCR() == EndsInCR(raw)
      ensures raw == [] ==> newfile == old(newfile) && didCRlast == old(didCRlast)
    {
      if |raw| == 0 {
        return;
      }
      if newfile {
        didCRlast := false;
        newfile := false;
      }
      var p := 0;
      if raw[0] == LF && didCRlast {
        p := 1;
      }
      assert p == 0 ==> raw[p..] == raw;
      var trans;
      trans, didCRlast := Translate(sys, raw, p);
      if |trans| > 0 {
        out := out + trans;
      }
    }

    /** A member in any number of chunks: the output is that of one pass over the whole. */
    method FlushAll(chunks: seq<seq<Byte>>)
      modifies this
      ensures out == old(out) + ConvertRest(sys, old(AfterCR()), Concat(chunks))
      ensures old(newfile) ==> out == old(out) + Convert(sys, Concat(chunks))
    {
      WrittenIsConvertRest(sys, AfterCR(), chunks);
      assert newfile ==> ConvertRest(sys, AfterCR(), Concat(chunks)) == Convert(sys, Concat(chunks));
      hide Convert, ConvertRest, Concat, EndsInCR;
      ghost var todo := Written(sys, AfterCR(), chunks);
      ghost var whole := out + todo;
      assert chunks[0..] == chunks;
      var i := 0;
      while i < |chunks|
        invariant 0 <= i <= |chunks| && todo == Written(sys, AfterCR(), chunks[i..]) && whole == out + todo
      {
        assert chunks[i..][1..] == chunks[i + 1..];
        ghost var written, first := out, ConvertRest(sys, AfterCR(), chunks[i]);
        Flush(chunks[i]);
        todo := Written(sys, AfterCR(), chunks[i + 1..]);
        Associative(written, first, todo);
        i := i + 1;
      }
    }
  }

  // What the calls of Flush for a sequence of chunks write.
  function Written(sys: System, afterCR: bool, chunks: seq<seq<Byte>>): seq<Byte>
    decreases chunks
  {
    if chunks == [] then []
    else ConvertRest(sys, afterCR, chunks[0])
         + Written(sys, if chunks[0] == [] then afterCR else EndsInCR(chunks[0]), chunks[1..])
  }

  function Concat(chunks: seq<seq<Byte>>): seq<Byte> {
    if chunks == [] then [] else chunks[0] + Concat(chunks[1..])
  }

  lemma {:induction false} WrittenIsConvertRest(sys: System, afterCR: bool, chunks: seq<seq<Byte>>)
    ensures Written(sys, afterCR, chunks) == ConvertRest(sys, afterCR, Concat(chunks))
    decreases chunks
  {
    if chunks != [] {
      var c, rest := chunks[0], Concat(chunks[1..]);
      if c == [] {
        WrittenIsConvertRest(sys, afterCR, chunks[1..]);
        assert c + rest == rest;
      } else {
        WrittenIsConvertRest(sys, EndsInCR(c), chunks[1..]);
        if afterCR && c[0] == LF {
          assert (c + rest)[1..] == c[1..] + rest;
          ConvertConcat(sys, c[1..], rest);
          assert EndsInCR(c[1..]) == EndsInCR(c);
        } else {
          ConvertConcat(sys, c, rest);
        }
      }
    }
  }

  /** However a member is cut into chunks, the output is that of one pass over the whole. */
  lemma ChunkingDoesNotMatter(sys: System, chunks: seq<seq<Byte>>)
    ensures Written(sys, false, chunks) == Convert(sys, Concat(chunks))
  {
    WrittenIsConvertRest(sys, false, chunks);
  }

  // How text files end their lines: on DOS, on the old Macintosh, on Unix.
  datatype Ending = CrLf | LoneCr | LoneLf

  function EndBytes(e: Ending): seq<Byte> {
    match e case CrLf => [13, 10] case LoneCr => [13] case LoneLf => [10]
  }

  datatype TextLine = TextLine(text: seq<Byte>, end: Ending)

  // A text file: ended lines and what follows the last of them.
  function EncodeText(ls: seq<TextLine>, rest: seq<Byte>): seq<Byte> {
    if ls == [] then rest else ls[0].text + EndBytes(ls[0].end) + EncodeText(ls[1..], rest)
  }

  predicate Endless(s: seq<Byte>) {
    13 !in s && 10 !in s
  }

  // The texts hold no line ends, and no lone CR stands right before a line that is just a LF.
  ghost predicate IsText(ls: seq<TextLine>, rest: seq<Byte>) {
    && (forall i | 0 <= i < |ls| :: Endless(ls[i].text)) && Endless(rest)
    && forall i | 0 <= i < |ls| - 1 :: ls[i].end.LoneCr? ==> ls[i + 1] != TextLine([], LoneLf)
  }

  // The characters of a line in the native code, without ^Z.
  function NativeChars(sys: System, s: seq<Byte>): seq<Byte> {
    if s == [] then [] else (if s[0] == 26 then [] else [sys.native(s[0])]) + NativeChars(sys, s[1..])
  }

  // Each line with a native line end, and the rest without.
  function NativeText(sys: System, ls: seq<TextLine>, rest: seq<Byte>): seq<Byte> {
    if ls == [] then NativeChars(sys, rest)
    else NativeChars(sys, ls[0].text) + sys.eol + NativeText(sys, ls[1..], rest)
  }

  lemma {:induction false} EndlessComesOut(sys: System, s: seq<Byte>, more: seq<Byte>)
    requires Endless(s)
    ensures Convert(sys, s + more) == NativeChars(sys, s) + Convert(sys, more)
  {
    if s == [] {
      assert s + more == more;
    } else {
      CharComesOut(sys, s, more);
      EndlessComesOut(sys, s[1..], more);
      hide Convert;
      Associative(NativeChars(sys, s[..1]), NativeChars(sys, s[1..]), Convert(sys, more));
    }
  }

  lemma CharComesOut(sys: System, s: seq<Byte>, more: seq<Byte>)
    requires Endless(s) && s != []
    ensures Endless(s[1..]) && NativeChars(sys, s) == NativeChars(sys, s[..1]) + NativeChars(sys, s[1..])
    ensures Convert(sys, s + more) == NativeChars(sys, s[..1]) + Convert(sys, s[1..] + more)
  {
    assert (s + more)[1..] == s[1..] + more && s[..1][1..] == [];
  }

  lemma EndComesOut(sys: System, e: Ending, more: seq<Byte>)
    requires e.LoneCr? ==> more == [] || more[0] != LF
    ensures Convert(sys, EndBytes(e) + more) == sys.eol + Convert(sys, more)
  {
    var s := EndBytes(e) + more;
    assert s[|EndBytes(e)|..] == more;
  }

  /** Every line comes out as its characters and one native line end, whichever end it had; ^Z adds nothing. */
  lemma {:induction false} LinesComeOut(sys: System, ls: seq<TextLine>, rest: seq<Byte>)
    requires IsText(ls, rest)
    ensures Convert(sys, EncodeText(ls, rest)) == NativeText(sys, ls, rest)
    decreases ls
  {
    if ls == [] {
      assert rest + [] == rest;
      EndlessComesOut(sys, rest, []);
      assert NativeChars(sys, rest) + [] == NativeChars(sys, rest);
    } else {
      var l, more := ls[0], EncodeText(ls[1..], rest);
      LinesComeOut(sys, ls[1..], rest);
      NextLineStart(ls[1..], rest);
      assert l.text + EndBytes(l.end) + more == l.text + (EndBytes(l.end) + more);
      EndlessComesOut(sys, l.text, EndBytes(l.end) + more);
      EndComesOut(sys, l.end, more);
      Associative(NativeChars(sys, l.text), sys.eol, Convert(sys, more));
    }
  }

  // A text begins with LF only as an empty line with that end.
  lemma NextLineStart(ls: seq<TextLine>, rest: seq<Byte>)
    requires IsText(ls, rest)
    ensures var s := EncodeText(ls, rest); s != [] && s[0] == LF ==> ls != [] && ls[0] == TextLine([], LoneLf)
  {
    if ls != [] && ls[0].text != [] {
      assert EncodeText(ls, rest)[0] == ls[0].text[0];
    }
  }

  /** Every sequence of bytes is such a text. */
  lemma {:induction false} EveryTextHasLines(s: seq<Byte>) returns (ls: seq<TextLine>, rest: seq<Byte>)
    ensures IsText(ls, rest) && EncodeText(ls, rest) == s
    decreases |s|
  {
    if s == [] {
      ls, rest := [], [];
    } else if s[0] == CR && |s| > 1 && s[1] == LF {
      ls, rest := EveryTextHasLines(s[2..]);
      ls := FirstLine(TextLine([], CrLf), ls, rest);
    } else if s[0] == CR || s[0] == LF {
      ls, rest := EveryTextHasLines(s[1..]);
      NextLineStart(ls, rest);
      ls := FirstLine(TextLine([], if s[0] == CR then LoneCr else LoneLf), ls, rest);
    } else {
      ls, rest := EveryTextHasLines(s[1..]);
      if ls == [] {
        rest := [s[0]] + rest;
      } else {
        var l := TextLine([s[0]] + ls[0].text, ls[0].end);
        assert EncodeText([l] + ls[1..], rest) == [s[0]] + EncodeText(ls, rest);
        ls := [l] + ls[1..];
      }
    }
  }

  lemma FirstLine(l: TextLine, ls: seq<TextLine>, rest: seq<Byte>) returns (all: seq<TextLine>)
    requires Endless(l.text) && IsText(ls, rest)
    requires l.end.LoneCr? && ls != [] ==> ls[0] != TextLine([], LoneLf)
    ensures all == [l] + ls && IsText(all, rest)
    ensures EncodeText(all, rest) == l.text + EndBytes(l.end) + EncodeText(ls, rest)
  {
    all := [l] + ls;
    assert all[1..] == ls;
  }

  /** A member that is such a text, in any number of chunks. */
  method FlushText(o: TextOutput, chunks: seq<seq<Byte>>, ghost ls: seq<TextLine>, ghost rest: seq<Byte>)
    requires o.newfile && IsText(ls, rest) && Concat(chunks) == EncodeText(ls, rest)
    modifies o
    ensures o.out == old(o.out) + NativeText(o.sys, ls, rest)
  {
    o.FlushAll(chunks);
    LinesComeOut(o.sys, ls, rest);
  }

  const UNIX: System := System([LF], c => c)

  /** On Unix the converted text has neither CR nor ^Z, and converting it again changes nothing. */
  lemma {:induction false} ConvertedTextIsPlain(s: seq<Byte>)
    ensures CR !in Convert(UNIX, s) && CTRLZ !in Convert(UNIX, s)
  {
    if s != [] {
      ConvertedTextIsPlain(s[Width(s)..]);
    }
  }

  lemma {:induction false} PlainTextStays(s: seq<Byte>)
    requires CR !in s && CTRLZ !in s
    ensures Convert(UNIX, s) == s
  {
    if s != [] {
      assert s == [s[0]] + s[1..];
      PlainTextStays(s[1..]);
    }
  }

  lemma ConvertIsIdempotent(s: seq<Byte>)
    ensures Convert(UNIX, Convert(UNIX, s)) == Convert(UNIX, s)
  {
    ConvertedTextIsPlain(s);
    PlainTextStays(Convert(UNIX, s));
  }
}
