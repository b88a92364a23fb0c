/** The hole list of RFC 815, section 3, as __net_defragment manipulates it, on values.

    A hole is a maximal stretch of bytes that have not arrived.  The code identifies a hole by
    the 8-byte block it starts in and uses block number 0 both for "the hole at block 0" and for
    "no hole".  Step keeps that confusion: when a fragment begins exactly at the second hole
    while the first one is the hole at block 0, the first hole is forgotten (Clash). */
module HoleList {

  // last_byte of the hole whose end is not known yet
  const OPEN: nat := 0xffff

  // first is a multiple of 8; last is the position after the last missing byte
  datatype Hole = Hole(first: nat, last: nat)

  // the hole list, the end of the stretch that was forgotten (0: none), and "datagram complete"
  datatype State = State(holes: seq<Hole>, lost: nat, done: bool)

  // a fragment covers the bytes [start, end); more is the "more fragments" flag
  datatype Span = Span(start: nat, end: nat, more: bool)

  const FRESH := State([Hole(0, OPEN)], 0, false)

  ghost predicate WellFormed(hs: seq<Hole>) {
    && (forall i | 0 <= i < |hs| :: hs[i].first % 8 == 0 && hs[i].first < hs[i].last <= OPEN)
    && (forall i | 0 <= i < |hs| :: hs[i].last % 8 == 0 || hs[i].last == OPEN)
    && (forall i, j | 0 <= i < j < |hs| :: hs[i].last < hs[j].first)
  }

  ghost predicate Missing(hs: seq<Hole>, p: nat) {
    exists i :: 0 <= i < |hs| && hs[i].first <= p < hs[i].last
  }

  // The first hole that ends beyond p.
  function Find(hs: seq<Hole>, p: nat): (i: nat)
    ensures i <= |hs|
    ensures i < |hs| ==> p < hs[i].last
    ensures forall j | 0 <= j < i :: hs[j].last <= p
  {
    if hs == [] || p < hs[0].last then 0 else 1 + Find(hs[1..], p)
  }

  predicate Hits(hs: seq<Hole>, p: nat) {
    Find(hs, p) < |hs| && hs[Find(hs, p)].first <= p
  }

  lemma HitsIsMissing(hs: seq<Hole>, p: nat)
    requires WellFormed(hs)
    ensures Hits(hs, p) <==> Missing(hs, p)
  {
    if Missing(hs, p) {
      var i :| 0 <= i < |hs| && hs[i].first <= p < hs[i].last;
      assert Find(hs, p) == i;
    }
  }

  // The fragment lies inside hole i, and reaches its open end if it is the last fragment.
  ghost predicate Inside(hs: seq<Hole>, i: nat, f: Span) {
    && i < |hs| && f.start % 8 == 0 && (f.more ==> f.end % 8 == 0)
    && hs[i].first <= f.start < f.end <= hs[i].last && f.end < OPEN
    && (!f.more ==> hs[i].last == OPEN)
  }

  /** A fragment never straddles the border between missing and received bytes, is non-empty,
      8-aligned except for the very end, and only the last fragment reaches the open end. */
  ghost predicate Fits(hs: seq<Hole>, f: Span) {
    && f.start % 8 == 0 && f.start < f.end < OPEN
    && (f.more ==> f.end % 8 == 0)
    && (if Hits(hs, f.start) then Inside(hs, Find(hs, f.start), f)
        else Avoid(hs, f))
  }

  // What is left of a hole once the fragment has arrived; the last fragment also cuts off the
  // open end.
  function Rest(h: Hole, f: Span): seq<Hole> {
    var reachesEnd := !f.more || h.last <= f.end;
    if h.first >= f.start && reachesEnd then []
    else if reachesEnd then [Hole(h.first, f.start)]
    else if h.first >= f.start then [Hole(f.end, h.last)]
    else [Hole(h.first, f.start), Hole(f.end, h.last)]
  }

  function Punch(hs: seq<Hole>, i: nat, f: Span): seq<Hole>
    requires i < |hs|
  {
    hs[..i] + Rest(hs[i], f) + hs[i + 1..]
  }

  // The link at block 0 is read as "no previous hole".
  predicate Clash(hs: seq<Hole>, f: Span) {
    Hits(hs, f.start) && Find(hs, f.start) == 1 && hs[0].first == 0 && f.start == hs[1].first
  }

  function Step(s: State, f: Span): State {
    if !Hits(s.holes, f.start) then s
    else
      var hs := Punch(s.holes, Find(s.holes, f.start), f);
      if Clash(s.holes, f) then State(hs[1..], s.holes[0].last, |hs| == 1)
      else State(hs, s.lost, hs == [])
  }

  lemma MissingConcat(a: seq<Hole>, b: seq<Hole>, p: nat)
    ensures Missing(a + b, p) <==> Missing(a, p) || Missing(b, p)
  {
    if Missing(a + b, p) {
      var j :| 0 <= j < |a + b| && (a + b)[j].first <= p < (a + b)[j].last;
      if j < |a| {
        assert a[j].first <= p < a[j].last;
      } else {
        assert b[j - |a|].first <= p < b[j - |a|].last;
      }
    }
    if Missing(a, p) {
      var j :| 0 <= j < |a| && a[j].first <= p < a[j].last;
      assert (a + b)[j] == a[j];
    }
    if Missing(b, p) {
      var j :| 0 <= j < |b| && b[j].first <= p < b[j].last;
      assert (a + b)[|a| + j] == b[j];
    }
  }

  ghost predicate Before(a: seq<Hole>, b: seq<Hole>) {
    forall i, j | 0 <= i < |a| && 0 <= j < |b| :: a[i].last < b[j].first
  }

  lemma WellFormedConcat(a: seq<Hole>, b: seq<Hole>)
    requires WellFormed(a) && WellFormed(b) && Before(a, b)
    ensures WellFormed(a + b)
  {
  }

  lemma BeforeConcat(a: seq<Hole>, b: seq<Hole>, c: seq<Hole>)
    requires Before(a, c) && Before(b, c)
    ensures Before(a + b, c)
  {
  }

  // The holes on both sides of hole i.
  lemma Sides(hs: seq<Hole>, i: nat)
    requires WellFormed(hs) && i < |hs|
    ensures WellFormed(hs[..i]) && WellFormed(hs[i + 1..])
    ensures Before(hs[..i], [hs[i]]) && Before([hs[i]], hs[i + 1..]) && Before(hs[..i], hs[i + 1..])
  {
  }

  lemma RestStays(a: seq<Hole>, h: Hole, b: seq<Hole>, f: Span)
    requires WellFormed([h]) && Inside([h], 0, f)
    requires Before(a, [h]) && Before([h], b)
    ensures WellFormed(Rest(h, f)) && Before(a, Rest(h, f)) && Before(Rest(h, f), b)
  {
    var rest := Rest(h, f);
    assert [h][0] == h;
    assert forall m | m in rest :: h.first <= m.first < m.last <= h.last;
  }

  lemma PunchWellFormed(hs: seq<Hole>, i: nat, f: Span)
    requires WellFormed(hs) && Inside(hs, i, f)
    ensures WellFormed(Punch(hs, i, f))
  {
    Sides(hs, i);
    assert WellFormed([hs[i]]);
    hide WellFormed, Before, Rest;
    RestStays(hs[..i], hs[i], hs[i + 1..], f);
    BeforeConcat(hs[..i], Rest(hs[i], f), hs[i + 1..]);
    WellFormedConcat(hs[..i], Rest(hs[i], f));
    WellFormedConcat(hs[..i] + Rest(hs[i], f), hs[i + 1..]);
  }

  lemma PunchMissing(hs: seq<Hole>, i: nat, f: Span, p: nat)
    requires WellFormed(hs) && Inside(hs, i, f)
    ensures Missing(Punch(hs, i, f), p)
       <==> Missing(hs, p) && !(f.start <= p < f.end) && (f.more || p < f.end)
  {
    assert hs == hs[..i] + [hs[i]] + hs[i + 1..];
    MissingConcat(hs[..i] + [hs[i]], hs[i + 1..], p);
    MissingConcat(hs[..i], [hs[i]], p);
    MissingConcat(hs[..i] + Rest(hs[i], f), hs[i + 1..], p);
    MissingConcat(hs[..i], Rest(hs[i], f), p);
    RestMissing(hs[i], f, p);
    OutsideHole(hs, i, p);
  }

  lemma RestMissing(h: Hole, f: Span, p: nat)
    requires h.first <= f.start < f.end <= h.last
    requires !f.more ==> h.last == OPEN
    ensures Missing(Rest(h, f), p)
       <==> Missing([h], p) && !(f.start <= p < f.end) && (f.more || p < f.end)
  {
    var rest := Rest(h, f);
    if h.first <= p < f.start {
      assert [h][0].first <= p < [h][0].last;
      assert rest[0].first <= p < rest[0].last;
    }
    if f.more && f.end <= p < h.last {
      assert [h][0].first <= p < [h][0].last;
      assert rest[|rest| - 1].first <= p < rest[|rest| - 1].last;
    }
  }

  // The other holes lie entirely on one side of hole i.
  lemma OutsideHole(hs: seq<Hole>, i: nat, p: nat)
    requires WellFormed(hs) && i < |hs|
    ensures Missing(hs[..i], p) ==> p < hs[i].first
    ensures Missing(hs[i + 1..], p) ==> hs[i].last < p
    ensures hs[i].last == OPEN ==> !Missing(hs[i + 1..], p)
  {
  }

  ghost predicate Consistent(s: State) {
    && WellFormed(s.holes)
    && (s.done <==> s.holes == [])
    && (s.lost > 0 ==> forall i | 0 <= i < |s.holes| :: s.lost < s.holes[i].first)
  }

  lemma MissingDropFirst(hs: seq<Hole>, p: nat)
    requires WellFormed(hs) && hs != [] && hs[0].first == 0
    ensures Missing(hs[1..], p) <==> Missing(hs, p) && hs[0].last <= p
  {
    assert hs == hs[..1] + hs[1..];
    MissingConcat(hs[..1], hs[1..], p);
    OutsideHole(hs, 0, p);
    if Missing(hs[..1], p) {
      assert p < hs[0].last;
    }
    if p < hs[0].last {
      assert hs[0].first <= p < hs[0].last;
    }
  }

  lemma StepConsistent(s: State, f: Span)
    requires Consistent(s) && Fits(s.holes, f)
    ensures Consistent(Step(s, f))
  {
    if Hits(s.holes, f.start) {
      var i := Find(s.holes, f.start);
      PunchWellFormed(s.holes, i, f);
      if Clash(s.holes, f) {
        ClashTail(s.holes, f);
      } else {
        PunchAbove(s.holes, i, f, s.lost);
      }
    }
    hide WellFormed, Punch, Clash, Fits;
  }

  lemma ClashTail(hs: seq<Hole>, f: Span)
    requires WellFormed(hs) && Fits(hs, f) && Clash(hs, f)
    ensures var out := Punch(hs, 1, f);
            && WellFormed(out) && out != [] && WellFormed(out[1..])
            && forall i | 0 <= i < |out[1..]| :: hs[0].last < out[1..][i].first
  {
    PunchWellFormed(hs, 1, f);
    assert Punch(hs, 1, f)[0] == hs[0];
    hide Punch, Fits, Clash;
  }

  /** One fragment removes exactly its own bytes from the missing ones (and, if it is the last
      one, the open end); after a clash the bytes of the forgotten hole are gone as well. */
  lemma StepMissing(s: State, f: Span, p: nat)
    requires Consistent(s) && Fits(s.holes, f)
    ensures Missing(Step(s, f).holes, p)
       <==> && Missing(s.holes, p) && !(f.start <= p < f.end)
            && (Hits(s.holes, f.start) && !f.more ==> p < f.end)
            && (Clash(s.holes, f) ==> s.holes[0].last <= p)
  {
    if Hits(s.holes, f.start) {
      var i := Find(s.holes, f.start);
      PunchMissing(s.holes, i, f, p);
      if Clash(s.holes, f) {
        var hs := Punch(s.holes, i, f);
        assert hs[0] == s.holes[0];
        PunchWellFormed(s.holes, i, f);
        MissingDropFirst(hs, p);
      }
    }
  }

  lemma PunchAbove(hs: seq<Hole>, i: nat, f: Span, b: nat)
    requires WellFormed(hs) && Inside(hs, i, f)
    ensures (forall j | 0 <= j < |hs| :: b < hs[j].first)
        ==> (forall j | 0 <= j < |Punch(hs, i, f)| :: b < Punch(hs, i, f)[j].first)
  {
    if forall j | 0 <= j < |hs| :: b < hs[j].first {
      var out := Punch(hs, i, f);
      var rest := Rest(hs[i], f);
      forall j | 0 <= j < |out|
        ensures b < out[j].first
      {
        if j < i {
          assert out[j] == hs[j];
        } else if j < i + |rest| {
          assert out[j] == rest[j - i] && hs[i].first <= rest[j - i].first;
        } else {
          assert out[j] == hs[j - |rest| + 1];
        }
      }
    }
  }

  // The hole at block 0 is only ever forgotten once, and only by a clash.
  lemma StepLost(s: State, f: Span)
    requires Consistent(s)
    ensures Clash(s.holes, f) ==> s.lost == 0 && Step(s, f).lost > 0
    ensures !Clash(s.holes, f) ==> Step(s, f).lost == s.lost
  {
  }

  predicate OpenEnded(hs: seq<Hole>) {
    hs != [] && hs[|hs| - 1].last == OPEN
  }

  // The end stays open until the last fragment arrives for the first time.
  lemma StepOpenEnded(s: State, f: Span)
    requires Consistent(s) && Fits(s.holes, f)
    ensures OpenEnded(Step(s, f).holes) <==> OpenEnded(s.holes) && (f.more || !Hits(s.holes, f.start))
  {
    if Hits(s.holes, f.start) {
      var i := Find(s.holes, f.start);
      PunchOpenEnded(s.holes, i, f);
      if Clash(s.holes, f) {
        var hs := Punch(s.holes, i, f);
        assert hs[0] == s.holes[0] && s.holes[0].last < s.holes[1].first;
      }
    }
  }

  lemma PunchOpenEnded(hs: seq<Hole>, i: nat, f: Span)
    requires WellFormed(hs) && Inside(hs, i, f)
    ensures OpenEnded(Punch(hs, i, f)) <==> OpenEnded(hs) && f.more
  {
    if i + 1 < |hs| {
      assert hs[i].last < hs[i + 1].first < hs[i + 1].last;
      assert Punch(hs, i, f)[|Punch(hs, i, f)| - 1] == hs[|hs| - 1];
    } else {
      var rest := Rest(hs[i], f);
      assert Punch(hs, i, f) == hs[..i] + rest;
      if rest == [] && i > 0 {
        assert hs[i - 1].last < hs[i].first;
      }
    }
  }

  // Holes of a datagram of n bytes begin inside it and, unless open, end before its end.
  ghost predicate Below(hs: seq<Hole>, n: nat) {
    forall i | 0 <= i < |hs| :: hs[i].first < n && (hs[i].last == OPEN || hs[i].last < n)
  }

  lemma StepBelow(s: State, f: Span, n: nat)
    requires Consistent(s) && Fits(s.holes, f) && Below(s.holes, n)
    requires f.end <= n && (f.more <==> f.end < n)
    ensures Below(Step(s, f).holes, n)
    ensures s.lost <= n ==> Step(s, f).lost <= n
  {
    if Hits(s.holes, f.start) {
      var i := Find(s.holes, f.start);
      PunchBelow(s.holes, i, f, n);
      if Clash(s.holes, f) {
        assert s.holes[0].last < s.holes[1].first;
      }
    }
  }

  lemma PunchBelow(hs: seq<Hole>, i: nat, f: Span, n: nat)
    requires Inside(hs, i, f) && Below(hs, n) && f.end <= n && (f.more <==> f.end < n)
    ensures Below(Punch(hs, i, f), n)
  {
    assert Below(Rest(hs[i], f), n);
    assert Below(hs[..i], n) && Below(hs[i + 1..], n);
  }

  ghost predicate Avoid(hs: seq<Hole>, f: Span) {
    forall i | 0 <= i < |hs| :: hs[i].last <= f.start || f.end <= hs[i].first
  }

  // The holes that are left avoid the bytes of the fragment.
  lemma StepClearsFragment(s: State, f: Span)
    requires Consistent(s) && Fits(s.holes, f)
    ensures Avoid(Step(s, f).holes, f)
  {
    if Hits(s.holes, f.start) {
      var hs := Step(s, f).holes;
      StepConsistent(s, f);
      forall p: nat | f.start <= p < f.end
        ensures !Missing(hs, p)
      {
        StepMissing(s, f, p);
      }
      forall i: nat | i < |hs|
        ensures hs[i].last <= f.start || f.end <= hs[i].first
      {
        HoleAvoids(hs, f, i);
      }
    }
  }

  lemma HoleAvoids(hs: seq<Hole>, f: Span, i: nat)
    requires WellFormed(hs) && i < |hs|
    requires f.start % 8 == 0 && f.start < f.end
    requires forall p: nat | f.start <= p < f.end :: !Missing(hs, p)
    ensures hs[i].last <= f.start || f.end <= hs[i].first
  {
    var h := hs[i];
    var p := if h.first < f.start then f.start else h.first;
    assert h.first <= p < h.last ==> Missing(hs, p);
  }
}
