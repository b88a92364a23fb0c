/** Whole runs of the reassembly algorithm: a datagram is cut into pieces, and the pieces arrive in
    any order, some of them more than once. */
module HoleRuns {
  import opened HoleList

  // IP_MAXUDP: the payload that the code accepts, 16384 - 20 bytes.
  const MAXUDP: nat := 16364

  // c[k] is where piece k begins, the last entry is the length of the datagram.
  ghost predicate IsCut(c: seq<nat>) {
    && 2 <= |c| && c[0] == 0
    && (forall i, j | 0 <= i < j < |c| :: c[i] < c[j])
    && (forall i | 0 <= i < |c| - 1 :: c[i] % 8 == 0)
    && c[|c| - 1] <= MAXUDP
  }

  function SpanOf(c: seq<nat>, k: nat): Span
    requires k + 1 < |c|
  {
    Span(c[k], c[k + 1], k + 2 < |c|)
  }

  predicate Indices(c: seq<nat>, arrivals: seq<nat>) {
    forall t | 0 <= t < |arrivals| :: arrivals[t] + 1 < |c|
  }

  function Run(c: seq<nat>, arrivals: seq<nat>): State
    requires Indices(c, arrivals)
  {
    if arrivals == [] then FRESH
    else
      var n := |arrivals| - 1;
      Step(Run(c, arrivals[..n]), SpanOf(c, arrivals[n]))
  }

  // No fragment begins at the second hole while block 0 is still missing.
  predicate ClashFree(c: seq<nat>, arrivals: seq<nat>)
    requires Indices(c, arrivals)
  {
    arrivals == [] ||
    var n := |arrivals| - 1;
    && ClashFree(c, arrivals[..n])
    && !Clash(Run(c, arrivals[..n]).holes, SpanOf(c, arrivals[n]))
  }

  // Byte p is still due: no piece that holds it has arrived, and it is not known to be past the end.
  ghost predicate Due(c: seq<nat>, arrivals: seq<nat>, p: nat)
    requires Indices(c, arrivals)
  {
    && p < OPEN
    && (forall k | k in arrivals :: !(c[k] <= p < c[k + 1]))
    && (|c| >= 2 && |c| - 2 in arrivals ==> p < c[|c| - 1])
  }

  ghost predicate StartsPiece(c: seq<nat>, x: nat) {
    exists k :: 0 <= k < |c| - 1 && c[k] == x
  }

  ghost predicate OnCuts(hs: seq<Hole>, c: seq<nat>) {
    forall i | 0 <= i < |hs| ::
      StartsPiece(c, hs[i].first) && (hs[i].last == OPEN || StartsPiece(c, hs[i].last))
  }

  // Hole borders are piece borders, so a piece lies inside one hole or outside all of them.
  lemma PieceFits(c: seq<nat>, hs: seq<Hole>, k: nat)
    requires IsCut(c) && WellFormed(hs) && OnCuts(hs, c) && k + 1 < |c|
    ensures Fits(hs, SpanOf(c, k))
  {
    var f := SpanOf(c, k);
    if Hits(hs, f.start) {
      PieceInside(c, hs, k);
    } else {
      PieceOutside(c, hs, k);
    }
    hide IsCut, WellFormed, OnCuts, Find, Hits, Avoid, Inside;
    PieceOfCut(c, k);
  }

  lemma PieceOfCut(c: seq<nat>, k: nat)
    requires IsCut(c) && k + 1 < |c|
    ensures var f := SpanOf(c, k);
            f.start % 8 == 0 && f.start < f.end < OPEN && (f.more ==> f.end % 8 == 0)
  {
  }

  // A border behind the start of piece k does not come before its end.
  lemma BorderBehind(c: seq<nat>, k: nat, x: nat)
    requires IsCut(c) && k + 1 < |c| && StartsPiece(c, x) && c[k] < x
    ensures k + 2 < |c| && c[k + 1] <= x
  {
    var m :| 0 <= m < |c| - 1 && c[m] == x;
    assert m > k;
    assert m == k + 1 || (m > k + 1 && c[k + 1] < c[m]);
  }

  lemma PieceInside(c: seq<nat>, hs: seq<Hole>, k: nat)
    requires IsCut(c) && WellFormed(hs) && OnCuts(hs, c) && k + 1 < |c| && Hits(hs, c[k])
    ensures Inside(hs, Find(hs, c[k]), SpanOf(c, k))
  {
    hide IsCut, WellFormed, Find, StartsPiece;
    var last := hs[Find(hs, c[k])].last;
    PieceOfCut(c, k);
    if last != OPEN {
      BorderBehind(c, k, last);
    }
  }

  lemma PieceOutside(c: seq<nat>, hs: seq<Hole>, k: nat)
    requires IsCut(c) && WellFormed(hs) && OnCuts(hs, c) && k + 1 < |c| && !Hits(hs, c[k])
    ensures Avoid(hs, SpanOf(c, k))
  {
    HitsIsMissing(hs, c[k]);
    hide Find, Hits, IsCut, StartsPiece;
    forall i | 0 <= i < |hs|
      ensures hs[i].last <= c[k] || c[k + 1] <= hs[i].first
    {
      if c[k] < hs[i].last {
        BorderBehind(c, k, hs[i].first);
      }
    }
  }

  lemma StepOnCuts(c: seq<nat>, s: State, k: nat)
    requires IsCut(c) && Consistent(s) && OnCuts(s.holes, c) && k + 1 < |c|
    ensures OnCuts(Step(s, SpanOf(c, k)).holes, c)
  {
    var f := SpanOf(c, k);
    PieceFits(c, s.holes, k);
    if Hits(s.holes, f.start) {
      var i := Find(s.holes, f.start);
      var hs := Punch(s.holes, i, f);
      var rest := Rest(s.holes[i], f);
      assert StartsPiece(c, f.start);
      assert f.more ==> StartsPiece(c, f.end);
      assert OnCuts(rest, c);
      assert OnCuts(hs, c);
    }
  }

  lemma {:induction false} RunConsistent(c: seq<nat>, arrivals: seq<nat>)
    requires IsCut(c) && Indices(c, arrivals)
    ensures Consistent(Run(c, arrivals)) && OnCuts(Run(c, arrivals).holes, c)
  {
    if arrivals == [] {
      assert StartsPiece(c, 0);
    } else {
      var n := |arrivals| - 1;
      RunConsistent(c, arrivals[..n]);
      PieceFits(c, Run(c, arrivals[..n]).holes, arrivals[n]);
      StepConsistent(Run(c, arrivals[..n]), SpanOf(c, arrivals[n]));
      StepOnCuts(c, Run(c, arrivals[..n]), arrivals[n]);
    }
  }

  /** As long as no clash occurs, the holes are exactly the bytes that have not arrived. */
  lemma {:induction false} HolesAreDueBytes(c: seq<nat>, arrivals: seq<nat>, p: nat)
    requires IsCut(c) && Indices(c, arrivals) && ClashFree(c, arrivals)
    ensures Missing(Run(c, arrivals).holes, p) <==> Due(c, arrivals, p)
  {
    if arrivals == [] {
      if p < OPEN {
        assert FRESH.holes[0].first <= p < FRESH.holes[0].last;
      }
    } else {
      var n := |arrivals| - 1;
      var s, f := Run(c, arrivals[..n]), SpanOf(c, arrivals[n]);
      RunConsistent(c, arrivals[..n]);
      PieceFits(c, s.holes, arrivals[n]);
      StepMissing(s, f, p);
      HolesAreDueBytes(c, arrivals[..n], p);
      HolesAreDueBytes(c, arrivals[..n], f.start);
      HitsIsMissing(s.holes, f.start);
      DueExtend(c, arrivals, p);
      if !Hits(s.holes, f.start) {
        RepeatChangesNothing(c, arrivals, p);
      }
    }
  }

  lemma DueExtend(c: seq<nat>, arrivals: seq<nat>, p: nat)
    requires Indices(c, arrivals) && arrivals != []
    ensures Due(c, arrivals, p)
       <==> var n := |arrivals| - 1;
            && Due(c, arrivals[..n], p)
            && !(c[arrivals[n]] <= p < c[arrivals[n] + 1])
            && (arrivals[n] == |c| - 2 ==> p < c[|c| - 1])
  {
    var n := |arrivals| - 1;
    assert forall k :: k in arrivals <==> k in arrivals[..n] || k == arrivals[n];
  }

  // A piece whose first byte is not due has arrived before.
  lemma RepeatChangesNothing(c: seq<nat>, arrivals: seq<nat>, p: nat)
    requires IsCut(c) && Indices(c, arrivals) && arrivals != []
    requires !Due(c, arrivals[..|arrivals| - 1], c[arrivals[|arrivals| - 1]])
    ensures Due(c, arrivals, p) <==> Due(c, arrivals[..|arrivals| - 1], p)
    ensures arrivals[|arrivals| - 1] in arrivals[..|arrivals| - 1]
  {
    var n := |arrivals| - 1;
    NotDueArrived(c, arrivals[..n], arrivals[n]);
    DueExtend(c, arrivals, p);
  }

  lemma NotDueArrived(c: seq<nat>, arrivals: seq<nat>, k: nat)
    requires IsCut(c) && Indices(c, arrivals) && k + 1 < |c|
    ensures Due(c, arrivals, c[k]) <==> k !in arrivals
  {
    if !Due(c, arrivals, c[k]) {
      assert c[k] < c[|c| - 1];
      var m :| m in arrivals && c[m] <= c[k] < c[m + 1];
      assert m == k;
    } else {
      assert c[k] < c[k + 1];
    }
  }

  predicate AllArrived(c: seq<nat>, arrivals: seq<nat>) {
    forall k | 0 <= k < |c| - 1 :: k in arrivals
  }

  /** Soundness and completeness: without a clash the code reports completion exactly when every
      piece has arrived. */
  lemma CompleteExactlyWhenAllArrived(c: seq<nat>, arrivals: seq<nat>)
    requires IsCut(c) && Indices(c, arrivals) && ClashFree(c, arrivals)
    ensures Run(c, arrivals).done <==> AllArrived(c, arrivals)
  {
    var hs := Run(c, arrivals).holes;
    RunConsistent(c, arrivals);
    if hs != [] {
      HolesAreDueBytes(c, arrivals, hs[0].first);
      assert Missing(hs, hs[0].first);
      var k :| 0 <= k < |c| - 1 && c[k] == hs[0].first;
      NotDueArrived(c, arrivals, k);
    } else {
      forall k | 0 <= k < |c| - 1
        ensures k in arrivals
      {
        HolesAreDueBytes(c, arrivals, c[k]);
        NotDueArrived(c, arrivals, k);
      }
    }
  }

  ghost predicate TracksMissingBytes(c: seq<nat>, arrivals: seq<nat>)
    requires Indices(c, arrivals)
  {
    forall p: nat :: Missing(Run(c, arrivals).holes, p) <==> Due(c, arrivals, p)
  }

  lemma {:induction false} ClashFreePrefix(c: seq<nat>, arrivals: seq<nat>, n: nat)
    requires Indices(c, arrivals) && n <= |arrivals|
    ensures ClashFree(c, arrivals) ==> ClashFree(c, arrivals[..n])
  {
    if n < |arrivals| {
      var m := |arrivals| - 1;
      ClashFreePrefix(c, arrivals[..m], n);
      assert arrivals[..m][..n] == arrivals[..n];
    } else {
      assert arrivals[..n] == arrivals;
    }
  }

  /** The exact condition: the hole list is right after every fragment if and only if no fragment
      ever begins at the second hole while block 0 is missing. */
  lemma {:induction false} TracksIffClashFree(c: seq<nat>, arrivals: seq<nat>)
    requires IsCut(c) && Indices(c, arrivals)
    ensures ClashFree(c, arrivals)
       <==> forall n | 0 <= n <= |arrivals| :: TracksMissingBytes(c, arrivals[..n])
  {
    if ClashFree(c, arrivals) {
      forall n | 0 <= n <= |arrivals|
        ensures TracksMissingBytes(c, arrivals[..n])
      {
        ClashFreeTracks(c, arrivals, n);
      }
    } else {
      var n := |arrivals| - 1;
      assert arrivals[..|arrivals|] == arrivals;
      if ClashFree(c, arrivals[..n]) {
        ClashForgetsByteZero(c, arrivals);
      } else {
        TracksIffClashFree(c, arrivals[..n]);
        var m :| 0 <= m <= n && !TracksMissingBytes(c, arrivals[..n][..m]);
        assert arrivals[..n][..m] == arrivals[..m];
      }
    }
    hide Run, Due;
  }

  lemma ClashFreeTracks(c: seq<nat>, arrivals: seq<nat>, n: nat)
    requires IsCut(c) && Indices(c, arrivals) && ClashFree(c, arrivals) && n <= |arrivals|
    ensures TracksMissingBytes(c, arrivals[..n])
  {
    hide Run, Due;
    ClashFreePrefix(c, arrivals, n);
    forall p: nat
      ensures Missing(Run(c, arrivals[..n]).holes, p) <==> Due(c, arrivals[..n], p)
    {
      HolesAreDueBytes(c, arrivals[..n], p);
    }
  }

  lemma ClashForgetsByteZero(c: seq<nat>, arrivals: seq<nat>)
    requires IsCut(c) && Indices(c, arrivals) && arrivals != []
    requires ClashFree(c, arrivals[..|arrivals| - 1]) && !ClashFree(c, arrivals)
    ensures Due(c, arrivals, 0) && !Missing(Run(c, arrivals).holes, 0)
  {
    var n := |arrivals| - 1;
    var s, f := Run(c, arrivals[..n]), SpanOf(c, arrivals[n]);
    RunConsistent(c, arrivals[..n]);
    PieceFits(c, s.holes, arrivals[n]);
    HolesAreDueBytes(c, arrivals[..n], 0);
    assert s.holes[0].first <= 0 < s.holes[0].last;
    StepMissing(s, f, 0);
    DueExtend(c, arrivals, 0);
  }

  // lost records whether a clash has happened.
  lemma {:induction false} LostIffClash(c: seq<nat>, arrivals: seq<nat>)
    requires IsCut(c) && Indices(c, arrivals)
    ensures Run(c, arrivals).lost == 0 <==> ClashFree(c, arrivals)
  {
    if arrivals != [] {
      var n := |arrivals| - 1;
      LostIffClash(c, arrivals[..n]);
      RunConsistent(c, arrivals[..n]);
      StepLost(Run(c, arrivals[..n]), SpanOf(c, arrivals[n]));
    }
  }

  // Nothing before piece j is there, pieces j to k-1 are, and piece k is not.
  ghost predicate SecondGap(here: set<nat>, j: nat, k: nat) {
    && 0 < j < k && k !in here
    && (forall m: nat | m < j :: m !in here)
    && (forall m: nat | j <= m < k :: m in here)
  }

  ghost function Here(c: seq<nat>, hs: seq<Hole>): set<nat> {
    set m: nat | m < |c| - 1 && !Missing(hs, c[m])
  }

  function Arrived(arrivals: seq<nat>): set<nat> {
    set m | m in arrivals
  }

  lemma HereIsArrived(c: seq<nat>, arrivals: seq<nat>)
    requires IsCut(c) && Indices(c, arrivals) && ClashFree(c, arrivals)
    ensures Here(c, Run(c, arrivals).holes) == Arrived(arrivals)
  {
    forall m: nat | m < |c| - 1
      ensures !Missing(Run(c, arrivals).holes, c[m]) <==> m in arrivals
    {
      HolesAreDueBytes(c, arrivals, c[m]);
      NotDueArrived(c, arrivals, m);
    }
  }

  /** What a clash is in terms of the pieces that have arrived, which a caller can check before
      handing over a fragment. */
  lemma ClashIffSecondGap(c: seq<nat>, arrivals: seq<nat>, k: nat)
    requires IsCut(c) && Indices(c, arrivals) && ClashFree(c, arrivals) && k + 1 < |c|
    ensures Clash(Run(c, arrivals).holes, SpanOf(c, k))
       <==> exists j :: SecondGap(Arrived(arrivals), j, k)
  {
    var hs := Run(c, arrivals).holes;
    RunConsistent(c, arrivals);
    HereIsArrived(c, arrivals);
    if Clash(hs, SpanOf(c, k)) {
      var j := ClashGivesGap(c, hs, k);
    }
    if j :| SecondGap(Here(c, hs), j, k) {
      GapGivesClash(c, hs, j, k);
    }
  }

  lemma ClashGivesGap(c: seq<nat>, hs: seq<Hole>, k: nat) returns (j: nat)
    requires IsCut(c) && WellFormed(hs) && OnCuts(hs, c) && k + 1 < |c|
    requires Clash(hs, SpanOf(c, k))
    ensures SecondGap(Here(c, hs), j, k)
  {
    HitsIsMissing(hs, c[k]);
    assert hs[0].last < hs[1].first == c[k] && hs[0].last != OPEN;
    j :| 0 <= j < |c| - 1 && c[j] == hs[0].last;
    forall m: nat | m < j
      ensures Missing(hs, c[m])
    {
      assert hs[0].first <= c[m] < hs[0].last;
    }
    forall m: nat | j <= m < k
      ensures m < |c| - 1 && !Missing(hs, c[m])
    {
      assert hs[0].last <= c[m] < hs[1].first;
      InGap(hs, 0, c[m]);
    }
  }

  // Positions between two neighbouring holes are not missing.
  lemma InGap(hs: seq<Hole>, i: nat, p: nat)
    requires WellFormed(hs) && i + 1 < |hs| && hs[i].last <= p < hs[i + 1].first
    ensures !Missing(hs, p)
  {
  }

  lemma GapGivesClash(c: seq<nat>, hs: seq<Hole>, j: nat, k: nat)
    requires IsCut(c) && WellFormed(hs) && OnCuts(hs, c) && k + 1 < |c|
    requires SecondGap(Here(c, hs), j, k)
    ensures Clash(hs, SpanOf(c, k))
  {
    var here := Here(c, hs);
    assert 0 !in here && k !in here && j in here && k - 1 in here;
    assert Missing(hs, c[0]) && Missing(hs, c[k]);
    assert hs[0].first == 0;
    HitsIsMissing(hs, c[k]);
    var i := Find(hs, c[k]);
    assert i != 0 by {
      assert !(hs[0].first <= c[j] < hs[0].last);
    }
    HoleStartsAtGapEnd(c, hs, i, k);
    SecondHoleAtGapEnd(c, hs, j, k);
    hide Missing, StartsPiece, OnCuts;
  }

  lemma SecondHoleAtGapEnd(c: seq<nat>, hs: seq<Hole>, j: nat, k: nat)
    requires IsCut(c) && WellFormed(hs) && OnCuts(hs, c) && k + 1 < |c| && |hs| > 1
    requires SecondGap(Here(c, hs), j, k)
    requires hs[0].first == 0 && hs[0].last <= c[j] && hs[1].first <= c[k]
    ensures hs[1].first == c[k]
  {
    var m :| 0 <= m < |c| - 1 && c[m] == hs[0].last;
    var d :| 0 <= d < |c| - 1 && c[d] == hs[1].first;
    InGap(hs, 0, c[m]);
    assert Missing(hs, c[d]) by {
      assert hs[1].first <= c[d] < hs[1].last;
    }
    assert m in Here(c, hs) && d !in Here(c, hs) && m < d <= k;
    assert j <= m;
    hide Missing, WellFormed, StartsPiece;
  }

  // The hole that holds piece k begins there if the piece before has arrived.
  lemma HoleStartsAtGapEnd(c: seq<nat>, hs: seq<Hole>, i: nat, k: nat)
    requires IsCut(c) && WellFormed(hs) && OnCuts(hs, c) && 0 < k < |c| - 1 && i < |hs|
    requires hs[i].first <= c[k] < hs[i].last && !Missing(hs, c[k - 1])
    ensures hs[i].first == c[k]
  {
    var b :| 0 <= b < |c| - 1 && c[b] == hs[i].first;
    assert forall x | b <= x < |c| - 1 :: c[b] <= c[x];
  }

  lemma ClashNeedsEarlierPiece(c: seq<nat>, arrivals: seq<nat>, k: nat) returns (j: nat)
    requires IsCut(c) && Indices(c, arrivals) && ClashFree(c, arrivals) && k + 1 < |c|
    requires Clash(Run(c, arrivals).holes, SpanOf(c, k))
    ensures 0 !in arrivals && j in arrivals && j < k
  {
    ClashIffSecondGap(c, arrivals, k);
    j :| SecondGap(Arrived(arrivals), j, k);
    assert 0 !in Arrived(arrivals) && j in Arrived(arrivals);
  }

  /** Two orders that never clash: the first piece comes first, or the pieces come in descending
      order (with repeats). */
  lemma {:induction false} FirstPieceFirst(c: seq<nat>, arrivals: seq<nat>)
    requires IsCut(c) && Indices(c, arrivals)
    requires arrivals != [] ==> arrivals[0] == 0
    ensures ClashFree(c, arrivals)
  {
    if arrivals != [] {
      var n := |arrivals| - 1;
      FirstPieceFirst(c, arrivals[..n]);
      if Clash(Run(c, arrivals[..n]).holes, SpanOf(c, arrivals[n])) {
        var j := ClashNeedsEarlierPiece(c, arrivals[..n], arrivals[n]);
        assert false;
      }
    }
  }

  lemma {:induction false} DescendingOrder(c: seq<nat>, arrivals: seq<nat>)
    requires IsCut(c) && Indices(c, arrivals)
    requires forall s, t | 0 <= s < t < |arrivals| :: arrivals[t] <= arrivals[s]
    ensures ClashFree(c, arrivals)
  {
    if arrivals != [] {
      var n := |arrivals| - 1;
      DescendingOrder(c, arrivals[..n]);
      if Clash(Run(c, arrivals[..n]).holes, SpanOf(c, arrivals[n])) {
        var j := ClashNeedsEarlierPiece(c, arrivals[..n], arrivals[n]);
        assert false;
      }
    }
  }

  /** A concrete run that goes wrong: three 8-byte pieces, the middle one first and the last one
      second.  Completion is reported although the first piece never arrived. */
  lemma MiddleThenLastCompletesTooEarly()
    ensures IsCut([0, 8, 16, 24]) && Indices([0, 8, 16, 24], [1, 2])
    ensures Run([0, 8, 16, 24], [1, 2]).done && 0 !in [1, 2]
  {
    var c := [0, 8, 16, 24];
    assert [1, 2][..1] == [1] && [1][..0] == [];
    assert Run(c, []) == FRESH;
    assert Run(c, [1]) == Step(FRESH, Span(8, 16, true));
    assert Run(c, [1, 2]) == Step(Run(c, [1]), Span(16, 24, false));
    hide Run, Step;
    MiddleArrives();
    LastArrives();
  }

  lemma MiddleArrives()
    ensures Step(FRESH, Span(8, 16, true)) == State([Hole(0, 8), Hole(16, OPEN)], 0, false)
  {
  }

  lemma LastArrives()
    ensures Step(State([Hole(0, 8), Hole(16, OPEN)], 0, false), Span(16, 24, false)).done
  {
    var hs := [Hole(0, 8), Hole(16, OPEN)];
    assert hs[1..] == [Hole(16, OPEN)];
    assert Find(hs, 16) == 1;
    assert Punch(hs, 1, Span(16, 24, false)) == [Hole(0, 8)];
  }

  // When a run that stops at its first completion, or else at its end, has used n fragments.
  lemma FirstCompletion(c: seq<nat>, arrivals: seq<nat>, n: nat)
    requires IsCut(c) && Indices(c, arrivals) && ClashFree(c, arrivals) && n <= |arrivals|
    requires n > 0 ==> !Run(c, arrivals[..n - 1]).done
    requires Run(c, arrivals[..n]).done || n == |arrivals|
    ensures Run(c, arrivals[..n]).lost == 0
    ensures Run(c, arrivals[..n]).done <==> AllArrived(c, arrivals)
    ensures Run(c, arrivals[..n]).done <==> AllArrived(c, arrivals[..n])
    ensures n > 0 ==> !AllArrived(c, arrivals[..n - 1])
  {
    PrefixCompletion(c, arrivals, n);
    if n > 0 {
      PrefixCompletion(c, arrivals, n - 1);
    }
    assert n == |arrivals| ==> arrivals[..n] == arrivals;
    assert forall k | k in arrivals[..n] :: k in arrivals;
    hide Run, ClashFree;
  }

  lemma PrefixCompletion(c: seq<nat>, arrivals: seq<nat>, n: nat)
    requires IsCut(c) && Indices(c, arrivals) && ClashFree(c, arrivals) && n <= |arrivals|
    ensures Run(c, arrivals[..n]).lost == 0
    ensures Run(c, arrivals[..n]).done <==> AllArrived(c, arrivals[..n])
  {
    hide Run, AllArrived;
    ClashFreePrefix(c, arrivals, n);
    CompleteExactlyWhenAllArrived(c, arrivals[..n]);
    LostIffClash(c, arrivals[..n]);
  }
}
