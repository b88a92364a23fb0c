/** The memory tests of cmd/mem.c on memory whose cells are sound but whose address decoder is
    arbitrary: which decoders each test accepts. */
module MemTest {
  import opened Basics

  const WORD_VALUES: nat := 0x1_0000_0000_0000_0000   // vu_long has 64 bits
  const MAX_WORDS: nat := 0x2000_0000_0000_0000       // words of a 64-bit address space

  type Word = x: int | 0 <= x < WORD_VALUES

  const PATTERN: Word := 0xaaaa_aaaa
  const ANTI_PATTERN: Word := 0x5555_5555

  function Complement(v: Word): Word {
    WORD_VALUES - 1 - v
  }

  lemma {:induction false} Pow2Increases(i: nat, j: nat)
    requires i <= j
    ensures Pow2(i) <= Pow2(j) && (i < j ==> Pow2(i) < Pow2(j))
  {
    if i < j {
      Pow2Increases(i, j - 1);
    }
  }

  // The number of powers of two below n.
  function Lines(n: nat): (k: nat)
    ensures n <= Pow2(k) && (k > 0 ==> Pow2(k - 1) < n)
  {
    if n <= 1 then 0 else
      var k := Lines((n + 1) / 2);
      assert Pow2(k + 1) == 2 * Pow2(k);
      k + 1
  }

  lemma BelowLines(n: nat, i: nat)
    ensures Pow2(i) < n <==> i < Lines(n)
  {
    var k := Lines(n);
    if i < k {
      Pow2Increases(i, k - 1);
    } else {
      Pow2Increases(k, i);
    }
  }

  // The cell behind word a.
  function Select(decode: nat -> nat, a: nat): nat {
    decode(a)
  }

  // The cell that address line i alone selects.
  function Cell(decode: nat -> nat, i: nat): nat {
    Select(decode, Pow2(i))
  }

  // How many of the first k lines select the given cell, not counting line skip.
  function Aliases(decode: nat -> nat, k: nat, cell: nat, skip: int): nat {
    if k == 0 then 0
    else Aliases(decode, k - 1, cell, skip) + if Cell(decode, k - 1) == cell && k - 1 != skip then 1 else 0
  }

  // How many ordered pairs of distinct lines, the first of them below t, select the same cell.
  function AliasPairs(decode: nat -> nat, k: nat, t: nat): nat {
    if t == 0 then 0
    else AliasPairs(decode, k, t - 1) + Aliases(decode, k, Cell(decode, t - 1), t - 1)
  }

  // The lines, other than line skip, among the first k that select the given cell.
  ghost function Aliasing(decode: nat -> nat, k: nat, cell: nat, skip: int): set<nat> {
    set i: nat | i < k && i != skip && Cell(decode, i) == cell
  }

  lemma {:induction false} AliasesCount(decode: nat -> nat, k: nat, cell: nat, skip: int)
    ensures Aliases(decode, k, cell, skip) == |Aliasing(decode, k, cell, skip)|
  {
    hide Aliasing, Select;
    AliasingNext(decode, k, cell, skip);
    if k > 0 {
      AliasesCount(decode, k - 1, cell, skip);
    }
  }

  lemma AliasingNext(decode: nat -> nat, k: nat, cell: nat, skip: int)
    ensures k == 0 ==> Aliasing(decode, k, cell, skip) == {}
    ensures var more := if k > 0 && Cell(decode, k - 1) == cell && k - 1 != skip then 1 else 0;
            k > 0 ==> |Aliasing(decode, k, cell, skip)| == |Aliasing(decode, k - 1, cell, skip)| + more
  {
    if k > 0 {
      var before, all := Aliasing(decode, k - 1, cell, skip), Aliasing(decode, k, cell, skip);
      assert all == before + if Cell(decode, k - 1) == cell && k - 1 != skip then {k - 1} else {};
    }
  }

  // The ordered pairs of distinct lines, the first of them below t, that select the same cell.
  ghost function Pairing(decode: nat -> nat, k: nat, t: nat): set<(nat, nat)> {
    set i: nat, j: nat | i < t && j < k && j != i && Cell(decode, j) == Cell(decode, i) :: (i, j)
  }

  // What is counted: ordered pairs of lines, each pair once.
  lemma {:induction false} AliasPairsCount(decode: nat -> nat, k: nat, t: nat)
    ensures AliasPairs(decode, k, t) == |Pairing(decode, k, t)|
  {
    hide Pairing, Aliases, Aliasing, Select;
    if t == 0 {
      NonePaired(decode, k);
    } else {
      PairingNext(decode, k, t);
      AliasPairsCount(decode, k, t - 1);
      AliasesCount(decode, k, Cell(decode, t - 1), t - 1);
    }
  }

  lemma NonePaired(decode: nat -> nat, k: nat)
    ensures Pairing(decode, k, 0) == {}
  {
  }

  lemma PairingNext(decode: nat -> nat, k: nat, t: nat)
    requires t > 0
    ensures |Pairing(decode, k, t)|
         == |Pairing(decode, k, t - 1)| + |Aliasing(decode, k, Cell(decode, t - 1), t - 1)|
  {
    hide *;
    var others := Aliasing(decode, k, Cell(decode, t - 1), t - 1);
    WithCount(t - 1, others);
    var before, all, more := Pairing(decode, k, t - 1), Pairing(decode, k, t), With(t - 1, others);
    forall p: (nat, nat)
      ensures p in all <==> p in before || p in more
      ensures !(p in before && p in more)
    {
      InPairing(decode, k, t, p);
      InPairing(decode, k, t - 1, p);
      InWith(t - 1, others, p);
      InAliasing(decode, k, Cell(decode, t - 1), t - 1, p.1);
    }
    assert all == before + more && before !! more;
  }

  lemma InPairing(decode: nat -> nat, k: nat, t: nat, p: (nat, nat))
    ensures p in Pairing(decode, k, t)
            <==> p.0 < t && p.1 < k && p.1 != p.0 && Cell(decode, p.1) == Cell(decode, p.0)
  {
  }

  lemma InWith(i: nat, js: set<nat>, p: (nat, nat))
    ensures p in With(i, js) <==> p.0 == i && p.1 in js
  {
  }

  lemma InAliasing(decode: nat -> nat, k: nat, cell: nat, skip: int, i: nat)
    ensures i in Aliasing(decode, k, cell, skip) <==> i < k && i != skip && Cell(decode, i) == cell
  {
  }

  // The pairs of i with each of js.
  ghost function With(i: nat, js: set<nat>): set<(nat, nat)> {
    set j: nat | j in js :: (i, j)
  }

  lemma WithCount(i: nat, js: set<nat>)
    ensures |With(i, js)| == |js|
    decreases js
  {
    if js != {} {
      var j :| j in js;
      WithCount(i, js - {j});
      assert With(i, js) == With(i, js - {j}) + {(i, j)};
    }
  }

  ghost predicate LinesDistinct(decode: nat -> nat, k: nat) {
    && (forall i | 0 <= i < k :: Cell(decode, i) != Select(decode, 0))
    && (forall i, j | 0 <= i < k && 0 <= j < k && i != j :: Cell(decode, i) != Cell(decode, j))
  }

  lemma {:induction false} NoAliasesIff(decode: nat -> nat, k: nat, cell: nat, skip: int)
    ensures Aliases(decode, k, cell, skip) == 0 <==> forall i | 0 <= i < k && i != skip :: Cell(decode, i) != cell
  {
    if k > 0 {
      NoAliasesIff(decode, k - 1, cell, skip);
    }
  }

  lemma {:induction false} NoAliasPairsIff(decode: nat -> nat, k: nat, t: nat)
    requires t <= k
    ensures AliasPairs(decode, k, t) == 0 <==>
              forall i, j | 0 <= i < t && 0 <= j < k && j != i :: Cell(decode, j) != Cell(decode, i)
  {
    if t > 0 {
      NoAliasPairsIff(decode, k, t - 1);
      NoAliasesIff(decode, k, Cell(decode, t - 1), t - 1);
    }
  }

  lemma NoPairsYet(decode: nat -> nat, k: nat)
    ensures AliasPairs(decode, k, 0) == 0 && Pow2(0) == 1
  {
  }

  lemma NextLine(n: nat, t: nat)
    requires Pow2(t) < n
    ensures t < Lines(n) && Pow2(t + 1) == 2 * Pow2(t)
  {
    BelowLines(n, t);
    hide Lines;
  }

  lemma NextPairs(decode: nat -> nat, k: nat, t: nat)
    ensures AliasPairs(decode, k, t + 1) == AliasPairs(decode, k, t) + Aliases(decode, k, Select(decode, Pow2(t)), t)
  {
    hide Aliases, Pow2, Select;
  }

  /** The address-line phase reports no error exactly for decoders that keep 0 and the powers of two apart. */
  lemma NoLineErrorsIff(decode: nat -> nat, k: nat)
    ensures Aliases(decode, k, Select(decode, 0), -1) + AliasPairs(decode, k, k) == 0 <==> LinesDistinct(decode, k)
  {
    NoAliasesIff(decode, k, Select(decode, 0), -1);
    NoAliasPairsIff(decode, k, k);
  }

  lemma {:induction false} BitsOfZero(i: nat)
    ensures !Bit(0, i)
  {
    if i > 0 {
      BitsOfZero(i - 1);
    }
  }

  lemma {:induction false} BitsOfPow2(j: nat, i: nat)
    ensures Bit(Pow2(j), i) <==> i == j
  {
    if j == 0 {
      if i > 0 {
        BitsOfZero(i - 1);
      }
    } else if i > 0 {
      BitsOfPow2(j - 1, i - 1);
    }
  }

  // Address line j has no effect: it is stuck high or low.
  ghost predicate Stuck(decode: nat -> nat, j: nat) {
    forall a: nat, b: nat | (forall i: nat | i != j :: Bit(a, i) == Bit(b, i)) :: Select(decode, a) == Select(decode, b)
  }

  // Lines i and j are shorted: only the OR (or only the AND) of the two gets through.
  ghost predicate Shorted(decode: nat -> nat, i: nat, j: nat, wiredOr: bool) {
    forall a: nat, b: nat |
      && (forall m: nat | m != i && m != j :: Bit(a, m) == Bit(b, m))
      && (if wiredOr then (Bit(a, i) || Bit(a, j)) == (Bit(b, i) || Bit(b, j))
          else (Bit(a, i) && Bit(a, j)) == (Bit(b, i) && Bit(b, j)))
      :: Select(decode, a) == Select(decode, b)
  }

  /** Every single stuck line in range is found ... */
  lemma StuckLineIsFound(decode: nat -> nat, n: nat, j: nat)
    requires Stuck(decode, j) && Pow2(j) < n
    ensures Aliases(decode, Lines(n), Select(decode, 0), -1) > 0
  {
    BelowLines(n, j);
    forall i: nat | i != j
      ensures Bit(0, i) == Bit(Pow2(j), i)
    {
      BitsOfZero(i);
      BitsOfPow2(j, i);
    }
    assert Cell(decode, j) == Select(decode, 0);
    NoAliasesIff(decode, Lines(n), Select(decode, 0), -1);
  }

  /** ... and so is every pair of shorted lines. */
  lemma ShortedLinesAreFound(decode: nat -> nat, n: nat, i: nat, j: nat, wiredOr: bool)
    requires Shorted(decode, i, j, wiredOr) && i != j && Pow2(i) < n && Pow2(j) < n
    ensures Aliases(decode, Lines(n), Select(decode, 0), -1) + AliasPairs(decode, Lines(n), Lines(n)) > 0
  {
    BelowLines(n, i);
    BelowLines(n, j);
    ShortedLinesAlias(decode, i, j, wiredOr);
    NoLineErrorsIff(decode, Lines(n));
  }

  // With a wired OR line i selects what line j selects, with a wired AND it selects nothing.
  lemma ShortedLinesAlias(decode: nat -> nat, i: nat, j: nat, wiredOr: bool)
    requires Shorted(decode, i, j, wiredOr) && i != j
    ensures Cell(decode, i) == if wiredOr then Cell(decode, j) else Select(decode, 0)
  {
    var other := if wiredOr then Pow2(j) else 0;
    forall m: nat
      ensures Bit(Pow2(i), m) == (m == i) && Bit(other, m) == (wiredOr && m == j)
    {
      BitsOfZero(m);
      BitsOfPow2(i, m);
      BitsOfPow2(j, m);
    }
    hide Bit;
    assert Select(decode, Pow2(i)) == Select(decode, other);
  }

  // One write of the default pattern at each of the first k powers of two,
  ghost predicate LinesFilled(w: seq<(nat, Word)>, k: nat) {
    |w| == k && forall i | 0 <= i < k :: w[i] == (Pow2(i), 0xaaaa_aaaa)
  }

  // and the two writes of a probe at each of them.
  ghost predicate LinesProbed(w: seq<(nat, Word)>, k: nat) {
    && |w| == 2 * k
    && forall i | 0 <= i < k :: w[2 * i] == (Pow2(i), 0x5555_5555) && w[2 * i + 1] == (Pow2(i), 0xaaaa_aaaa)
  }

  function Probe(offset: nat): seq<(nat, Word)> {
    [(offset, ANTI_PATTERN), (offset, PATTERN)]
  }

  // All writes of the phase, offset 0 being probed before the lines.
  ghost predicate LinesWritten(w: seq<(nat, Word)>, k: nat) {
    && |w| == 3 * k + 2
    && LinesFilled(w[..k], k)
    && w[k] == (0, 0x5555_5555) && w[k + 1] == (0, 0xaaaa_aaaa)
    && LinesProbed(w[k + 2..], k)
  }

  lemma AllWritten(filled: seq<(nat, Word)>, probes: seq<(nat, Word)>, k: nat)
    requires LinesFilled(filled, k) && LinesProbed(probes, k)
    ensures LinesWritten(filled + Probe(0) + probes, k)
  {
    var w := filled + Probe(0) + probes;
    assert w[..k] == filled && w[k + 2..] == probes by { hide Pow2; }
    hide Pow2;
  }

  lemma NextProbed(w: seq<(nat, Word)>, k: nat, offset: nat)
    requires LinesProbed(w, k) && offset == Pow2(k)
    ensures LinesProbed(w + Probe(offset), k + 1)
  {
    hide Pow2;
  }

  lemma NoneProbed()
    ensures LinesProbed([], 0)
  {
  }

  // Sound cells behind an arbitrary decoder, with a record of all writes.
  class Memory {
    const decode: nat -> nat
    const cells: array<Word>
    ghost var writes: seq<(nat, Word)>

    constructor (decode: nat -> nat, cells: array<Word>)
      ensures this.decode == decode && this.cells == cells && writes == []
    {
      this.decode, this.cells, writes := decode, cells, [];
    }

    // The cells behind the first n words exist.
    ghost predicate Covers(n: nat) {
      forall a: nat | a < n :: Select(decode, a) < cells.Length
    }

    function At(a: nat): Word
      requires Select(decode, a) < cells.Length
      reads cells
    {
      cells[Select(decode, a)]
    }

    method Put(a: nat, v: Word)
      requires Select(decode, a) < cells.Length
      modifies cells, this`writes
      ensures forall c | 0 <= c < cells.Length :: cells[c] == if c == Select(decode, a) then v else old(cells[c])
      ensures writes == old(writes) + [(a, v)]
    {
      cells[Select(decode, a)] := v;
      writes := writes + [(a, v)];
    }

    // The same, seen from the sequence of cells.
    method PutWord(a: nat, v: Word)
      requires Select(decode, a) < cells.Length
      modifies cells, this`writes
      ensures cells[..] == old(cells[..])[Select(decode, a) := v]
      ensures writes == old(writes) + [(a, v)]
    {
      Put(a, v);
    }

    method Get(a: nat) returns (v: Word)
      requires Select(decode, a) < cells.Length
      ensures v == cells[..][Select(decode, a)]
    {
      v := At(a);
    }

    // The cell of line i holds v.
    ghost predicate LineHolds(i: nat, v: Word)
      reads cells
    {
      Cell(decode, i) < cells.Length && cells[Cell(decode, i)] == v
    }

    /** One pass over the lines reading them back: counts those that do not hold the pattern. */
    method CountBad(n: nat, skip: int, ghost skipLine: int, ghost cell: nat) returns (errs: nat)
      requires Covers(n)
      requires skipLine < 0 ==> skip < 0
      requires skipLine >= 0 ==> skip == Pow2(skipLine)
      requires forall i | 0 <= i < Lines(n) :: LineHolds(i, if Cell(decode, i) == cell then ANTI_PATTERN else PATTERN)
      ensures errs == Aliases(decode, Lines(n), cell, skipLine)
    {
      errs := 0;
      var offset := 1;
      ghost var i := 0;
      while offset < n
        invariant offset == Pow2(i) && i <= Lines(n)
        invariant errs == Aliases(decode, i, cell, skipLine)
        decreases Lines(n) - i
      {
        BelowLines(n, i);
        assert LineHolds(i, if Cell(decode, i) == cell then ANTI_PATTERN else PATTERN);
        if At(offset) != PATTERN && offset != skip {
          errs := errs + 1;
        }
        if skipLine >= 0 {
          Pow2Injective(i, skipLine);
        }
        offset := 2 * offset;
        i := i + 1;
      }
      BelowLines(n, i);
    }

    // All lines hold the pattern, except those that select the given cell and hold v.
    ghost predicate AllHold(k: nat, cell: nat, v: Word)
      reads cells
    {
      forall i | 0 <= i < k :: LineHolds(i, if Cell(decode, i) == cell then v else PATTERN)
    }

    // Writes the other pattern at one offset, looks which lines see it, and takes it back.
    method ProbeWith(n: nat, testOffset: nat, skip: int, ghost skipLine: int) returns (errs: nat)
      requires Covers(n) && Select(decode, testOffset) < cells.Length && AllHold(Lines(n), 0, PATTERN)
      requires skipLine < 0 ==> skip < 0
      requires skipLine >= 0 ==> skip == Pow2(skipLine)
      modifies cells, this`writes
      ensures errs == Aliases(decode, Lines(n), Select(decode, testOffset), skipLine)
      ensures AllHold(Lines(n), 0, PATTERN)
      ensures writes == old(writes) + Probe(testOffset)
    {
      ghost var k := Lines(n);
      Put(testOffset, ANTI_PATTERN);
      assert AllHold(k, Select(decode, testOffset), ANTI_PATTERN);
      errs := CountBad(n, skip, skipLine, Select(decode, testOffset));
      Put(testOffset, PATTERN);
      assert AllHold(k, 0, PATTERN);
    }

    /** The address-line phase of mem_test_alt.  The error count is exactly the number of lines that
        share the cell of offset 0 plus the number of ordered pairs of lines that share a cell. */
    method AddressLineTest(n: nat) returns (errs: nat)
      requires n <= MAX_WORDS && Covers(n + 1)
      modifies cells, this`writes
      ensures errs == Aliases(decode, Lines(n), Select(decode, 0), -1) + AliasPairs(decode, Lines(n), Lines(n))
      ensures errs == |Aliasing(decode, Lines(n), Select(decode, 0), -1)| + |Pairing(decode, Lines(n), Lines(n))|
      ensures errs == 0 <==> LinesDistinct(decode, Lines(n))
      ensures AllHold(Lines(n), 0, 0xaaaa_aaaa)
      ensures old(writes) <= writes && LinesWritten(writes[|old(writes)|..], Lines(n))
    {
      hide *;
      ghost var k, first := Lines(n), Aliases(decode, Lines(n), Select(decode, 0), -1);
      Covered(0, n + 1);
      FillLines(n);
      ghost var filled := writes[|old(writes)|..];
      NoPairsYet(decode, k);
      errs := ProbeWith(n, 0, -1, -1);
      NowProbed(n, k);
      NoneProbed();
      ghost var before, probes: seq<(nat, Word)> := writes, [];
      var testOffset := 1;
      ghost var t: nat := 0;
      while testOffset < n
        invariant testOffset == Pow2(t) && t <= k && Probed(n, k) && errs == first + AliasPairs(decode, k, t)
        invariant writes == before + probes && LinesProbed(probes, t)
        decreases k - t
      {
        NextProbed(probes, t, testOffset);
        probes := probes + Probe(testOffset);
        var bad := ProbeLine(n, testOffset, t);
        errs := errs + bad;
        testOffset := 2 * testOffset;
        t := t + 1;
      }
      ProbedMeans(n, k);
      BelowLines(n, t);
      NoLineErrorsIff(decode, k);
      AliasesCount(decode, k, Select(decode, 0), -1);
      AliasPairsCount(decode, k, k);
      AllWritten(filled, probes, k);
      assert writes[|old(writes)|..] == filled + Probe(0) + probes;
    }

    // The memory between two probes.
    ghost predicate Probed(n: nat, k: nat)
      reads cells
    {
      Covers(n) && k == Lines(n) && AllHold(k, 0, PATTERN)
    }

    lemma NowProbed(n: nat, k: nat)
      requires Covers(n) && k == Lines(n) && AllHold(k, 0, PATTERN)
      ensures Probed(n, k)
    {
    }

    lemma ProbedMeans(n: nat, k: nat)
      requires Probed(n, k)
      ensures Covers(n) && k == Lines(n) && AllHold(k, 0, 0xaaaa_aaaa)
    {
    }

    method ProbeLine(n: nat, testOffset: nat, ghost t: nat) returns (bad: nat)
      requires Probed(n, Lines(n)) && testOffset == Pow2(t) < n
      modifies cells, this`writes
      ensures Probed(n, Lines(n)) && t < Lines(n) && 2 * testOffset == Pow2(t + 1)
      ensures AliasPairs(decode, Lines(n), t + 1) == AliasPairs(decode, Lines(n), t) + bad
      ensures writes == old(writes) + Probe(testOffset)
    {
      NextLine(n, t);
      NextPairs(decode, Lines(n), t);
      hide AllHold, Aliases, AliasPairs, Lines, Pow2, Select;
      bad := ProbeWith(n, testOffset, testOffset, t);
    }

    lemma Covered(a: nat, n: nat)
      requires Covers(n) && a < n
      ensures Select(decode, a) < cells.Length && Covers(n - 1)
    {
    }

    // Writes the default pattern at each power-of-two offset.
    method FillLines(n: nat)
      requires Covers(n)
      modifies cells, this`writes
      ensures AllHold(Lines(n), 0, PATTERN)
      ensures old(writes) <= writes && LinesFilled(writes[|old(writes)|..], Lines(n))
    {
      var offset := 1;
      ghost var i: nat := 0;
      hide AllHold, Lines, LinesFilled;
      NoneFilled(writes);
      while offset < n
        invariant offset == Pow2(i) && i <= Lines(n) && Filled(old(writes), i)
        decreases Lines(n) - i
      {
        BelowLines(n, i);
        FillLine(old(writes), n, offset, i);
        offset := 2 * offset;
        i := i + 1;
      }
      BelowLines(n, i);
    }

    method FillLine(ghost was: seq<(nat, Word)>, n: nat, offset: nat, ghost i: nat)
      requires Covers(n) && offset == Pow2(i) < n && Filled(was, i)
      modifies cells, this`writes
      ensures Filled(was, i + 1)
    {
      Put(offset, PATTERN);
      assert writes[|was|..] == old(writes[|was|..]) + [(offset, PATTERN)];
      hide Pow2;
    }

    ghost predicate Filled(was: seq<(nat, Word)>, i: nat)
      reads cells, this`writes
    {
      AllHold(i, 0, PATTERN) && was <= writes && LinesFilled(writes[|was|..], i)
    }

    lemma NoneFilled(was: seq<(nat, Word)>)
      requires was == writes
      ensures Filled(was, 0)
    {
    }

    /** The increment/decrement phase of mem_test_alt, which covers one word more than the region.
        It counts every word that shares its cell with another one twice, once in each pass, and
        leaves every word zero. */
    method DeviceTest(numWords: nat) returns (errs: nat)
      requires numWords <= MAX_WORDS && Covers(numWords + 1)
      modifies cells, this`writes
      ensures errs == 2 * Sharing(decode, numWords + 1, numWords + 1)
      ensures errs == 2 * |Sharers(decode, numWords + 1, numWords + 1)|
      ensures errs == 0 <==> Injective(decode, numWords + 1)
      ensures forall a: nat | a < numWords + 1 :: At(a) == 0
      ensures old(writes) <= writes && PassesWritten(writes[|old(writes)|..], numWords + 1)
    {
      var n := numWords + 1;
      SharingIff(decode, n, n);
      SharingCount(decode, n, n);
      hide Sharing, Sharers, Injective, PassesWritten, AscendWrites, InvertWrites, ClearWrites;
      Ascend(n);
      ghost var u := writes;
      errs := Invert(n);
      ghost var v := writes;
      var more := Clear(n);
      errs := errs + more;
      AllZeroed(decode, cells[..], n);
      ThreePasses(old(writes), u, v, writes, n);
    }

    // Fills memory with 1, 2, 3, ...
    method Ascend(n: nat)
      requires n <= MAX_WORDS + 1 && Covers(n)
      modifies cells, this`writes
      ensures HoldInverted(decode, cells[..], n, 0)
      ensures old(writes) <= writes && AscendWrites(writes[|old(writes)|..], n)
    {
      hide *;
      var offset := 0;
      AscendStarts(writes, n);
      while offset < n
        invariant offset <= n && Ascending(old(writes), n, offset)
      {
        AscendWord(old(writes), n, offset);
        offset := offset + 1;
      }
      AscendEnds(old(writes), n);
    }

    ghost predicate Ascending(was: seq<(nat, Word)>, n: nat, m: nat)
      reads cells, this`writes
    {
      && m <= n <= MAX_WORDS + 1 && HoldAscending(decode, cells[..], n, m)
      && was <= writes && AscendWrites(writes[|was|..], m)
    }

    lemma AscendStarts(was: seq<(nat, Word)>, n: nat)
      requires n <= MAX_WORDS + 1 && Covers(n) && was == writes
      ensures Ascending(was, n, 0)
    {
      NoneAscending(decode, cells[..], n);
    }

    lemma AscendEnds(was: seq<(nat, Word)>, n: nat)
      requires Ascending(was, n, n)
      ensures HoldInverted(decode, cells[..], n, 0) && was <= writes && AscendWrites(writes[|was|..], n)
    {
      AllAscending(decode, cells[..], n);
    }

    method AscendWord(ghost was: seq<(nat, Word)>, n: nat, m: nat)
      requires m < n && Ascending(was, n, m)
      modifies cells, this`writes
      ensures Ascending(was, n, m + 1)
    {
      hide HoldAscending, Select;
      AscendStep(decode, cells[..], n, m);
      PutWord(m, m + 1);
      assert writes[|was|..] == old(writes[|was|..]) + [(m, m + 1)];
    }

    // Checks each word and replaces it by the complement of what it should hold.
    method Invert(n: nat) returns (errs: nat)
      requires n <= MAX_WORDS + 1 && HoldInverted(decode, cells[..], n, 0)
      modifies cells, this`writes
      ensures errs == Sharing(decode, n, n)
      ensures HoldZeroed(decode, cells[..], n, 0)
      ensures old(writes) <= writes && InvertWrites(writes[|old(writes)|..], n)
    {
      hide *;
      errs := 0;
      var offset := 0;
      SharingStarts(decode, n);
      InvertStarts(writes, n);
      while offset < n
        invariant offset <= n && errs == Sharing(decode, n, offset) && Inverting(old(writes), n, offset)
      {
        var bad := InvertWord(old(writes), n, offset);
        errs := errs + bad;
        offset := offset + 1;
      }
      InvertEnds(old(writes), n);
    }

    ghost predicate Inverting(was: seq<(nat, Word)>, n: nat, m: nat)
      reads cells, this`writes
    {
      && m <= n <= MAX_WORDS + 1 && HoldInverted(decode, cells[..], n, m)
      && was <= writes && InvertWrites(writes[|was|..], m)
    }

    lemma InvertStarts(was: seq<(nat, Word)>, n: nat)
      requires n <= MAX_WORDS + 1 && HoldInverted(decode, cells[..], n, 0) && was == writes
      ensures Inverting(was, n, 0)
    {
    }

    lemma InvertEnds(was: seq<(nat, Word)>, n: nat)
      requires Inverting(was, n, n)
      ensures HoldZeroed(decode, cells[..], n, 0) && was <= writes && InvertWrites(writes[|was|..], n)
    {
      AllInverted(decode, cells[..], n);
    }

    method InvertWord(ghost was: seq<(nat, Word)>, n: nat, m: nat) returns (bad: nat)
      requires m < n && Inverting(was, n, m)
      modifies cells, this`writes
      ensures Inverting(was, n, m + 1)
      ensures Sharing(decode, n, m + 1) == Sharing(decode, n, m) + bad
    {
      hide HoldInverted, Select, Sharing;
      InvertStep(decode, cells[..], n, m);
      var v := Get(m);
      bad := if v != m + 1 then 1 else 0;
      PutWord(m, Complement(m + 1));
      assert writes[|was|..] == old(writes[|was|..]) + [(m, Complement(m + 1))];
    }

    // Checks each word for the complement and zeroes it.
    method Clear(n: nat) returns (errs: nat)
      requires n <= MAX_WORDS + 1 && HoldZeroed(decode, cells[..], n, 0)
      modifies cells, this`writes
      ensures errs == Sharing(decode, n, n)
      ensures HoldZeroed(decode, cells[..], n, n)
      ensures old(writes) <= writes && ClearWrites(writes[|old(writes)|..], n)
    {
      hide *;
      errs := 0;
      var offset := 0;
      SharingStarts(decode, n);
      ClearStarts(writes, n);
      while offset < n
        invariant offset <= n && errs == Sharing(decode, n, offset) && Clearing(old(writes), n, offset)
      {
        var bad := ClearWord(old(writes), n, offset);
        errs := errs + bad;
        offset := offset + 1;
      }
      ClearEnds(old(writes), n);
    }

    ghost predicate Clearing(was: seq<(nat, Word)>, n: nat, m: nat)
      reads cells, this`writes
    {
      && m <= n <= MAX_WORDS + 1 && HoldZeroed(decode, cells[..], n, m)
      && was <= writes && ClearWrites(writes[|was|..], m)
    }

    lemma ClearStarts(was: seq<(nat, Word)>, n: nat)
      requires n <= MAX_WORDS + 1 && HoldZeroed(decode, cells[..], n, 0) && was == writes
      ensures Clearing(was, n, 0)
    {
    }

    lemma ClearEnds(was: seq<(nat, Word)>, n: nat)
      requires Clearing(was, n, n)
      ensures HoldZeroed(decode, cells[..], n, n) && was <= writes && ClearWrites(writes[|was|..], n)
    {
    }

    method ClearWord(ghost was: seq<(nat, Word)>, n: nat, m: nat) returns (bad: nat)
      requires m < n && Clearing(was, n, m)
      modifies cells, this`writes
      ensures Clearing(was, n, m + 1)
      ensures Sharing(decode, n, m + 1) == Sharing(decode, n, m) + bad
    {
      hide HoldZeroed, Select, Sharing;
      ZeroStep(decode, cells[..], n, m);
      var v := Get(m);
      bad := if v != Complement(m + 1) then 1 else 0;
      PutWord(m, 0);
      assert writes[|was|..] == old(writes[|was|..]) + [(m, 0)];
    }

    /** mem_test_quick over length words: the number of errors is the number of words whose cell is
        written again later, whatever the pattern and the iteration.  Even iterations write the
        pattern counting up, odd ones its negative or its complement counting down. */
    method QuickTest(length: nat, pattern: Word, iteration: int) returns (errs: nat)
      requires length <= MAX_WORDS && Covers(length)
      modifies cells, this`writes
      ensures errs == Overwritten(decode, length, length)
      ensures errs == 0 <==> Injective(decode, length)
      ensures old(writes) <= writes && |writes| == |old(writes)| + length
      ensures iteration % 2 == 0 ==> CountsUp(writes[|old(writes)|..], pattern)
      ensures (iteration % 2 == 1 && pattern / 0x8000_0000 % 2 == 1)
                ==> CountsDown(writes[|old(writes)|..], 0x1_0000_0000_0000_0000 - pattern)
      ensures (iteration % 2 == 1 && pattern / 0x8000_0000 % 2 == 0)
                ==> CountsDown(writes[|old(writes)|..], 0xffff_ffff_ffff_ffff - pattern)
    {
      hide Overwritten, Last, CountsUp, CountsDown, Nth, SequenceWritten, Negative, Complement;
      var up := true;
      var start := pattern;
      if iteration % 2 == 1 {
        up := false;
        start := if pattern / 0x8000_0000 % 2 == 1 then Negative(pattern) else Complement(pattern);
      }
      WriteSequence(length, start, up);
      SequenceCounts(writes[|old(writes)|..], pattern, iteration, start, up);
      errs := ReadSequence(length, start, up);
      OverwrittenIff(decode, length, length);
    }

    method WriteSequence(length: nat, start: Word, up: bool)
      requires length <= MAX_WORDS && Covers(length)
      modifies cells, this`writes
      ensures SequenceHeld(length, length, start, up)
      ensures old(writes) <= writes && |writes| == |old(writes)| + length
      ensures SequenceWritten(writes[|old(writes)|..], start, up)
    {
      hide *;
      var i, val := 0, start;
      NthNext(start, up, 0);
      NoneHeld(writes, length, start, up);
      while i < length
        invariant i <= length && val == Nth(start, up, i) && Sequencing(old(writes), length, i, start, up)
      {
        WriteNext(old(writes), length, i, start, up, val);
        NthNext(start, up, i);
        val := Step(val, up);
        i := i + 1;
      }
      AllHeld(old(writes), length, start, up);
    }

    // Each of the first m words holds what was last written to its cell.
    ghost predicate SequenceHeld(length: nat, m: nat, start: Word, up: bool)
      reads cells
    {
      Covers(length) && m <= length && forall j: nat | j < m :: At(j) == Nth(start, up, Last(decode, m, j))
    }

    ghost predicate Sequencing(was: seq<(nat, Word)>, length: nat, m: nat, start: Word, up: bool)
      reads cells, this`writes
    {
      && SequenceHeld(length, m, start, up)
      && was <= writes && |writes| == |was| + m && SequenceWritten(writes[|was|..], start, up)
    }

    lemma NoneHeld(was: seq<(nat, Word)>, length: nat, start: Word, up: bool)
      requires Covers(length) && was == writes
      ensures Sequencing(was, length, 0, start, up)
    {
    }

    lemma AllHeld(was: seq<(nat, Word)>, length: nat, start: Word, up: bool)
      requires Sequencing(was, length, length, start, up)
      ensures SequenceHeld(length, length, start, up)
      ensures was <= writes && |writes| == |was| + length && SequenceWritten(writes[|was|..], start, up)
    {
    }

    method WriteNext(ghost was: seq<(nat, Word)>, length: nat, m: nat, start: Word, up: bool, val: Word)
      requires m < length && val == Nth(start, up, m) && Sequencing(was, length, m, start, up)
      modifies cells, this`writes
      ensures Sequencing(was, length, m + 1, start, up)
    {
      hide Nth;
      Put(m, val);
      forall j: nat | j < m
        ensures Last(decode, m + 1, j) == if Select(decode, m) == Select(decode, j) then m else Last(decode, m, j)
      {
        LastNext(decode, m, j);
      }
      assert Last(decode, m + 1, m) == m;
      hide Last, Select;
      assert writes[|was|..] == old(writes[|was|..]) + [(m, val)];
    }

    method ReadSequence(length: nat, start: Word, up: bool) returns (errs: nat)
      requires length <= MAX_WORDS && SequenceHeld(length, length, start, up)
      ensures errs == Overwritten(decode, length, length)
    {
      errs := 0;
      var i, val := 0, start;
      while i < length
        invariant i <= length && val == Nth(start, up, i) && errs == Overwritten(decode, length, i)
      {
        NthDistinct(start, up, i, Last(decode, length, i));
        if At(i) != val {
          errs := errs + 1;
        }
        val := Step(val, up);
        i := i + 1;
      }
    }
  }

  // Words 0, 1, 2, ... are written with first, first + 1, first + 2, ... in 64 bits,
  ghost predicate CountsUp(w: seq<(nat, Word)>, first: int) {
    forall i: nat | i < |w| :: w[i] == (i, (first + i) % 0x1_0000_0000_0000_0000)
  }

  // or with first, first - 1, first - 2, ...
  ghost predicate CountsDown(w: seq<(nat, Word)>, first: int) {
    forall i: nat | i < |w| :: w[i] == (i, (first - i) % 0x1_0000_0000_0000_0000)
  }

  ghost predicate SequenceWritten(w: seq<(nat, Word)>, start: Word, up: bool) {
    forall i: nat | i < |w| :: w[i] == (i, Nth(start, up, i))
  }

  lemma SequenceCounts(w: seq<(nat, Word)>, pattern: Word, iteration: int, start: Word, up: bool)
    requires |w| <= MAX_WORDS && SequenceWritten(w, start, up)
    requires up <==> iteration % 2 == 0
    requires start == if up then pattern
                      else if pattern / 0x8000_0000 % 2 == 1 then Negative(pattern) else Complement(pattern)
    ensures iteration % 2 == 0 ==> CountsUp(w, pattern)
    ensures (iteration % 2 == 1 && pattern / 0x8000_0000 % 2 == 1)
              ==> CountsDown(w, 0x1_0000_0000_0000_0000 - pattern)
    ensures (iteration % 2 == 1 && pattern / 0x8000_0000 % 2 == 0)
              ==> CountsDown(w, 0xffff_ffff_ffff_ffff - pattern)
  {
    hide Nth;
    if up {
      forall i: nat | i < |w|
        ensures w[i] == (i, (pattern + i) % 0x1_0000_0000_0000_0000)
      {
        NthUp(start, i);
      }
    } else if pattern / 0x8000_0000 % 2 == 1 {
      SequenceDown(w, start, 0x1_0000_0000_0000_0000 - pattern);
    } else {
      SequenceDown(w, start, 0xffff_ffff_ffff_ffff - pattern);
    }
  }

  lemma SequenceDown(w: seq<(nat, Word)>, start: Word, first: int)
    requires |w| <= MAX_WORDS && SequenceWritten(w, start, false)
    requires first == start || first == start + 0x1_0000_0000_0000_0000
    ensures CountsDown(w, first)
  {
    hide Nth;
    forall i: nat | i < |w|
      ensures w[i] == (i, (first - i) % 0x1_0000_0000_0000_0000)
    {
      NthDown(start, first, i);
    }
  }

  lemma NthUp(start: Word, i: nat)
    requires i < WORD_VALUES
    ensures Nth(start, true, i) == (start + i) % 0x1_0000_0000_0000_0000
  {
    hide Nth;
    NthFormula(start, true, i);
  }

  lemma NthDown(start: Word, first: int, i: nat)
    requires i < WORD_VALUES
    requires first == start || first == start + 0x1_0000_0000_0000_0000
    ensures Nth(start, false, i) == (first - i) % 0x1_0000_0000_0000_0000
  {
    hide Nth;
    NthFormula(start, false, i);
  }

  // The writes of the first k words in the first pass of mem_test_alt,
  ghost predicate AscendWrites(w: seq<(nat, Word)>, k: nat) {
    |w| == k && forall o | 0 <= o < k :: w[o].0 == o && w[o].1 == o + 1
  }

  // in the second
  ghost predicate InvertWrites(w: seq<(nat, Word)>, k: nat) {
    |w| == k && forall o | 0 <= o < k :: w[o].0 == o && w[o].1 == 0xffff_ffff_ffff_ffff - (o + 1)
  }

  // and in the third.
  ghost predicate ClearWrites(w: seq<(nat, Word)>, k: nat) {
    |w| == k && forall o | 0 <= o < k :: w[o] == (o, 0)
  }

  ghost predicate PassesWritten(w: seq<(nat, Word)>, n: nat) {
    && |w| == 3 * n
    && AscendWrites(w[..n], n) && InvertWrites(w[n..2 * n], n) && ClearWrites(w[2 * n..], n)
  }

  lemma ThreePasses(t: seq<(nat, Word)>, u: seq<(nat, Word)>, v: seq<(nat, Word)>, w: seq<(nat, Word)>, n: nat)
    requires t <= u && u <= v && v <= w
    requires AscendWrites(u[|t|..], n) && InvertWrites(v[|u|..], n) && ClearWrites(w[|v|..], n)
    ensures t <= w && PassesWritten(w[|t|..], n)
  {
    var x := w[|t|..];
    assert x[..n] == u[|t|..] && x[n..2 * n] == v[|u|..] && x[2 * n..] == w[|v|..];
  }

  ghost predicate Injective(decode: nat -> nat, n: nat) {
    forall i: nat, j: nat | i < j < n :: Select(decode, i) != Select(decode, j)
  }

  // The last of the first m words in the given cell, -1 if there is none.
  function Latest(decode: nat -> nat, m: nat, cell: nat): (l: int)
    ensures -1 <= l < m && (l >= 0 ==> Select(decode, l) == cell)
    ensures forall k: nat | l < k < m :: Select(decode, k) != cell
  {
    if m == 0 then -1 else if Select(decode, m - 1) == cell then m - 1 else Latest(decode, m - 1, cell)
  }

  // Another of the first n words is in the same cell as word i.
  ghost predicate Shares(decode: nat -> nat, n: nat, i: nat) {
    exists j: nat :: j < n && j != i && Select(decode, j) == Select(decode, i)
  }

  // How many of the first k words share their cell with another one of the first n.
  ghost function Sharing(decode: nat -> nat, n: nat, k: nat): nat {
    if k == 0 then 0 else Sharing(decode, n, k - 1) + if Shares(decode, n, k - 1) then 1 else 0
  }

  // Which ones they are.
  ghost function Sharers(decode: nat -> nat, n: nat, k: nat): set<nat> {
    set i: nat | i < k && Shares(decode, n, i)
  }

  lemma {:induction false} SharingCount(decode: nat -> nat, n: nat, k: nat)
    ensures Sharing(decode, n, k) == |Sharers(decode, n, k)|
  {
    hide Sharers, Shares;
    SharersNext(decode, n, k);
    if k > 0 {
      SharingCount(decode, n, k - 1);
    }
  }

  lemma SharersNext(decode: nat -> nat, n: nat, k: nat)
    ensures k == 0 ==> Sharers(decode, n, k) == {}
    ensures var more := if k > 0 && Shares(decode, n, k - 1) then 1 else 0;
            k > 0 ==> |Sharers(decode, n, k)| == |Sharers(decode, n, k - 1)| + more
  {
    hide Shares;
    if k > 0 {
      var before, all := Sharers(decode, n, k - 1), Sharers(decode, n, k);
      assert all == before + if Shares(decode, n, k - 1) then {k - 1} else {};
    }
  }

  lemma LatestNext(decode: nat -> nat, m: nat, cell: nat)
    ensures Latest(decode, m + 1, cell) == if Select(decode, m) == cell then m else Latest(decode, m, cell)
  {
    var k := m + 1;
    assert k - 1 == m;
    assert Latest(decode, k, cell) == if Select(decode, k - 1) == cell then k - 1 else Latest(decode, k - 1, cell);
  }

  // A cell when the second pass has reached word m: the last word below it has left the complement of its number, and
  // before that the cell holds the number of its last word.
  function Inverted(decode: nat -> nat, n: nat, m: nat, cell: nat): int {
    var l := Latest(decode, m, cell);
    if l >= 0 then WORD_VALUES - 1 - (l + 1) else Latest(decode, n, cell) + 1
  }

  // And in the third pass.
  function Zeroed(decode: nat -> nat, n: nat, m: nat, cell: nat): int {
    if Latest(decode, m, cell) >= 0 then 0 else WORD_VALUES - 1 - (Latest(decode, n, cell) + 1)
  }

  // The n words in the first pass, when it has reached word m,
  ghost predicate HoldAscending(decode: nat -> nat, cells: seq<Word>, n: nat, m: nat)
    requires m <= n
  {
    && (forall o: nat | o < n :: Select(decode, o) < |cells|)
    && (forall o: nat | o < m :: cells[Select(decode, o)] == Latest(decode, m, Select(decode, o)) + 1)
  }

  // in the second
  ghost predicate HoldInverted(decode: nat -> nat, cells: seq<Word>, n: nat, m: nat) {
    forall o: nat | o < n ::
      Select(decode, o) < |cells| && cells[Select(decode, o)] == Inverted(decode, n, m, Select(decode, o))
  }

  // and in the third.
  ghost predicate HoldZeroed(decode: nat -> nat, cells: seq<Word>, n: nat, m: nat) {
    forall o: nat | o < n ::
      Select(decode, o) < |cells| && cells[Select(decode, o)] == Zeroed(decode, n, m, Select(decode, o))
  }

  lemma NoneAscending(decode: nat -> nat, cells: seq<Word>, n: nat)
    requires forall o: nat | o < n :: Select(decode, o) < |cells|
    ensures HoldAscending(decode, cells, n, 0)
  {
  }

  lemma AscendStep(decode: nat -> nat, cells: seq<Word>, n: nat, m: nat)
    requires m < n <= MAX_WORDS + 1 && HoldAscending(decode, cells, n, m)
    ensures Select(decode, m) < |cells| && HoldAscending(decode, cells[Select(decode, m) := m + 1], n, m + 1)
  {
    forall o: nat | o < m + 1
      ensures cells[Select(decode, m) := m + 1][Select(decode, o)] == Latest(decode, m + 1, Select(decode, o)) + 1
    {
      LatestNext(decode, m, Select(decode, o));
    }
    hide Latest, Select;
  }

  lemma AllAscending(decode: nat -> nat, cells: seq<Word>, n: nat)
    requires HoldAscending(decode, cells, n, n)
    ensures HoldInverted(decode, cells, n, 0)
  {
    hide Select;
  }

  lemma AllInverted(decode: nat -> nat, cells: seq<Word>, n: nat)
    requires HoldInverted(decode, cells, n, n)
    ensures HoldZeroed(decode, cells, n, 0)
  {
    forall o: nat | o < n
      ensures Inverted(decode, n, n, Select(decode, o)) == Zeroed(decode, n, 0, Select(decode, o))
    {
      assert Latest(decode, n, Select(decode, o)) >= o;
    }
    hide Select, Inverted, Zeroed;
  }

  lemma AllZeroed(decode: nat -> nat, cells: seq<Word>, n: nat)
    requires HoldZeroed(decode, cells, n, n)
    ensures forall o: nat | o < n :: Select(decode, o) < |cells| && cells[Select(decode, o)] == 0
  {
    forall o: nat | o < n
      ensures Zeroed(decode, n, n, Select(decode, o)) == 0
    {
      assert Latest(decode, n, Select(decode, o)) >= o;
    }
    hide Select, Zeroed;
  }

  lemma SharingStarts(decode: nat -> nat, n: nat)
    ensures Sharing(decode, n, 0) == 0
  {
  }

  lemma InvertedNext(decode: nat -> nat, n: nat, m: nat, c: nat)
    ensures Inverted(decode, n, m + 1, c)
         == if Select(decode, m) == c then WORD_VALUES - 1 - (m + 1) else Inverted(decode, n, m, c)
  {
    LatestNext(decode, m, c);
    hide Latest;
  }

  lemma ZeroedNext(decode: nat -> nat, n: nat, m: nat, c: nat)
    ensures Zeroed(decode, n, m + 1, c) == if Select(decode, m) == c then 0 else Zeroed(decode, n, m, c)
  {
    LatestNext(decode, m, c);
    hide Latest;
  }

  // How one word adds to the errors of the second and of the third pass.
  lemma SharingNext(decode: nat -> nat, n: nat, m: nat)
    requires m < n <= MAX_WORDS + 1
    ensures Sharing(decode, n, m + 1)
         == Sharing(decode, n, m) + if Inverted(decode, n, m, Select(decode, m)) != m + 1 then 1 else 0
    ensures Sharing(decode, n, m + 1)
         == Sharing(decode, n, m)
            + if Zeroed(decode, n, m, Select(decode, m)) != WORD_VALUES - 1 - (m + 1) then 1 else 0
  {
    SharesIff(decode, n, m);
    hide Latest, Shares;
  }

  // One word of the second pass.
  lemma InvertStep(decode: nat -> nat, cells: seq<Word>, n: nat, m: nat)
    requires m < n <= MAX_WORDS + 1 && HoldInverted(decode, cells, n, m)
    ensures Select(decode, m) < |cells|
    ensures HoldInverted(decode, cells[Select(decode, m) := Complement(m + 1)], n, m + 1)
    ensures Sharing(decode, n, m + 1) == Sharing(decode, n, m) + if cells[Select(decode, m)] != m + 1 then 1 else 0
  {
    forall o: nat | o < n
      ensures cells[Select(decode, m) := Complement(m + 1)][Select(decode, o)]
           == Inverted(decode, n, m + 1, Select(decode, o))
    {
      InvertedNext(decode, n, m, Select(decode, o));
    }
    SharingNext(decode, n, m);
    hide Inverted, Select, Sharing;
  }

  // And of the third.
  lemma ZeroStep(decode: nat -> nat, cells: seq<Word>, n: nat, m: nat)
    requires m < n <= MAX_WORDS + 1 && HoldZeroed(decode, cells, n, m)
    ensures Select(decode, m) < |cells|
    ensures HoldZeroed(decode, cells[Select(decode, m) := 0], n, m + 1)
    ensures Sharing(decode, n, m + 1)
         == Sharing(decode, n, m) + if cells[Select(decode, m)] != Complement(m + 1) then 1 else 0
  {
    forall o: nat | o < n
      ensures cells[Select(decode, m) := 0][Select(decode, o)] == Zeroed(decode, n, m + 1, Select(decode, o))
    {
      ZeroedNext(decode, n, m, Select(decode, o));
    }
    SharingNext(decode, n, m);
    hide Zeroed, Select, Sharing;
  }

  // What the passes see of it: an earlier word in that cell, or a later one.
  lemma SharesIff(decode: nat -> nat, n: nat, i: nat)
    requires i < n
    ensures Shares(decode, n, i)
            <==> Latest(decode, i, Select(decode, i)) >= 0 || Latest(decode, n, Select(decode, i)) != i
  {
    var l := Latest(decode, n, Select(decode, i));
    assert l >= i;
    assert l != i ==> Select(decode, l) == Select(decode, i);
    var e := Latest(decode, i, Select(decode, i));
    assert e >= 0 ==> Select(decode, e) == Select(decode, i);
  }

  lemma {:induction false} SharingIff(decode: nat -> nat, n: nat, k: nat)
    requires k <= n
    ensures Sharing(decode, n, k) == 0
            <==> forall i: nat, j: nat | i < k && i < j < n :: Select(decode, i) != Select(decode, j)
  {
    if k > 0 {
      SharingIff(decode, n, k - 1);
      if j: nat :| k - 1 < j < n && Select(decode, k - 1) == Select(decode, j) {
        assert Shares(decode, n, k - 1);
      }
    }
  }

  function Negative(v: Word): Word {
    if v == 0 then 0 else WORD_VALUES - v
  }

  // val += incr, with incr 1 or -1
  function Step(v: Word, up: bool): Word {
    if up then (if v == WORD_VALUES - 1 then 0 else v + 1) else (if v == 0 then WORD_VALUES - 1 else v - 1)
  }

  function Nth(start: Word, up: bool, i: nat): Word {
    if i == 0 then start else Step(Nth(start, up, i - 1), up)
  }

  lemma NthNext(start: Word, up: bool, i: nat)
    ensures Nth(start, up, 0) == start && Nth(start, up, i + 1) == Step(Nth(start, up, i), up)
  {
  }

  lemma {:induction false} NthFormula(start: Word, up: bool, i: nat)
    requires i < WORD_VALUES
    ensures Nth(start, up, i) ==
            if up then (if start + i < WORD_VALUES then start + i else start + i - WORD_VALUES)
            else (if start >= i then start - i else start - i + WORD_VALUES)
  {
    if i > 0 {
      NthFormula(start, up, i - 1);
    }
  }

  lemma NthDistinct(start: Word, up: bool, i: nat, j: nat)
    requires i < WORD_VALUES && j < WORD_VALUES
    ensures Nth(start, up, i) == Nth(start, up, j) <==> i == j
  {
    NthFormula(start, up, i);
    NthFormula(start, up, j);
  }

  // The last of the first n words in the same cell as word i.
  function Last(decode: nat -> nat, n: nat, i: nat): (j: nat)
    requires i < n
    ensures i <= j < n && Select(decode, j) == Select(decode, i)
    ensures forall k: nat | j < k < n :: Select(decode, k) != Select(decode, i)
  {
    if Select(decode, n - 1) == Select(decode, i) then n - 1 else Last(decode, n - 1, i)
  }

  // How many of the first k words lose their cell to a later one of the first n.
  function Overwritten(decode: nat -> nat, n: nat, k: nat): nat
    requires k <= n
  {
    if k == 0 then 0 else Overwritten(decode, n, k - 1) + if Last(decode, n, k - 1) != k - 1 then 1 else 0
  }

  lemma {:induction false} OverwrittenIff(decode: nat -> nat, n: nat, k: nat)
    requires k <= n
    ensures Overwritten(decode, n, k) == 0
            <==> forall i: nat, j: nat | i < k && i < j < n :: Select(decode, i) != Select(decode, j)
  {
    if k > 0 {
      OverwrittenIff(decode, n, k - 1);
      var l := Last(decode, n, k - 1);
      assert l != k - 1 ==> Select(decode, k - 1) == Select(decode, l);
    }
  }

  // The cells that the first n words select.
  ghost function Cells(decode: nat -> nat, n: nat): set<nat> {
    set i: nat | i < n :: Select(decode, i)
  }

  /** In other words: one error for every word in excess of the number of distinct cells. */
  lemma {:induction false} OverwrittenIsExcess(decode: nat -> nat, n: nat)
    ensures Overwritten(decode, n, n) == n - |Cells(decode, n)|
  {
    hide SomeLoses, Cells, Last, Overwritten;
    if n == 0 {
      NothingOverwritten(decode);
    } else {
      var m := n - 1;
      OverwrittenIsExcess(decode, m);
      CellsNext(decode, m);
      OverwrittenByOneMore(decode, m, m);
      OverwrittenNext(decode, m);
      SomeLosesIff(decode, m);
    }
  }

  lemma NothingOverwritten(decode: nat -> nat)
    ensures Overwritten(decode, 0, 0) == 0 && Cells(decode, 0) == {}
  {
  }

  lemma OverwrittenNext(decode: nat -> nat, m: nat)
    ensures Overwritten(decode, m + 1, m + 1) == Overwritten(decode, m + 1, m)
  {
    var n := m + 1;
    assert n - 1 == m && Last(decode, n, m) == m;
  }

  lemma CellsNext(decode: nat -> nat, m: nat)
    ensures |Cells(decode, m + 1)| == |Cells(decode, m)| + if Select(decode, m) in Cells(decode, m) then 0 else 1
  {
    assert Cells(decode, m + 1) == Cells(decode, m) + {Select(decode, m)};
  }

  lemma SomeLosesIff(decode: nat -> nat, m: nat)
    ensures SomeLoses(decode, m, m) <==> Select(decode, m) in Cells(decode, m)
  {
    if Select(decode, m) in Cells(decode, m) {
      var i: nat :| i < m && Select(decode, i) == Select(decode, m);
      assert Loses(decode, m, Last(decode, m, i));
    }
  }

  // Word i keeps its cell among the first n words, but not when word n is written too.
  ghost predicate Loses(decode: nat -> nat, n: nat, i: nat) {
    i < n && Select(decode, i) == Select(decode, n) && Last(decode, n, i) == i
  }

  ghost predicate SomeLoses(decode: nat -> nat, n: nat, k: nat) {
    exists i: nat :: i < k && Loses(decode, n, i)
  }

  lemma OneLoses(decode: nat -> nat, n: nat, k: nat)
    requires k < n
    ensures SomeLoses(decode, n, k + 1) <==> SomeLoses(decode, n, k) || Loses(decode, n, k)
    ensures !(SomeLoses(decode, n, k) && Loses(decode, n, k))
    ensures Last(decode, n + 1, k) != k <==> Last(decode, n, k) != k || Loses(decode, n, k)
  {
    LastNext(decode, n, k);
    hide Select, Last;
  }

  lemma LastNext(decode: nat -> nat, n: nat, i: nat)
    requires i < n
    ensures Last(decode, n + 1, i) == if Select(decode, n) == Select(decode, i) then n else Last(decode, n, i)
  {
    var m := n + 1;
    assert m - 1 == n;
    assert Last(decode, m, i) == if Select(decode, m - 1) == Select(decode, i) then m - 1 else Last(decode, m - 1, i);
  }

  // A further word costs at most one of the earlier ones its cell: the last that shares it.
  lemma {:induction false} OverwrittenByOneMore(decode: nat -> nat, n: nat, k: nat)
    requires k <= n
    ensures Overwritten(decode, n + 1, k) == Overwritten(decode, n, k) + if SomeLoses(decode, n, k) then 1 else 0
  {
    if k > 0 {
      OverwrittenByOneMore(decode, n, k - 1);
      OneLoses(decode, n, k - 1);
    } else {
      assert !SomeLoses(decode, n, 0);
    }
    hide Loses, SomeLoses, Last;
  }

  lemma Pow2Injective(i: nat, j: nat)
    ensures Pow2(i) == Pow2(j) <==> i == j
  {
    if i < j {
      Pow2Increases(i, j);
    } else if j < i {
      Pow2Increases(j, i);
    }
  }
}
