/** Filling the password list, page by page, row by row and column by column (otpw-gen.c, main). */
module OtpList {
  import opened Basics

  // An entry of the hash file: the challenge number and the hash of its password.
  datatype Entry = Entry(challenge: nat, hash: string)

  // The number of row i and column j of page l, counting down the columns.
  function Slot(rows: nat, cols: nat, l: nat, i: nat, j: nat): nat {
    j * rows + i + l * (rows * cols)
  }

  // The same place counted along the rows, which is the order in which passwords are made.
  function Turn(rows: nat, cols: nat, l: nat, i: nat, j: nat): nat {
    Slot(cols, rows, l, j, i)
  }

  // When place k has its turn.
  function TurnOf(rows: nat, cols: nat, k: nat): nat
    requires rows * cols > 0
  {
    var x := k % (rows * cols);
    Turn(rows, cols, k / (rows * cols), x % rows, x / rows)
  }

  lemma Below(a: nat, m: nat, b: nat, c: nat)
    requires a < m && c < b
    ensures c + a * b < m * b
  {
    AtLeast(m - a, b);
    assert (m - a) * b == m * b - a * b;
  }

  lemma SlotInRange(pages: nat, rows: nat, cols: nat, l: nat, i: nat, j: nat)
    requires l < pages && i < rows && j < cols
    ensures j * rows + i < rows * cols
    ensures Slot(rows, cols, l, i, j) < pages * (rows * cols)
  {
    Below(j, cols, rows, i);
    Below(l, pages, rows * cols, j * rows + i);
  }

  lemma TurnOfSlot(rows: nat, cols: nat, l: nat, i: nat, j: nat)
    requires i < rows && j < cols
    ensures rows * cols > 0 && TurnOf(rows, cols, Slot(rows, cols, l, i, j)) == Turn(rows, cols, l, i, j)
  {
    SlotInRange(l + 1, rows, cols, l, i, j);
    Divided(l, rows * cols, j * rows + i);
    Divided(j, rows, i);
  }

  lemma ColumnInRange(x: nat, rows: nat, cols: nat)
    requires rows > 0 && x < rows * cols
    ensures x / rows < cols
  {
  }

  lemma Decompose(rows: nat, cols: nat, k: nat) returns (l: nat, i: nat, j: nat)
    requires rows * cols > 0
    ensures i < rows && j < cols && k == Slot(rows, cols, l, i, j) && l == k / (rows * cols)
  {
    var p := rows * cols;
    l := k / p;
    var x := k % p;
    assert k == x + l * p;
    i, j := x % rows, x / rows;
    ColumnInRange(x, rows, cols);
    assert x == j * rows + i;
  }

  /** Places and turns correspond one to one. */
  lemma TurnsAreUnique(rows: nat, cols: nat, k: nat)
    requires rows * cols > 0
    ensures cols * rows > 0 && TurnOf(cols, rows, TurnOf(rows, cols, k)) == k
  {
    var l, i, j := Decompose(rows, cols, k);
    TurnOfSlot(rows, cols, l, i, j);
    TurnOfSlot(cols, rows, l, j, i);
  }

  lemma TurnInRange(pages: nat, rows: nat, cols: nat, k: nat)
    requires rows * cols > 0 && k < pages * (rows * cols)
    ensures TurnOf(rows, cols, k) < pages * (rows * cols)
  {
    var l, i, j := Decompose(rows, cols, k);
    ColumnInRange(k, rows * cols, pages);
    TurnOfSlot(rows, cols, l, i, j);
    SlotInRange(pages, cols, rows, l, j, i);
  }

  // After the first t turns: the places that have had theirs hold their own number and the hash made then.
  ghost predicate FilledTo(b: seq<Option<Entry>>, hashes: seq<string>, rows: nat, cols: nat, t: nat) {
    && rows * cols > 0
    && (forall k :: 0 <= k < |b| ==> TurnOf(rows, cols, k) < |hashes|)
    && (forall k :: 0 <= k < |b| ==>
          b[k] == if TurnOf(rows, cols, k) < t then Some(Entry(k, hashes[TurnOf(rows, cols, k)])) else None)
  }

  lemma FillOne(b: seq<Option<Entry>>, hashes: seq<string>, rows: nat, cols: nat, l: nat, i: nat, j: nat)
    requires FilledTo(b, hashes, rows, cols, Turn(rows, cols, l, i, j))
    requires i < rows && j < cols && Slot(rows, cols, l, i, j) < |b|
    ensures Turn(rows, cols, l, i, j) < |hashes|
    ensures var k := Slot(rows, cols, l, i, j);
            FilledTo(b[k := Some(Entry(k, hashes[Turn(rows, cols, l, i, j)]))], hashes, rows, cols,
                     Turn(rows, cols, l, i, j) + 1)
  {
    var k0, t := Slot(rows, cols, l, i, j), Turn(rows, cols, l, i, j);
    TurnOfSlot(rows, cols, l, i, j);
    hide Slot, Turn, TurnOf;
    forall k | 0 <= k < |b| && k != k0
      ensures TurnOf(rows, cols, k) != t
    {
      TurnsAreUnique(rows, cols, k);
      TurnsAreUnique(rows, cols, k0);
    }
  }

  lemma NextTurn(rows: nat, cols: nat, l: nat, i: nat, j: nat)
    ensures Turn(rows, cols, l, i, j + 1) == Turn(rows, cols, l, i, j) + 1
    ensures Turn(rows, cols, l, i, cols) == Turn(rows, cols, l, i + 1, 0)
    ensures Turn(rows, cols, l, rows, 0) == Turn(rows, cols, l + 1, 0, 0)
  {
  }

  lemma FirstAndLastTurn(b: seq<Option<Entry>>, hashes: seq<string>, pages: nat, rows: nat, cols: nat)
    requires rows > 0 && cols > 0 && |b| == |hashes| == pages * (rows * cols)
    ensures (forall k :: 0 <= k < |b| ==> b[k] == None) ==> FilledTo(b, hashes, rows, cols, Turn(rows, cols, 0, 0, 0))
    ensures Turn(rows, cols, pages, 0, 0) == |hashes|
  {
    AtLeast(rows, cols);
    forall k | 0 <= k < |b|
      ensures TurnOf(rows, cols, k) < |hashes|
    {
      TurnInRange(pages, rows, cols, k);
    }
  }

  /** The three loops that fill the list: whatever hashes come up, place k ends up with challenge k and with the hash of
      the password made in its turn; no place is left out. */
  method Fill(hbuf: array<Option<Entry>>, hashes: seq<string>, pages: nat, rows: nat, cols: nat)
    requires rows > 0 && cols > 0 && hbuf.Length == |hashes| == pages * (rows * cols)
    requires forall k :: 0 <= k < hbuf.Length ==> hbuf[k] == None
    modifies hbuf
    ensures rows * cols > 0
    ensures forall k :: 0 <= k < hbuf.Length ==>
              TurnOf(rows, cols, k) < |hashes| && hbuf[k] == Some(Entry(k, hashes[TurnOf(rows, cols, k)]))
    ensures forall l: nat, i: nat, j: nat | l < pages && i < rows && j < cols ::
              InPage(hbuf[..], hashes, rows, cols, l, i, j)
  {
    FirstAndLastTurn(hbuf[..], hashes, pages, rows, cols);
    assert FilledTo(hbuf[..], hashes, rows, cols, Turn(rows, cols, 0, 0, 0));
    var l, t := 0, 0;
    while l < pages
      invariant l <= pages && t == Turn(rows, cols, l, 0, 0) && FilledTo(hbuf[..], hashes, rows, cols, t)
    {
      t := FillPage(hbuf, hashes, pages, rows, cols, l, t);
      l := l + 1;
    }
    FirstAndLastTurn(hbuf[..], hashes, pages, rows, cols);
    Complete(hbuf[..], hashes, rows, cols);
    hide FilledTo, TurnOf, Turn, Slot, InPage;
    FilledPages(hbuf[..], hashes, pages, rows, cols);
  }

  lemma Complete(b: seq<Option<Entry>>, hashes: seq<string>, rows: nat, cols: nat)
    requires FilledTo(b, hashes, rows, cols, |hashes|)
    ensures rows * cols > 0
    ensures forall k :: 0 <= k < |b| ==>
              TurnOf(rows, cols, k) < |hashes| && b[k] == Some(Entry(k, hashes[TurnOf(rows, cols, k)]))
  {
    hide TurnOf;
  }

  // Page l goes down the columns of the list, but the passwords are made along its rows.
  ghost predicate InPage(b: seq<Option<Entry>>, hashes: seq<string>, rows: nat, cols: nat, l: nat, i: nat, j: nat) {
    Holds(b, hashes, l * (rows * cols) + j * rows + i, l * (rows * cols) + i * cols + j)
  }

  // Place k holds its number and the hash made in turn t.
  ghost predicate Holds(b: seq<Option<Entry>>, hashes: seq<string>, k: int, t: int) {
    0 <= k < |b| && 0 <= t < |hashes| && b[k] == Some(Entry(k, hashes[t]))
  }

  lemma FilledPages(b: seq<Option<Entry>>, hashes: seq<string>, pages: nat, rows: nat, cols: nat)
    requires rows * cols > 0 && |b| == |hashes| == pages * (rows * cols)
    requires forall k :: 0 <= k < |b| ==>
               TurnOf(rows, cols, k) < |hashes| && b[k] == Some(Entry(k, hashes[TurnOf(rows, cols, k)]))
    ensures forall l: nat, i: nat, j: nat | l < pages && i < rows && j < cols :: InPage(b, hashes, rows, cols, l, i, j)
  {
    forall l: nat, i: nat, j: nat | l < pages && i < rows && j < cols
      ensures InPage(b, hashes, rows, cols, l, i, j)
    {
      SlotInRange(pages, rows, cols, l, i, j);
      TurnOfSlot(rows, cols, l, i, j);
      Spelled(rows, cols, l, i, j);
      hide Slot, Turn, TurnOf;
      assert b[Slot(rows, cols, l, i, j)] == b[Slot(rows, cols, l, i, j)];
    }
  }

  lemma Spelled(rows: nat, cols: nat, l: nat, i: nat, j: nat)
    ensures Slot(rows, cols, l, i, j) == l * (rows * cols) + j * rows + i
    ensures Turn(rows, cols, l, i, j) == l * (rows * cols) + i * cols + j
  {
    assert rows * cols == cols * rows;
  }

  // One page; t counts the passwords made so far.
  method FillPage(hbuf: array<Option<Entry>>, hashes: seq<string>, pages: nat, rows: nat, cols: nat, l: nat, t0: nat)
    returns (t: nat)
    requires l < pages && hbuf.Length == pages * (rows * cols) && t0 == Turn(rows, cols, l, 0, 0)
    requires FilledTo(hbuf[..], hashes, rows, cols, t0)
    modifies hbuf
    ensures t == Turn(rows, cols, l + 1, 0, 0) && FilledTo(hbuf[..], hashes, rows, cols, t)
  {
    var i := 0;
    t := t0;
    hide FilledTo, TurnOf, Turn;
    while i < rows
      invariant i <= rows && t == Turn(rows, cols, l, i, 0) && FilledTo(hbuf[..], hashes, rows, cols, t)
    {
      var j := 0;
      while j < cols
        invariant j <= cols && t == Turn(rows, cols, l, i, j) && FilledTo(hbuf[..], hashes, rows, cols, t)
      {
        var k := j * rows + i + l * rows * cols;
        assert k == Slot(rows, cols, l, i, j) by {
          assert l * rows * cols == l * (rows * cols);
        }
        hide Slot;
        SlotInRange(pages, rows, cols, l, i, j);
        FillOne(hbuf[..], hashes, rows, cols, l, i, j);
        NextTurn(rows, cols, l, i, j);
        hbuf[k] := Some(Entry(k, hashes[t]));
        t := t + 1;
        j := j + 1;
      }
      NextTurn(rows, cols, l, i, 0);
      i := i + 1;
    }
    NextTurn(rows, cols, l, 0, 0);
  }
}
