/** The doubly linked list of hole descriptors as a table indexed by block number, and what the
    pointer updates of __net_defragment do to the list it encodes. */
module HoleTable {
  import opened HoleList

  // A hole descriptor: three 16-bit fields; next and prev are block numbers, 0 for none.
  datatype Descriptor = Descriptor(last: nat, next: nat, prev: nat)

  function Block(h: Hole): nat {
    h.first / 8
  }

  ghost predicate Placed(hs: seq<Hole>, blocks: nat) {
    && (forall i | 0 <= i < |hs| :: hs[i].first == 8 * Block(hs[i]) && Block(hs[i]) < blocks)
    && (forall i, j | 0 <= i < j < |hs| :: Block(hs[i]) < Block(hs[j]))
  }

  ghost function DescriptorOf(hs: seq<Hole>, i: nat): Descriptor
    requires i < |hs|
  {
    Descriptor(hs[i].last,
               if i + 1 < |hs| then Block(hs[i + 1]) else 0,
               if i > 0 then Block(hs[i - 1]) else 0)
  }

  // The table holds the list hs, which starts in its first hole's block.
  ghost predicate Encodes(t: seq<Descriptor>, hs: seq<Hole>) {
    Placed(hs, |t|) && forall i | 0 <= i < |hs| :: t[Block(hs[i])] == DescriptorOf(hs, i)
  }

  /** The list without hole i.  Its predecessor at block 0 is taken for "none" and drops out too. */
  function Without(hs: seq<Hole>, i: nat): seq<Hole>
    requires i < |hs|
  {
    if i == 1 && hs[0].first == 0 then hs[2..] else hs[..i] + hs[i + 1..]
  }

  // Likewise when hole i is replaced by a later one.
  function Replaced(hs: seq<Hole>, i: nat, h: Hole): seq<Hole>
    requires i < |hs|
  {
    if i == 1 && hs[0].first == 0 then hs[1..][0 := h] else hs[i := h]
  }

  // The first k holes go.
  lemma DropFirst(t: seq<Descriptor>, hs: seq<Hole>, k: nat)
    requires Encodes(t, hs) && 0 < k < |hs|
    ensures var b := Block(hs[k]); Encodes(t[b := t[b].(prev := 0)], hs[k..])
  {
    var b := Block(hs[k]);
    var u, out := t[b := t[b].(prev := 0)], hs[k..];
    forall j | 0 <= j < |out|
      ensures u[Block(out[j])] == DescriptorOf(out, j)
    {
      assert t[Block(hs[k + j])] == DescriptorOf(hs, k + j);
    }
  }

  lemma DropLast(t: seq<Descriptor>, hs: seq<Hole>)
    requires Encodes(t, hs) && |hs| > 1
    ensures var p := Block(hs[|hs| - 2]); Encodes(t[p := t[p].(next := 0)], hs[..|hs| - 1])
  {
  }

  lemma PlacedWithout(hs: seq<Hole>, i: nat, blocks: nat)
    requires Placed(hs, blocks) && i < |hs|
    ensures Placed(hs[..i] + hs[i + 1..], blocks)
  {
  }

  // Table after the links on both sides of hole i have been joined.
  function JoinedTable(t: seq<Descriptor>, hs: seq<Hole>, i: nat): seq<Descriptor>
    requires Placed(hs, |t|) && 0 < i < |hs| - 1
  {
    var n, p := Block(hs[i + 1]), Block(hs[i - 1]);
    t[n := t[n].(prev := p)][p := t[p].(next := n)]
  }

  lemma DropMiddle(t: seq<Descriptor>, hs: seq<Hole>, i: nat)
    requires Encodes(t, hs) && 0 < i < |hs| - 1
    ensures Encodes(JoinedTable(t, hs, i), hs[..i] + hs[i + 1..])
  {
    var out := hs[..i] + hs[i + 1..];
    PlacedWithout(hs, i, |t|);
    forall j | 0 <= j < |out|
      ensures JoinedTable(t, hs, i)[Block(out[j])] == DescriptorOf(out, j)
    {
      JoinedEntry(t, hs, i, j);
    }
    hide Placed, DescriptorOf, Block;
  }

  lemma JoinedEntry(t: seq<Descriptor>, hs: seq<Hole>, i: nat, j: nat)
    requires Encodes(t, hs) && 0 < i < |hs| - 1 && j < |hs| - 1
    ensures var out := hs[..i] + hs[i + 1..];
            Block(out[j]) < |t| && JoinedTable(t, hs, i)[Block(out[j])] == DescriptorOf(out, j)
  {
    var k := if j < i then j else j + 1;
    assert (hs[..i] + hs[i + 1..])[j] == hs[k];
    assert t[Block(hs[k])] == DescriptorOf(hs, k);
    AwayFrom(hs, k, i - 1, |t|);
    AwayFrom(hs, k, i + 1, |t|);
    Skipped(hs, i, j);
    JoinedTableAt(t, hs, i, Block(hs[k]));
    hide DescriptorOf, Block, JoinedTable;
  }

  lemma JoinedTableAt(t: seq<Descriptor>, hs: seq<Hole>, i: nat, x: nat)
    requires Placed(hs, |t|) && 0 < i < |hs| - 1 && x < |t|
    ensures var n, p := Block(hs[i + 1]), Block(hs[i - 1]);
            && |JoinedTable(t, hs, i)| == |t|
            && JoinedTable(t, hs, i)[x]
               == if x == n then t[x].(prev := p) else if x == p then t[x].(next := n) else t[x]
  {
    AwayFrom(hs, i - 1, i + 1, |t|);
    hide Block;
  }

  lemma AwayFrom(hs: seq<Hole>, j: nat, k: nat, blocks: nat)
    requires Placed(hs, blocks) && j < |hs| && k < |hs|
    ensures Block(hs[j]) == Block(hs[k]) <==> j == k
  {
  }

  // The descriptors of a list without hole i: those of the two neighbours get a new link.
  lemma Skipped(hs: seq<Hole>, i: nat, j: nat)
    requires 0 < i < |hs| - 1 && j < |hs| - 1
    ensures DescriptorOf(hs[..i] + hs[i + 1..], j) ==
              if j == i - 1 then DescriptorOf(hs, j).(next := Block(hs[i + 1]))
              else if j == i then DescriptorOf(hs, j + 1).(prev := Block(hs[i - 1]))
              else DescriptorOf(hs, if j < i then j else j + 1)
  {
    hide Block;
  }

  // Table after a hole with descriptor d has been taken out of the list.
  function UnlinkedTable(t: seq<Descriptor>, d: Descriptor): seq<Descriptor>
    requires d.next < |t| && d.prev < |t|
  {
    var u := if d.next != 0 then t[d.next := t[d.next].(prev := d.prev)] else t;
    if d.prev != 0 then u[d.prev := u[d.prev].(next := d.next)] else u
  }

  // The links of hole i lead to its neighbours; the hole at block 0 is never seen as one.
  lemma Links(t: seq<Descriptor>, hs: seq<Hole>, i: nat)
    requires Encodes(t, hs) && i < |hs|
    ensures var d := t[Block(hs[i])];
            && d == DescriptorOf(hs, i) && d.next < |t| && d.prev < |t|
            && (d.next != 0 <==> i + 1 < |hs|) && (d.next != 0 ==> d.next == Block(hs[i + 1]))
            && (d.prev != 0 <==> i > 0 && hs[i - 1].first != 0) && (d.prev != 0 ==> d.prev == Block(hs[i - 1]))
            && (d.next != 0 ==> d.prev < d.next)
  {
    if i > 0 {
      AwayFrom(hs, i - 1, i, |t|);
    }
    if i + 1 < |hs| {
      assert Block(hs[i]) < Block(hs[i + 1]);
    }
  }

  lemma FirstAtZero(hs: seq<Hole>, j: nat, blocks: nat)
    requires Placed(hs, blocks) && j < |hs|
    ensures j > 0 ==> hs[j].first > 0
  {
    if j > 0 {
      assert Block(hs[0]) < Block(hs[j]);
    }
  }

  lemma WithoutIs(t: seq<Descriptor>, hs: seq<Hole>, i: nat)
    requires Encodes(t, hs) && i < |hs|
    ensures Without(hs, i) == if t[Block(hs[i])].prev != 0 then hs[..i] + hs[i + 1..] else hs[i + 1..]
  {
    Links(t, hs, i);
    if i > 0 && hs[i - 1].first == 0 {
      FirstAtZero(hs, i - 1, |t|);
    }
    hide Encodes, Placed, Block, DescriptorOf;
  }

  lemma Unlinked(t: seq<Descriptor>, hs: seq<Hole>, i: nat)
    requires Encodes(t, hs) && i < |hs|
    ensures var d, rest := t[Block(hs[i])], Without(hs, i);
            && d.next < |t| && d.prev < |t|
            && (rest == [] <==> d.next == 0 && d.prev == 0)
            && (rest != [] ==> Encodes(UnlinkedTable(t, d), rest))
            && (rest != [] ==> Block(rest[0]) == if d.prev == 0 then d.next else Block(hs[0]))
  {
    Links(t, hs, i);
    WithoutIs(t, hs, i);
    var d := t[Block(hs[i])];
    hide Without;
    if d.next == 0 {
      if d.prev != 0 {
        UnlinkedLast(t, hs, d.last);
      }
    } else if d.prev == 0 {
      UnlinkedFirst(t, hs, i + 1, d.last);
    } else {
      UnlinkedMiddle(t, hs, i, d.last);
    }
    hide Encodes, Placed, Block, DescriptorOf, UnlinkedTable;
  }

  lemma UnlinkedFirst(t: seq<Descriptor>, hs: seq<Hole>, k: nat, last: nat)
    requires Encodes(t, hs) && 0 < k < |hs|
    ensures Encodes(UnlinkedTable(t, Descriptor(last, Block(hs[k]), 0)), hs[k..])
  {
    DropFirst(t, hs, k);
    assert Block(hs[0]) < Block(hs[k]);
    hide Encodes;
  }

  lemma UnlinkedLast(t: seq<Descriptor>, hs: seq<Hole>, last: nat)
    requires Encodes(t, hs) && |hs| > 1 && Block(hs[|hs| - 2]) != 0
    ensures var p := Block(hs[|hs| - 2]);
            Encodes(UnlinkedTable(t, Descriptor(last, 0, p)), hs[..|hs| - 1] + [])
  {
    DropLast(t, hs);
    assert hs[..|hs| - 1] + [] == hs[..|hs| - 1];
    hide Encodes;
  }

  lemma UnlinkedMiddle(t: seq<Descriptor>, hs: seq<Hole>, i: nat, last: nat)
    requires Encodes(t, hs) && 0 < i < |hs| - 1 && Block(hs[i - 1]) != 0
    ensures var n, p := Block(hs[i + 1]), Block(hs[i - 1]);
            Encodes(UnlinkedTable(t, Descriptor(last, n, p)), hs[..i] + hs[i + 1..])
  {
    DropMiddle(t, hs, i);
    AwayFrom(hs, i - 1, i + 1, |t|);
    assert Block(hs[i - 1]) < Block(hs[i + 1]);
    hide Encodes;
  }

  lemma PlacedReplaced(hs: seq<Hole>, i: nat, h: Hole, blocks: nat)
    requires Placed(hs, blocks) && i < |hs|
    requires h.first == 8 * Block(h) && Block(h) < blocks && Block(hs[i]) <= Block(h)
    requires i + 1 < |hs| ==> Block(h) < Block(hs[i + 1])
    ensures Placed(hs[i := h], blocks)
  {
  }

  lemma Shorten(t: seq<Descriptor>, hs: seq<Hole>, i: nat, last: nat)
    requires Encodes(t, hs) && i < |hs|
    ensures var b := Block(hs[i]);
            Encodes(t[b := t[b].(last := last)], hs[i := Hole(hs[i].first, last)])
  {
    var b, out := Block(hs[i]), hs[i := Hole(hs[i].first, last)];
    PlacedReplaced(hs, i, out[i], |t|);
    forall j | 0 <= j < |out|
      ensures t[b := t[b].(last := last)][Block(out[j])] == DescriptorOf(out, j)
    {
      assert Block(out[j]) == Block(hs[j]);
    }
  }

  // The link back to block 0 already reads "none": without its first hole the list is still there.
  lemma ForgetBlockZero(t: seq<Descriptor>, hs: seq<Hole>)
    requires Encodes(t, hs) && |hs| > 1 && hs[0].first == 0
    ensures Encodes(t, hs[1..])
  {
    DropFirst(t, hs, 1);
    var b := Block(hs[1]);
    assert t[b := t[b].(prev := 0)] == t;
  }

  // Table after hole i has moved up to block nb.
  function MovedTable(t: seq<Descriptor>, hs: seq<Hole>, i: nat, nb: nat): seq<Descriptor>
    requires Placed(hs, |t|) && i < |hs| && nb < |t|
  {
    var u := t[nb := t[Block(hs[i])]];
    var v := if i + 1 < |hs| then var n := Block(hs[i + 1]); u[n := u[n].(prev := nb)] else u;
    if i > 0 then var p := Block(hs[i - 1]); v[p := v[p].(next := nb)] else v
  }

  lemma Move(t: seq<Descriptor>, hs: seq<Hole>, i: nat, nb: nat)
    requires Encodes(t, hs) && i < |hs| && Block(hs[i]) < nb < |t|
    requires i + 1 < |hs| ==> nb < Block(hs[i + 1])
    ensures Encodes(MovedTable(t, hs, i, nb), hs[i := Hole(8 * nb, hs[i].last)])
  {
    var out := hs[i := Hole(8 * nb, hs[i].last)];
    PlacedReplaced(hs, i, out[i], |t|);
    MovedTableAt(t, hs, i, nb);
    forall j | 0 <= j < |out|
      ensures MovedTable(t, hs, i, nb)[Block(out[j])] == DescriptorOf(out, j)
    {
      MovedEntry(t, hs, i, nb, j);
    }
    hide MovedTable, Placed, DescriptorOf, Block;
  }

  lemma MovedEntry(t: seq<Descriptor>, hs: seq<Hole>, i: nat, nb: nat, j: nat)
    requires Encodes(t, hs) && i < |hs| && Block(hs[i]) < nb < |t| && j < |hs|
    requires i + 1 < |hs| ==> nb < Block(hs[i + 1])
    ensures var u, out := MovedTable(t, hs, i, nb), hs[i := Hole(8 * nb, hs[i].last)];
            |u| == |t| && Block(out[j]) < |t| && u[Block(out[j])] == DescriptorOf(out, j)
  {
    MovedTableAt(t, hs, i, nb);
    hide MovedTable;
    var out := hs[i := Hole(8 * nb, hs[i].last)];
    assert Block(out[i]) == nb;
    assert j != i ==> out[j] == hs[j];
    assert t[Block(hs[j])] == DescriptorOf(hs, j);
    if i > 0 {
      AwayFrom(hs, j, i - 1, |t|);
    }
    if i + 1 < |hs| {
      AwayFrom(hs, j, i + 1, |t|);
    }
    assert j < i ==> Block(hs[j]) <= Block(hs[i]) < nb;
    assert j > i ==> Block(hs[j]) >= Block(hs[i + 1]) > nb;
    hide Block;
  }

  lemma MovedTableAt(t: seq<Descriptor>, hs: seq<Hole>, i: nat, nb: nat)
    requires Placed(hs, |t|) && i < |hs| && Block(hs[i]) < nb < |t|
    requires i + 1 < |hs| ==> nb < Block(hs[i + 1])
    ensures var u := MovedTable(t, hs, i, nb);
      && |u| == |t| && u[nb] == t[Block(hs[i])]
      && (i + 1 < |hs| ==> u[Block(hs[i + 1])] == t[Block(hs[i + 1])].(prev := nb))
      && (i > 0 ==> u[Block(hs[i - 1])] == t[Block(hs[i - 1])].(next := nb))
      && forall x | 0 <= x < |t| && x != nb
                    && (i + 1 < |hs| ==> x != Block(hs[i + 1])) && (i > 0 ==> x != Block(hs[i - 1]))
           :: u[x] == t[x]
  {
  }

  // Table after hole i has been cut into a part up to byte s and a part from block nb on.
  function SplitTable(t: seq<Descriptor>, hs: seq<Hole>, i: nat, s: nat, nb: nat): seq<Descriptor>
    requires Placed(hs, |t|) && i < |hs| && nb < |t|
  {
    var b := Block(hs[i]);
    var u := t[nb := t[b]][b := t[b].(last := s, next := nb)];
    var v := u[nb := u[nb].(prev := b)];
    if i + 1 < |hs| then var n := Block(hs[i + 1]); v[n := v[n].(prev := nb)] else v
  }

  lemma Split(t: seq<Descriptor>, hs: seq<Hole>, i: nat, s: nat, nb: nat)
    requires Encodes(t, hs) && i < |hs| && Block(hs[i]) < nb < |t|
    requires i + 1 < |hs| ==> nb < Block(hs[i + 1])
    ensures Encodes(SplitTable(t, hs, i, s, nb),
                    hs[..i] + [Hole(hs[i].first, s), Hole(8 * nb, hs[i].last)] + hs[i + 1..])
  {
    var u := SplitTable(t, hs, i, s, nb);
    var out := hs[..i] + [Hole(hs[i].first, s), Hole(8 * nb, hs[i].last)] + hs[i + 1..];
    PlacedSplit(hs, i, s, nb, |t|);
    forall j | 0 <= j < |out|
      ensures u[Block(out[j])] == DescriptorOf(out, j)
    {
      SplitEntry(t, hs, i, s, nb, j);
    }
  }

  lemma SplitEntry(t: seq<Descriptor>, hs: seq<Hole>, i: nat, s: nat, nb: nat, j: nat)
    requires Encodes(t, hs) && i < |hs| && Block(hs[i]) < nb < |t| && j <= |hs|
    requires i + 1 < |hs| ==> nb < Block(hs[i + 1])
    ensures var out := hs[..i] + [Hole(hs[i].first, s), Hole(8 * nb, hs[i].last)] + hs[i + 1..];
            Block(out[j]) < |t| && SplitTable(t, hs, i, s, nb)[Block(out[j])] == DescriptorOf(out, j)
  {
    hide SplitTable;
    SplitTableAt(t, hs, i, s, nb);
    SplitAt(hs, i, s, nb, j);
    SplitOther(hs, i, nb, j);
    SplitDescriptor(hs, i, s, nb, j);
    hide DescriptorOf;
    var k := if j <= i then j else j - 1;
    assert t[Block(hs[k])] == DescriptorOf(hs, k);
  }

  lemma SplitDescriptor(hs: seq<Hole>, i: nat, s: nat, nb: nat, j: nat)
    requires i < |hs| && j <= |hs|
    ensures var out := hs[..i] + [Hole(hs[i].first, s), Hole(8 * nb, hs[i].last)] + hs[i + 1..];
      DescriptorOf(out, j) ==
        if j < i then DescriptorOf(hs, j)
        else if j == i then Descriptor(s, nb, DescriptorOf(hs, i).prev)
        else if j == i + 1 then Descriptor(hs[i].last, DescriptorOf(hs, i).next, Block(hs[i]))
        else if j == i + 2 then DescriptorOf(hs, j - 1).(prev := nb)
        else DescriptorOf(hs, j - 1)
  {
    SplitAt(hs, i, s, nb, j);
    if j > 0 {
      SplitAt(hs, i, s, nb, j - 1);
    }
    if j < |hs| {
      SplitAt(hs, i, s, nb, j + 1);
    }
  }

  // The hole behind or before the split has its own block.
  lemma SplitOther(hs: seq<Hole>, i: nat, nb: nat, j: nat)
    requires i < |hs| && j <= |hs|
    requires forall a, b | 0 <= a < b < |hs| :: Block(hs[a]) < Block(hs[b])
    requires Block(hs[i]) < nb && (i + 1 < |hs| ==> nb < Block(hs[i + 1]))
    ensures j < i ==> Block(hs[j]) < Block(hs[i])
    ensures j > i + 1 ==> nb < Block(hs[i + 1]) <= Block(hs[j - 1])
    ensures j > i + 2 ==> Block(hs[i + 1]) < Block(hs[j - 1])
  {
  }

  lemma SplitTableAt(t: seq<Descriptor>, hs: seq<Hole>, i: nat, s: nat, nb: nat)
    requires Placed(hs, |t|) && i < |hs| && Block(hs[i]) < nb < |t|
    requires i + 1 < |hs| ==> nb < Block(hs[i + 1])
    ensures var u, b := SplitTable(t, hs, i, s, nb), Block(hs[i]);
      && |u| == |t| && u[b] == Descriptor(s, nb, t[b].prev) && u[nb] == Descriptor(t[b].last, t[b].next, b)
      && (i + 1 < |hs| ==> u[Block(hs[i + 1])] == t[Block(hs[i + 1])].(prev := nb))
      && forall x | 0 <= x < |t| && x != b && x != nb && (i + 1 < |hs| ==> x != Block(hs[i + 1])) :: u[x] == t[x]
  {
  }

  lemma SplitAt(hs: seq<Hole>, i: nat, s: nat, nb: nat, j: nat)
    requires i < |hs| && j <= |hs|
    ensures (hs[..i] + [Hole(hs[i].first, s), Hole(8 * nb, hs[i].last)] + hs[i + 1..])[j]
         == if j < i then hs[j] else if j == i then Hole(hs[i].first, s)
            else if j == i + 1 then Hole(8 * nb, hs[i].last) else hs[j - 1]
  {
  }

  lemma PlacedSplit(hs: seq<Hole>, i: nat, s: nat, nb: nat, blocks: nat)
    requires Placed(hs, blocks) && i < |hs| && Block(hs[i]) < nb < blocks
    requires i + 1 < |hs| ==> nb < Block(hs[i + 1])
    ensures Placed(hs[..i] + [Hole(hs[i].first, s), Hole(8 * nb, hs[i].last)] + hs[i + 1..], blocks)
  {
    var out := hs[..i] + [Hole(hs[i].first, s), Hole(8 * nb, hs[i].last)] + hs[i + 1..];
    forall j | 0 <= j < |out|
      ensures out[j].first == 8 * Block(out[j]) && Block(out[j]) < blocks
    {
      SplitAt(hs, i, s, nb, j);
    }
    forall j | 0 <= j < |out| - 1
      ensures Block(out[j]) < Block(out[j + 1])
    {
      SplitAt(hs, i, s, nb, j);
      SplitAt(hs, i, s, nb, j + 1);
    }
    Ascending(out);
  }

  lemma {:induction false} Ascending(hs: seq<Hole>)
    requires forall j | 0 <= j < |hs| - 1 :: Block(hs[j]) < Block(hs[j + 1])
    ensures forall i, j | 0 <= i < j < |hs| :: Block(hs[i]) < Block(hs[j])
  {
    if |hs| > 1 {
      var m := |hs| - 1;
      Ascending(hs[..m]);
      assert forall j | 0 <= j < m :: Block(hs[j]) <= Block(hs[m - 1]);
    }
  }

  /** The four ways in which the code takes the bytes of a fragment out of hole i. */
  function CutList(hs: seq<Hole>, i: nat, f: Span): seq<Hole>
    requires i < |hs|
  {
    var h := hs[i];
    if h.first >= f.start && h.last <= f.end then Without(hs, i)
    else if h.last <= f.end then hs[i := Hole(h.first, f.start)]
    else if h.first >= f.start then Replaced(hs, i, Hole(f.end, h.last))
    else hs[..i] + [Hole(h.first, f.start), Hole(f.end, h.last)] + hs[i + 1..]
  }

  // Hole i with its open end cut off if the fragment is the last one.
  function Truncated(hs: seq<Hole>, i: nat, f: Span): seq<Hole>
    requires i < |hs|
  {
    hs[i := Hole(hs[i].first, if f.more then hs[i].last else f.end)]
  }

  lemma CutListIsPunch(hs: seq<Hole>, i: nat, f: Span)
    requires i < |hs| && Inside(hs, i, f) && !(i == 1 && hs[0].first == 0)
    ensures CutList(Truncated(hs, i, f), i, f) == Punch(hs, i, f)
  {
    var ts := Truncated(hs, i, f);
    assert ts[..i] == hs[..i] && ts[i + 1..] == hs[i + 1..];
  }

  lemma CutListAtSecondHole(hs: seq<Hole>, f: Span)
    requires 1 < |hs| && Inside(hs, 1, f) && hs[0].first == 0
    ensures CutList(Truncated(hs, 1, f), 1, f)
         == if f.start == hs[1].first then Punch(hs, 1, f)[1..] else Punch(hs, 1, f)
  {
    var ts := Truncated(hs, 1, f);
    assert ts[..1] == hs[..1] && ts[2..] == hs[2..];
  }

  // Hole i is where the search stops and the repeat test fails: the fragment's own hole, or for a
  // repeated fragment the hole that ends where it begins.
  ghost predicate FoundAt(hs: seq<Hole>, i: nat, f: Span) {
    && i < |hs|
    && (Hits(hs, f.start) ==> Find(hs, f.start) == i)
    && (!Hits(hs, f.start) ==> hs[i].last == f.start)
  }

  /** Whichever way the code takes, the result is Step's; a repeated fragment right behind hole i
      changes nothing. */
  lemma CutListIsStep(s: State, f: Span, i: nat)
    requires Consistent(s) && Fits(s.holes, f) && FoundAt(s.holes, i, f)
    ensures CutList(Truncated(s.holes, i, f), i, f) == Step(s, f).holes
  {
    if !Hits(s.holes, f.start) {
      var ts := Truncated(s.holes, i, f);
      assert ts[i := Hole(ts[i].first, f.start)] == s.holes;
    } else if i == 1 && s.holes[0].first == 0 {
      CutListAtSecondHole(s.holes, f);
    } else {
      CutListIsPunch(s.holes, i, f);
    }
  }

  // Where a hole continues behind the fragment there is room for its descriptor.
  lemma RoomBehind(s: State, f: Span, i: nat)
    requires Consistent(s) && Fits(s.holes, f) && FoundAt(s.holes, i, f)
    ensures f.end < Truncated(s.holes, i, f)[i].last ==>
              && f.more && Inside(s.holes, i, f) && f.end == 8 * (f.end / 8)
              && Block(s.holes[i]) <= f.start / 8 < f.end / 8
              && (i + 1 < |s.holes| ==> f.end / 8 < Block(s.holes[i + 1]))
  {
  }

  /** What the search for the first hole with last_byte >= start and the test for a repeated
      fragment establish. */
  lemma SearchResult(s: State, f: Span, i: nat)
    requires Consistent(s) && Fits(s.holes, f) && i <= |s.holes|
    requires forall j | 0 <= j < i :: s.holes[j].last < f.start
    requires i < |s.holes| ==> f.start <= s.holes[i].last
    ensures i == |s.holes| ==> Step(s, f) == s
    ensures i < |s.holes| && f.start / 8 + (f.end - f.start + 7) / 8 <= Block(s.holes[i]) ==> Step(s, f) == s
    ensures i < |s.holes| && f.start / 8 + (f.end - f.start + 7) / 8 > Block(s.holes[i]) ==>
              FoundAt(s.holes, i, f)
  {
    var k := Find(s.holes, f.start);
    if i < |s.holes| {
      assert k >= i;
      assert k > i ==> s.holes[i].last == f.start;
    }
  }

  // Overwriting bytes that no hole claims leaves the list alone.
  lemma OverwriteOutsideHoles(t: seq<Descriptor>, u: seq<Descriptor>, hs: seq<Hole>, f: Span)
    requires Encodes(t, hs) && |u| == |t| && WellFormed(hs)
    requires Avoid(hs, f)
    requires f.start < f.end < OPEN
    requires forall b: nat | b < |t| && (8 * b + 8 <= f.start || f.end <= 8 * b) :: u[b] == t[b]
    ensures Encodes(u, hs)
  {
    forall j | 0 <= j < |hs|
      ensures u[Block(hs[j])] == t[Block(hs[j])]
    {
      BeforeOrBehind(hs[j], f);
    }
  }

  lemma BeforeOrBehind(h: Hole, f: Span)
    requires h.first % 8 == 0 && h.first < h.last && (h.last % 8 == 0 || h.last == OPEN)
    requires f.start < f.end < OPEN && (h.last <= f.start || f.end <= h.first)
    ensures 8 * Block(h) + 8 <= f.start || f.end <= 8 * Block(h)
  {
  }
}
