/** Printing the hash file in random order (otpw-gen.c, main). */
module OtpShuffle {
  import opened Basics

  // What is left of s after entry i has been printed.
  function LeftOver<T>(s: seq<T>, i: nat): (r: seq<T>)
    requires i < |s|
    ensures |r| == |s| - 1
  {
    s[i := s[|s| - 1]][..|s| - 1]
  }

  // The entry to print when k others are still to come, for the random number r.
  function Pick(r: nat, k: nat): (i: nat)
    ensures i <= k && (k > 0 ==> i < k)
  {
    if k > 0 then r % k else 0
  }

  // A draw takes the random number as it is, or folded into the range.
  lemma Folded(r: nat, k: nat)
    requires k > 0
    ensures Pick(r + k, k) == Pick(r, k) && (r < k ==> Pick(r, k) == r)
  {
    var q, m := r / k, r % k;
    assert r == q * k + m && r + k == (q + 1) * k + m;
    Divided(q + 1, k, m);
    Divided(q, k, m);
  }

  /** The lines in the order in which they are printed, for the random numbers rs. */
  function Shuffled<T>(s: seq<T>, rs: seq<nat>): (r: seq<T>)
    requires |rs| == |s|
    ensures |r| == |s|
    decreases |s|
  {
    if s == [] then []
    else
      var i := Pick(rs[0], |s| - 1);
      [s[i]] + Shuffled(LeftOver(s, i), rs[1..])
  }

  lemma Drawn<T>(s: seq<T>, i: nat)
    requires i < |s|
    ensures multiset(s) == multiset{s[i]} + multiset(LeftOver(s, i))
  {
    var k := |s| - 1;
    assert s == s[..k] + [s[k]];
    if i < k {
      var a, b := s[..i], s[i + 1..k];
      assert s[..k] == a + [s[i]] + b;
      assert LeftOver(s, i) == a + [s[k]] + b;
      hide LeftOver;
    } else {
      assert s[i := s[k]] == s;
    }
  }

  /** Every entry is printed exactly once, whatever the random numbers. */
  lemma {:induction false} ShuffledIsPermutation<T>(s: seq<T>, rs: seq<nat>)
    requires |rs| == |s|
    ensures multiset(Shuffled(s, rs)) == multiset(s)
    decreases |s|
  {
    if s != [] {
      var i := Pick(rs[0], |s| - 1);
      var rest := LeftOver(s, i);
      Drawn(s, i);
      ShuffledIsPermutation(rest, rs[1..]);
      assert multiset([s[i]] + Shuffled(rest, rs[1..])) == multiset{s[i]} + multiset(Shuffled(rest, rs[1..]));
    }
  }

  ghost predicate Distinct<T(!new)>(s: seq<T>) {
    forall i, j :: 0 <= i < j < |s| ==> s[i] != s[j]
  }

  /** Not every order can come out: a draw never takes the last entry that is left, so with two or more different
      entries entry k is never the one printed when k others are still to come. */
  lemma {:induction false} NeverInMirroredPlace<T(!new)>(s: seq<T>, rs: seq<nat>, k: nat)
    requires |rs| == |s| && |s| > 1 && Distinct(s) && k < |s|
    ensures Shuffled(s, rs)[|s| - 1 - k] != s[k]
    decreases |s|
  {
    var n := |s| - 1;
    var i := Pick(rs[0], n);
    var rest := LeftOver(s, i);
    var out := Shuffled(rest, rs[1..]);
    if k < n && k != i {
      NeverInMirroredPlace(rest, rs[1..], k);
    } else if k == i {
      ShuffledIsPermutation(rest, rs[1..]);
      assert out[n - 1 - k] in multiset(out);
      assert s[k] !in rest;
    }
  }

  function Elements<T>(s: seq<T>): (e: set<T>)
    ensures forall i :: 0 <= i < |s| ==> s[i] in e
  {
    set x | x in s
  }

  // With every entry of e, the one printed when k others are still to come, k being its own place, is in e as well.
  ghost predicate Closed<T(!new)>(e: set<T>, s: seq<T>, q: seq<T>)
    requires |s| == |q|
  {
    forall k :: 0 <= k < |s| && s[k] in e ==> q[|s| - 1 - k] in e
  }

  // Sending each entry to the one printed in its mirrored place is one single cycle.
  ghost predicate Cyclic<T(!new)>(s: seq<T>, q: seq<T>)
    requires |s| == |q|
  {
    forall e: set<T> :: e != {} && e < Elements(s) ==> !Closed(e, s, q)
  }

  lemma LeftOverElements<T(!new)>(s: seq<T>, i: nat)
    requires Distinct(s) && i < |s| - 1
    ensures Distinct(LeftOver(s, i)) && Elements(LeftOver(s, i)) == Elements(s) - {s[i]}
  {
    var r := LeftOver(s, i);
    forall x | x in Elements(s) - {s[i]}
      ensures x in r
    {
      var k :| 0 <= k < |s| && s[k] == x;
      assert x == r[if k == |s| - 1 then i else k];
    }
  }

  lemma LeftOverAt<T>(s: seq<T>, i: nat, k: nat)
    requires i < |s| - 1 && k < |s| - 1
    ensures LeftOver(s, i)[k] == if k == i then s[|s| - 1] else s[k]
  {
  }

  // The closed set e of what is left over, with entry i put back where it was taken out of its cycle.
  function Grown<T(==)>(s: seq<T>, i: nat, e: set<T>): set<T>
    requires i < |s|
  {
    if s[|s| - 1] in e then e + {s[i]} else e
  }

  lemma GrownAt<T(!new)>(s: seq<T>, q: seq<T>, i: nat, e: set<T>, k: nat)
    requires |q| == |s| && i < |s| - 1 && q[0] == s[i] && s[i] !in e && k < |s|
    requires Distinct(s) && Closed(e, LeftOver(s, i), q[1..]) && s[k] in Grown(s, i, e)
    ensures q[|s| - 1 - k] in Grown(s, i, e)
  {
    var n := |s|;
    if k < n - 1 {
      LeftOverAt(s, i, k);
      hide LeftOver;
      assert LeftOver(s, i)[k] in e;
      assert q[1..][n - 2 - k] == q[n - 1 - k];
    }
  }

  lemma GrowClosed<T(!new)>(s: seq<T>, q: seq<T>, i: nat, e: set<T>)
    requires Distinct(s) && |q| == |s| && i < |s| - 1 && q[0] == s[i]
    requires e != {} && e < Elements(LeftOver(s, i)) && Closed(e, LeftOver(s, i), q[1..])
    ensures !Cyclic(s, q)
  {
    hide LeftOver, Grown, Elements, Distinct;
    var f := Grown(s, i, e);
    GrownIsProper(s, i, e);
    forall k | 0 <= k < |s| && s[k] in f
      ensures q[|s| - 1 - k] in f
    {
      GrownAt(s, q, i, e, k);
    }
    assert Closed(f, s, q);
  }

  lemma GrownIsProper<T(!new)>(s: seq<T>, i: nat, e: set<T>)
    requires Distinct(s) && i < |s| - 1
    requires e != {} && e < Elements(LeftOver(s, i))
    ensures s[i] !in e && Grown(s, i, e) != {} && Grown(s, i, e) < Elements(s)
  {
    LeftOverElements(s, i);
    hide LeftOver, Distinct;
    var x :| x in Elements(s) - {s[i]} && x !in e;
    assert s[|s| - 1] in Elements(s) && s[i] in Elements(s);
    hide Elements;
  }

  lemma ShrunkAt<T(!new)>(s: seq<T>, q: seq<T>, i: nat, e: set<T>, k: nat)
    requires Distinct(q) && |q| == |s| && i < |s| - 1 && q[0] == s[i] && Closed(e, s, q)
    requires k < |s| - 1 && LeftOver(s, i)[k] in e
    ensures q[1..][|s| - 2 - k] in e - {s[i]}
  {
    var n := |s|;
    LeftOverAt(s, i, k);
    hide LeftOver;
    assert q[n - 1 - k] != q[0];
    if k == i {
      assert s[n - 1] in e && q[n - 1 - (n - 1)] in e;
      assert s[i] in e && q[n - 1 - i] in e;
    } else {
      assert s[k] in e && q[n - 1 - k] in e;
    }
  }

  lemma ShrunkIsProper<T(!new)>(s: seq<T>, q: seq<T>, i: nat, e: set<T>)
    requires Distinct(s) && Distinct(q) && |q| == |s| && i < |s| - 1 && q[0] == s[i]
    requires e != {} && e < Elements(s) && Closed(e, s, q)
    ensures e - {s[i]} != {} && e - {s[i]} < Elements(s) - {s[i]}
  {
    var n, f := |s|, e - {s[i]};
    assert q[n - 1 - i] != q[0];
    assert s[i] in e ==> q[n - 1 - i] in e;
    assert s[n - 1] in e ==> q[n - 1 - (n - 1)] in e;
    assert s[n - 1] != s[i];
    hide Closed, Distinct;
    NonEmptyWithout(e, s[i], q[n - 1 - i]);
    ProperWithout(e, Elements(s), s[i], s[n - 1]);
  }

  lemma NonEmptyWithout<T>(e: set<T>, x: T, y: T)
    requires e != {} && (x in e ==> y in e && y != x)
    ensures e - {x} != {}
  {
    var z :| z in e;
    assert (if x in e then y else z) in e - {x};
  }

  lemma ProperWithout<T>(e: set<T>, all: set<T>, x: T, y: T)
    requires e < all && y in all && y != x && (y in e ==> x in e)
    ensures e - {x} < all - {x}
  {
    assert !(all <= e);
    var z :| z in all && z !in e;
    assert (if x in e then z else y) in all - {x} - (e - {x});
  }

  lemma ShrunkClosed<T(!new)>(s: seq<T>, q: seq<T>, i: nat, e: set<T>)
    requires Distinct(q) && |q| == |s| && i < |s| - 1 && q[0] == s[i] && Closed(e, s, q)
    ensures Closed(e - {s[i]}, LeftOver(s, i), q[1..])
  {
    hide LeftOver;
    forall k | 0 <= k < |s| - 1 && LeftOver(s, i)[k] in e - {s[i]}
      ensures q[1..][|s| - 2 - k] in e - {s[i]}
    {
      ShrunkAt(s, q, i, e, k);
    }
  }

  lemma ShrinkClosed<T(!new)>(s: seq<T>, q: seq<T>, i: nat, e: set<T>)
    requires Distinct(s) && Distinct(q) && |q| == |s| && i < |s| - 1 && q[0] == s[i]
    requires e != {} && e < Elements(s) && Closed(e, s, q)
    ensures !Cyclic(LeftOver(s, i), q[1..])
  {
    hide LeftOver, Elements, Distinct, Closed;
    LeftOverElements(s, i);
    ShrunkIsProper(s, q, i, e);
    ShrunkClosed(s, q, i, e);
  }

  lemma DistinctPermutation<T(!new)>(s: seq<T>, q: seq<T>)
    requires Distinct(s) && multiset(q) == multiset(s)
    ensures |q| == |s| && Distinct(q)
  {
    assert |multiset(q)| == |multiset(s)|;
    forall i, j | 0 <= i < j < |q|
      ensures q[i] != q[j]
    {
      OnceOnly(s, q[i]);
      if q[i] == q[j] {
        TwiceIn(q, i, j);
        assert false;
      }
    }
  }

  lemma OnceOnly<T(!new)>(s: seq<T>, x: T)
    requires Distinct(s)
    ensures multiset(s)[x] <= 1
  {
    if s != [] {
      var r, y := s[..|s| - 1], s[|s| - 1];
      assert s == r + [y];
      OnceOnly(r, x);
      if x == y {
        assert x !in r;
      }
    }
  }

  lemma TwiceIn<T>(q: seq<T>, i: nat, j: nat)
    requires i < j < |q| && q[i] == q[j]
    ensures multiset(q)[q[i]] >= 2
  {
    assert q == q[..j] + [q[j]] + q[j + 1..] && q[i] == q[..j][i];
  }

  lemma {:induction false} ComesOutIsCyclic<T(!new)>(s: seq<T>, rs: seq<nat>)
    requires Distinct(s) && |rs| == |s|
    ensures Cyclic(s, Shuffled(s, rs))
    decreases |s|
  {
    var q := Shuffled(s, rs);
    ShuffledIsPermutation(s, rs);
    DistinctPermutation(s, q);
    if |s| > 1 {
      var i := Pick(rs[0], |s| - 1);
      LeftOverElements(s, i);
      ComesOutIsCyclic(LeftOver(s, i), rs[1..]);
      assert q[0] == s[i] && q[1..] == Shuffled(LeftOver(s, i), rs[1..]);
      hide Shuffled, LeftOver, Elements, Distinct, Closed;
      forall e: set<T> | e != {} && e < Elements(s) && Closed(e, s, q)
        ensures false
      {
        ShrinkClosed(s, q, i, e);
      }
    }
  }

  // The entry that is printed first is not the last one of the list.
  lemma FirstDrawn<T(!new)>(s: seq<T>, q: seq<T>) returns (i: nat)
    requires Distinct(s) && multiset(q) == multiset(s) && |q| == |s| > 1 && Cyclic(s, q)
    ensures i < |s| - 1 && s[i] == q[0]
  {
    assert q[0] in multiset(q);
    assert q[0] in s;
    i :| i < |s| && s[i] == q[0];
    if i == |s| - 1 {
      AloneIsClosed(s, q);
      assert false;
    }
  }

  lemma AloneIsClosed<T(!new)>(s: seq<T>, q: seq<T>)
    requires Distinct(s) && |q| == |s| > 1 && q[0] == s[|s| - 1]
    ensures {s[|s| - 1]} < Elements(s) && Closed({s[|s| - 1]}, s, q)
  {
    assert s[0] in Elements(s) - {s[|s| - 1]};
  }

  lemma LeftOverCyclic<T(!new)>(s: seq<T>, q: seq<T>, i: nat)
    requires Distinct(s) && multiset(q) == multiset(s) && |q| == |s| && i < |s| - 1 && s[i] == q[0] && Cyclic(s, q)
    ensures Distinct(LeftOver(s, i)) && multiset(q[1..]) == multiset(LeftOver(s, i)) && Cyclic(LeftOver(s, i), q[1..])
  {
    LeftOverElements(s, i);
    Drawn(s, i);
    assert q == [q[0]] + q[1..];
    assert multiset(q) == multiset{q[0]} + multiset(q[1..]);
    assert multiset(q[1..]) == multiset(q) - multiset{q[0]} == multiset(LeftOver(s, i));
    hide LeftOver, Elements, Distinct, Closed;
    forall e: set<T> | e != {} && e < Elements(LeftOver(s, i)) && Closed(e, LeftOver(s, i), q[1..])
      ensures false
    {
      GrowClosed(s, q, i, e);
    }
  }

  lemma ShuffledStep<T>(s: seq<T>, q: seq<T>, i: nat, rest: seq<nat>)
    requires |q| == |s| && i < |s| - 1 && s[i] == q[0] && |rest| == |s| - 1 && Shuffled(LeftOver(s, i), rest) == q[1..]
    ensures Shuffled(s, [i] + rest) == q
  {
    hide Shuffled, LeftOver;
    var rs := [i] + rest;
    assert rs[0] == i && rs[1..] == rest;
    Remains(i, |s| - 1);
    ShuffledFirst(s, rs, i);
    assert q == [q[0]] + q[1..];
  }

  lemma Remains(i: nat, m: nat)
    requires i < m
    ensures Pick(i, m) == i
  {
  }

  lemma ShuffledFirst<T>(s: seq<T>, rs: seq<nat>, i: nat)
    requires |rs| == |s| > 1 && i == Pick(rs[0], |s| - 1)
    ensures Shuffled(s, rs) == [s[i]] + Shuffled(LeftOver(s, i), rs[1..])
  {
  }

  lemma {:induction false} CyclicComesOut<T(!new)>(s: seq<T>, q: seq<T>) returns (rs: seq<nat>)
    requires Distinct(s) && multiset(q) == multiset(s) && |q| == |s| && Cyclic(s, q)
    ensures |rs| == |s| && Shuffled(s, rs) == q
    decreases |s|
  {
    if |s| <= 1 {
      rs := seq(|s|, k => 0);
      assert q == s by {
        assert |s| == 1 ==> q[0] in multiset(s);
      }
    } else {
      var i := FirstDrawn(s, q);
      LeftOverCyclic(s, q, i);
      hide Cyclic, LeftOver, Distinct;
      var rest := CyclicComesOut(LeftOver(s, i), q[1..]);
      ShuffledStep(s, q, i, rest);
      rs := [i] + rest;
    }
  }

  /** Exactly these orders come out: those that make one single cycle with the order of the list. */
  lemma ExactlyCyclicOrders<T(!new)>(s: seq<T>, q: seq<T>)
    requires Distinct(s) && multiset(q) == multiset(s) && |q| == |s|
    ensures (exists rs: seq<nat> :: |rs| == |s| && Shuffled(s, rs) == q) <==> Cyclic(s, q)
  {
    if Cyclic(s, q) {
      var rs := CyclicComesOut(s, q);
    } else if rs: seq<nat> :| |rs| == |s| && Shuffled(s, rs) == q {
      ComesOutIsCyclic(s, rs);
    }
  }

  // file has been printed, the entries of b up to k are left, and whole is what there will be in the end.
  ghost predicate Printing<T>(file: seq<T>, b: seq<T>, rs: seq<nat>, k: int, whole: seq<T>) {
    -1 <= k < |b| == |rs| && file + Shuffled(b[..k + 1], rs[|b| - 1 - k..]) == whole
  }

  lemma StartPrinting<T>(b: seq<T>, rs: seq<nat>)
    requires |rs| == |b|
    ensures Printing([], b, rs, |b| - 1, Shuffled(b, rs))
  {
    hide Shuffled;
    assert b[..|b|] == b && rs[0..] == rs;
  }

  lemma PrintOne<T>(file: seq<T>, b: seq<T>, rs: seq<nat>, k: nat, whole: seq<T>)
    requires Printing(file, b, rs, k, whole)
    ensures var i := Pick(rs[|b| - 1 - k], k);
            Printing(file + [b[i]], b[i := b[k]], rs, k - 1, whole)
  {
    var i := Pick(rs[|b| - 1 - k], k);
    var s, rest := b[..k + 1], rs[|b| - 1 - k..];
    assert s[i := s[k]][..k] == b[i := b[k]][..k] && rest[1..] == rs[|b| - k..];
    assert file + [b[i]] + Shuffled(s[i := s[k]][..k], rest[1..])
        == file + ([b[i]] + Shuffled(s[i := s[k]][..k], rest[1..]));
  }

  lemma DonePrinting<T>(file: seq<T>, b: seq<T>, rs: seq<nat>, whole: seq<T>)
    requires Printing(file, b, rs, -1, whole)
    ensures file == whole
  {
  }

  // Entry i is taken, and entry k moves into its place.
  method Draw<T>(hbuf: array<T>, i: nat, k: nat) returns (line: T)
    requires i < hbuf.Length && k < hbuf.Length
    modifies hbuf
    ensures line == old(hbuf[..])[i] && hbuf[..] == old(hbuf[..])[i := old(hbuf[..])[k]]
  {
    line := hbuf[i];
    hbuf[i] := hbuf[k];
  }

  /** The loop that prints a random entry and closes the gap with the last one. */
  method PrintShuffled<T>(hbuf: array<T>, rs: seq<nat>) returns (file: seq<T>)
    requires |rs| == hbuf.Length
    modifies hbuf
    ensures file == Shuffled(old(hbuf[..]), rs) && multiset(file) == multiset(old(hbuf[..]))
  {
    file := [];
    var k := hbuf.Length - 1;
    ghost var whole := Shuffled(hbuf[..], rs);
    ShuffledIsPermutation(hbuf[..], rs);
    StartPrinting(hbuf[..], rs);
    hide Printing, Shuffled, Pick;
    while k >= 0
      invariant -1 <= k < hbuf.Length && Printing(file, hbuf[..], rs, k, whole)
    {
      PrintOne(file, hbuf[..], rs, k, whole);
      var i := Pick(rs[hbuf.Length - 1 - k], k);
      var line := Draw(hbuf, i, k);
      file := file + [line];
      k := k - 1;
    }
    DonePrinting(file, hbuf[..], rs, whole);
  }
}
