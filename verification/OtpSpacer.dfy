/** Breaking a password into short groups, in place (otpw-gen.c, make_passwd). */
module OtpSpacer {
  import opened Basics

  // The number of spaces for n characters.
  function Gaps(n: nat): nat {
    if n > 5 then (n - 1) / 4 else 0
  }

  // What the loop makes of the characters s that it has not reached yet, when its error term is k. It starts at the
  // end; a space goes before a character whenever the error term reaches n, but not before the first character.
  function Spread(s: string, n: nat, k: nat): (r: string)
  {
    if s == [] then []
    else
      var rest, last, k' := s[..|s| - 1], s[|s| - 1..], k + Gaps(n) + 1;
      if k' >= n && rest != [] then Spread(rest, n, k' - n) + " " + last else Spread(rest, n, k') + last
  }

  /** The spaced form of s. */
  function Spaced(s: string): string {
    Spread(s, |s|, Gaps(|s|) / 2)
  }

  // The error term after t characters and c spaces, for n characters in all.
  ghost predicate OnLine(n: nat, k: nat, t: nat, c: nat) {
    && t <= n
    && c <= Gaps(n)
    && n * c + k == Gaps(n) / 2 + t * (Gaps(n) + 1)
    && (t < n ==> k < n)
    && (t == n ==> c == Gaps(n))
  }

  lemma StartsOnLine(n: nat)
    ensures OnLine(n, Gaps(n) / 2, 0, 0)
  {
    assert n * 0 == 0;
  }

  // One more character keeps to the line: another space is due before the first character exactly when the error term
  // reaches n, and before the first character all spaces have been placed.
  lemma StepOnLine(n: nat, k: nat, t: nat, c: nat)
    requires OnLine(n, k, t, c) && t < n
    ensures var k' := k + Gaps(n) + 1;
            && (k' >= n && t + 1 < n ==> OnLine(n, k' - n, t + 1, c + 1))
            && (k' < n || t + 1 == n ==> OnLine(n, k', t + 1, c))
            && (k' >= n && t + 1 < n ==> c < Gaps(n))
            && (t + 1 == n ==> k' >= n && c == Gaps(n))
  {
    var g := Gaps(n);
    NextOnLine(n, g, k, t, c);
  }

  lemma NextOnLine(n: nat, g: nat, k: nat, t: nat, c: nat)
    requires t < n && c <= g < n && k < n && n * c + k == g / 2 + t * (g + 1)
    ensures n * (c + 1) == n * c + n && (t + 1) * (g + 1) == t * (g + 1) + g + 1
    ensures k + g + 1 >= n && t + 1 < n ==> c < g
    ensures t + 1 == n ==> k + g + 1 >= n && c == g
  {
    assert n * (g + 1) == n * g + n;
    if c == g {
      AtLeast(n - t, g + 1);
      assert (n - t) * (g + 1) == n * (g + 1) - t * (g + 1);
      if t + 1 < n {
        AtLeast(n - 1 - t, g + 1);
        assert (n - 1 - t) * (g + 1) == (n - t) * (g + 1) - (g + 1);
      }
    } else {
      AtLeast(g - c, n);
      assert n * (g - c) == n * g - n * c;
    }
  }

  // The number of spaces still to come, in front of what has been placed.
  lemma {:induction false} SpreadLength(s: string, n: nat, k: nat, c: nat)
    requires |s| <= n && OnLine(n, k, n - |s|, c)
    ensures |Spread(s, n, k)| == |s| + Gaps(n) - c
  {
    if s != [] {
      StepOnLine(n, k, n - |s|, c);
      var rest, k' := s[..|s| - 1], k + Gaps(n) + 1;
      hide OnLine;
      if k' >= n && rest != [] {
        SpreadLength(rest, n, k' - n, c + 1);
      } else {
        SpreadLength(rest, n, k', c);
      }
    }
  }

  /** Exactly Gaps spaces are added. */
  lemma SpacedLength(s: string)
    ensures |Spaced(s)| == |s| + Gaps(|s|)
  {
    StartsOnLine(|s|);
    SpreadLength(s, |s|, Gaps(|s|) / 2, 0);
  }

  // The spaces behind the last t of n characters: Bresenham's line of slope (Gaps + 1) / n.
  function Behind(n: nat, t: nat): int
    requires n > 0
  {
    (Gaps(n) / 2 + t * (Gaps(n) + 1)) / n
  }

  lemma OnLineBehind(n: nat, k: nat, t: nat, c: nat)
    requires OnLine(n, k, t, c) && t < n
    ensures c == Behind(n, t)
  {
    Divided(c, n, k);
    assert n * c + k == k + c * n;
  }

  lemma {:induction false} SpreadAt(s: string, n: nat, k: nat, c: nat, i: nat)
    requires i < |s| <= n && OnLine(n, k, n - |s|, c)
    ensures var at := i + Gaps(n) - Behind(n, n - 1 - i);
            0 <= at < |Spread(s, n, k)| && Spread(s, n, k)[at] == s[i]
  {
    hide OnLine, Spread, Behind, Gaps;
    SpreadLength(s, n, k, c);
    OnLineBehind(n, k, n - |s|, c);
    LastSpread(s, n, k);
    if i < |s| - 1 {
      StepOnLine(n, k, n - |s|, c);
      var rest, k' := s[..|s| - 1], k + Gaps(n) + 1;
      if k' >= n {
        SpreadAt(rest, n, k' - n, c + 1, i);
      } else {
        SpreadAt(rest, n, k', c, i);
      }
    }
  }

  lemma LastSpread(s: string, n: nat, k: nat)
    requires s != []
    ensures var rest, k', out := s[..|s| - 1], k + Gaps(n) + 1, Spread(s, n, k);
            && out != [] && out[|out| - 1] == s[|s| - 1]
            && (k' >= n && rest != [] ==> Spread(rest, n, k' - n) <= out)
            && (k' < n || rest == [] ==> Spread(rest, n, k') <= out)
  {
  }

  /** Where each character comes to stand. */
  lemma SpacedAt(s: string, i: nat)
    requires i < |s|
    ensures var n := |s|;
            var gaps := if n > 5 then (n - 1) / 4 else 0;
            var at := i + gaps - (gaps / 2 + (n - 1 - i) * (gaps + 1)) / n;
            0 <= at < |Spaced(s)| && Spaced(s)[at] == s[i]
  {
    StartsOnLine(|s|);
    SpreadAt(s, |s|, Gaps(|s|) / 2, 0, i);
  }

  ghost predicate NoSpaces(s: string) {
    forall i :: 0 <= i < |s| ==> s[i] != ' '
  }

  // s without its spaces.
  function Joined(s: string): (r: string)
    ensures |r| <= |s|
  {
    if s == [] then [] else Joined(s[..|s| - 1]) + if s[|s| - 1] == ' ' then [] else s[|s| - 1..]
  }

  lemma JoinedSnoc(s: string, x: char)
    ensures Joined(s + [x]) == Joined(s) + if x == ' ' then [] else [x]
  {
    assert (s + [x])[..|s|] == s;
  }

  lemma {:induction false} JoinedConcat(a: string, b: string)
    ensures Joined(a + b) == Joined(a) + Joined(b)
  {
    assert Joined([]) == [];
    hide Joined;
    if b == [] {
      assert a + b == a;
    } else {
      var rest, x := b[..|b| - 1], b[|b| - 1];
      assert b == rest + [x] && a + b == (a + rest) + [x];
      JoinedConcat(a, rest);
      JoinedSnoc(a + rest, x);
      JoinedSnoc(rest, x);
    }
  }

  lemma {:induction false} JoinedStays(s: string)
    requires NoSpaces(s)
    ensures Joined(s) == s
  {
    if s != [] {
      assert s == s[..|s| - 1] + s[|s| - 1..];
      JoinedStays(s[..|s| - 1]);
    }
  }

  lemma JoinedSpread(s: string, n: nat, k: nat)
    requires s != []
    ensures var rest, last, k' := s[..|s| - 1], s[|s| - 1..], k + Gaps(n) + 1;
            && (k' >= n && rest != [] ==> Joined(Spread(s, n, k)) == Joined(Spread(rest, n, k' - n)) + Joined(last))
            && (k' < n || rest == [] ==> Joined(Spread(s, n, k)) == Joined(Spread(rest, n, k')) + Joined(last))
            && Joined(s) == Joined(rest) + Joined(last)
  {
    var rest, last, k' := s[..|s| - 1], s[|s| - 1..], k + Gaps(n) + 1;
    assert Joined(" ") == "";
    hide Joined, Gaps;
    assert s == rest + last;
    JoinedConcat(rest, last);
    if k' >= n && rest != [] {
      var p := Spread(rest, n, k' - n);
      assert Spread(s, n, k) == p + " " + last;
      hide Spread;
      JoinedConcat(p, " ");
      JoinedConcat(p + " ", last);
    } else {
      var p := Spread(rest, n, k');
      assert Spread(s, n, k) == p + last;
      hide Spread;
      JoinedConcat(p, last);
    }
  }

  lemma {:induction false} SpreadJoined(s: string, n: nat, k: nat)
    ensures Joined(Spread(s, n, k)) == Joined(s)
  {
    hide Joined, Spread, Gaps;
    if s == [] {
      NothingSpread(n, k);
    } else {
      var rest, k' := s[..|s| - 1], k + Gaps(n) + 1;
      JoinedSpread(s, n, k);
      if k' >= n && rest != [] {
        SpreadJoined(rest, n, k' - n);
      } else {
        SpreadJoined(rest, n, k');
      }
    }
  }

  lemma NothingSpread(n: nat, k: nat)
    ensures Spread([], n, k) == []
  {
  }

  /** No character is lost, repeated or moved: only spaces come in. */
  lemma SpacedKeepsText(s: string)
    requires NoSpaces(s)
    ensures Joined(Spaced(s)) == s
  {
    SpreadJoined(s, |s|, Gaps(|s|) / 2);
    JoinedStays(s);
  }

  // The pieces of s between its spaces.
  function Words(s: string): (w: seq<string>)
    ensures |w| >= 1
  {
    if s == [] then [[]]
    else
      var w := Words(s[..|s| - 1]);
      if s[|s| - 1] == ' ' then w + [[]] else w[..|w| - 1] + [w[|w| - 1] + s[|s| - 1..]]
  }

  lemma {:induction false} WordsOfOne(b: string)
    requires NoSpaces(b)
    ensures Words(b) == [b]
  {
    if b != [] {
      var rest := b[..|b| - 1];
      assert b == rest + b[|b| - 1..];
      WordsOfOne(rest);
    }
  }

  lemma {:induction false} WordsAfterSpace(a: string, b: string)
    requires NoSpaces(b)
    ensures Words(a + " " + b) == Words(a) + [b]
  {
    var s := a + " " + b;
    if b == [] {
      assert s[..|s| - 1] == a;
    } else {
      var rest := b[..|b| - 1];
      assert s[..|s| - 1] == a + " " + rest && s[|s| - 1..] == b[|b| - 1..];
      assert b == rest + b[|b| - 1..];
      WordsAfterSpace(a, rest);
    }
  }

  // Groups of three or four.
  ghost predicate Even(w: seq<string>) {
    forall i :: 0 <= i < |w| ==> 3 <= |w[i]| <= 4
  }

  // The error term k leaves m characters after the last space.
  ghost predicate Since(n: nat, k: nat, m: nat) {
    var r := k - m * (Gaps(n) + 1);
    0 <= r <= Gaps(n)
  }

  lemma StepSince(n: nat, k: nat, m: nat)
    requires n > 5 && k < n && Since(n, k, m)
    ensures var k' := k + Gaps(n) + 1;
            && Since(n, k', m + 1)
            && (k' >= n ==> Since(n, k' - n, 0) && 3 <= m + 1 <= 4)
  {
    var g := Gaps(n);
    assert (m + 1) * (g + 1) == m * (g + 1) + g + 1;
    Multiples(m, g + 1);
  }

  lemma Multiples(m: nat, b: nat)
    ensures m <= 1 ==> m * b <= b
    ensures m >= 4 ==> m * b >= 4 * b
  {
    if m >= 4 {
      AtLeast(m - 3, b);
    }
  }

  // What is still to be placed makes even groups, the last of them together with tail.
  lemma {:induction false} SpreadGroups(s: string, n: nat, k: nat, c: nat, tail: string)
    requires n > 5 && 0 < |s| <= n && OnLine(n, k, n - |s|, c) && Since(n, k, |tail|)
    requires NoSpaces(s) && NoSpaces(tail)
    ensures Even(Words(Spread(s, n, k) + tail))
    decreases |s|
  {
    hide Spread, Words, NoSpaces;
    StepOnLine(n, k, n - |s|, c);
    StepSince(n, k, |tail|);
    hide OnLine, Since, Even, Gaps;
    StillNoSpaces(s, tail);
    SpreadStep(s, n, k, tail);
    var rest, k', more := s[..|s| - 1], k + Gaps(n) + 1, s[|s| - 1..] + tail;
    assert n - |rest| == n - |s| + 1 && |more| == |tail| + 1;
    if rest == [] {
      EvenAlone(more);
    } else if k' >= n {
      SpreadGroups(rest, n, k' - n, c + 1, "");
      EvenAfterSpace(Spread(rest, n, k' - n), more);
    } else {
      SpreadGroups(rest, n, k', c, more);
    }
  }

  lemma EvenAlone(x: string)
    requires NoSpaces(x) && 3 <= |x| <= 4
    ensures Even(Words(x))
  {
    WordsOfOne(x);
  }

  lemma EvenAfterSpace(p: string, x: string)
    requires Even(Words(p + "")) && NoSpaces(x) && 3 <= |x| <= 4
    ensures Even(Words(p + (" " + x)))
  {
    hide Words, NoSpaces;
    assert p + "" == p;
    WordsAfterSpace(p, x);
    assert p + " " + x == p + (" " + x);
  }

  lemma StillNoSpaces(s: string, tail: string)
    requires s != [] && NoSpaces(s) && NoSpaces(tail)
    ensures NoSpaces("") && NoSpaces(s[..|s| - 1]) && NoSpaces(s[|s| - 1..] + tail)
  {
    assert s == s[..|s| - 1] + s[|s| - 1..];
  }

  // One round of the loop, in front of what has been placed.
  lemma SpreadStep(s: string, n: nat, k: nat, placed: string)
    requires s != []
    ensures var rest, k', more := s[..|s| - 1], k + Gaps(n) + 1, s[|s| - 1..] + placed;
            Spread(s, n, k) + placed ==
            if rest == [] then more
            else if k' >= n then Spread(rest, n, k' - n) + (" " + more)
            else Spread(rest, n, k') + more
  {
  }

  /** More than five characters come in groups of three or four. */
  lemma SpacedGroups(s: string)
    requires |s| > 5 && NoSpaces(s)
    ensures Even(Words(Spaced(s)))
  {
    StartsOnLine(|s|);
    SpreadGroups(s, |s|, Gaps(|s|) / 2, 0, "");
    assert Spaced(s) + "" == Spaced(s);
  }

  /** Up to five characters stay together. */
  lemma {:induction false} ShortStays(s: string)
    requires |s| <= 5
    ensures Spaced(s) == s
  {
    ShortSpread(s, |s|);
  }

  lemma {:induction false} ShortSpread(s: string, n: nat)
    requires |s| <= n <= 5
    ensures Spread(s, n, n - |s|) == s
  {
    if s != [] {
      ShortSpread(s[..|s| - 1], n);
      ShortStep(s, n);
    } else {
      assert Spread([], n, n) == [];
    }
    hide *;
  }

  lemma ShortStep(s: string, n: nat)
    requires 0 < |s| <= n <= 5
    ensures Spread(s, n, n - |s|) == Spread(s[..|s| - 1], n, n - |s| + 1) + s[|s| - 1..]
    ensures s == s[..|s| - 1] + s[|s| - 1..]
  {
  }

  method Put(buf: array<char>, j: nat, c: char, ghost pwlen: nat)
    requires j < pwlen <= buf.Length
    modifies buf
    ensures buf[j..pwlen] == [c] + old(buf[j + 1..pwlen])
    ensures buf[..j] == old(buf[..j]) && buf[pwlen..] == old(buf[pwlen..])
  {
    buf[j] := c;
  }

  // What the loop keeps: the characters up to i are still to be moved, those from j + 1 on are in place, c spaces among
  // them.
  ghost predicate Half(b: string, s: string, pwlen: nat, i: int, j: int, k: int, c: nat) {
    var n := |s|;
    && n + Gaps(n) == pwlen <= |b|
    && -1 <= i < n && i <= j < pwlen && 0 <= k
    && OnLine(n, k, n - 1 - i, c) && j == i + Gaps(n) - c
    && b[..i + 1] == s[..i + 1]
    && Spread(s[..i + 1], n, k) + b[j + 1..pwlen] == Spaced(s)
  }

  lemma Moved(b: string, b': string, s: string, pwlen: nat, i: nat, j: nat, k: nat, c: nat)
    requires Half(b, s, pwlen, i, j, k, c)
    requires |b'| == |b| && b'[..j] == b[..j] && b'[j..pwlen] == [b[i]] + b[j + 1..pwlen]
    ensures var n := |s|; var k' := k + Gaps(n) + 1;
            if k' >= n && j > 1 then
              && 1 <= i < j
              && OnLine(n, k' - n, n - i, c + 1)
              && Spread(s[..i], n, k' - n) + (" " + b'[j..pwlen]) == Spaced(s)
              && b'[..i] == s[..i]
            else Half(b', s, pwlen, i - 1, j - 1, k', c)
  {
    var n, rest := |s|, s[..i + 1];
    StepOnLine(n, k, n - 1 - i, c);
    SpreadStep(rest, n, k, b[j + 1..pwlen]);
    hide OnLine, Spread, Spaced, Gaps;
    assert rest[..i] == s[..i] && rest[i..] == [s[i]];
    SameFront(b, b', s, i, j);
  }

  lemma SameFront(b: string, b': string, s: string, i: nat, j: nat)
    requires i <= j <= |b| == |b'| && i < |s| && i < |b| && b'[..j] == b[..j] && b[..i + 1] == s[..i + 1]
    ensures b[i] == s[i] && b'[..i] == s[..i]
  {
    assert b[i] == b[..i + 1][i];
    assert b'[..i] == b'[..j][..i] && b[..j][..i] == b[..i + 1][..i];
  }

  lemma Parted(b: string, b': string, s: string, pwlen: nat, i: nat, j: nat, k: nat, c: nat)
    requires |s| + Gaps(|s|) == pwlen <= |b| == |b'| && i < |s|
    requires 1 <= i < j < pwlen && j == i + Gaps(|s|) - c && OnLine(|s|, k, |s| - i, c + 1)
    requires Spread(s[..i], |s|, k) + (" " + b[j..pwlen]) == Spaced(s) && b[..i] == s[..i]
    requires b'[..j - 1] == b[..j - 1] && b'[j - 1..pwlen] == " " + b[j..pwlen]
    ensures Half(b', s, pwlen, i - 1, j - 2, k, c + 1)
  {
    hide OnLine, Spread, Spaced, Gaps;
    assert b'[..i] == b'[..j - 1][..i] && b[..i] == b[..j - 1][..i];
  }

  lemma HalfAtStart(b: string, s: string, pwlen: nat)
    requires |s| + Gaps(|s|) == pwlen <= |b| && b[..|s|] == s
    ensures Half(b, s, pwlen, |s| - 1, pwlen - 1, Gaps(|s|) / 2, 0)
  {
    StartsOnLine(|s|);
    assert s[..|s|] == s && b[pwlen..pwlen] == [];
    hide Spread;
  }

  lemma HalfAtEnd(b: string, s: string, pwlen: nat, i: int, j: int, k: int, c: nat)
    requires Half(b, s, pwlen, i, j, k, c) && (i < 0 || j < 0)
    ensures b[..pwlen] == Spaced(s)
  {
    assert i == j == -1 && s[..0] == [];
  }

  // One round: move a character, and put a space before it when one is due.
  method Round(buf: array<char>, ghost s: string, pwchars: nat, pwlen: nat, i: nat, j: nat, k: nat, ghost c: nat)
    returns (j': int, k': int, ghost c': nat)
    requires |s| == pwchars <= pwlen <= buf.Length && Half(buf[..], s, pwlen, i, j, k, c)
    modifies buf
    ensures -1 <= i - 1 <= j' && 0 <= k' && Half(buf[..], s, pwlen, i - 1, j', k', c')
            && buf[pwlen..] == old(buf[pwlen..])
  {
    hide OnLine, Spread, Spaced, Gaps;
    ghost var b := buf[..];
    Put(buf, j, buf[i], pwlen);
    Moved(b, buf[..], s, pwlen, i, j, k, c);
    j', k', c' := j - 1, k + (pwlen - pwchars + 1), c;
    if k' >= pwchars && j' > 0 {
      b := buf[..];
      Put(buf, j', ' ', pwlen);
      j', k' := j' - 1, k' - pwchars;
      Parted(b, buf[..], s, pwlen, i, j, k', c);
      c' := c + 1;
    }
  }

  /** The loop of make_passwd that shifts the first pwchars characters of buf apart, over themselves. */
  method Space(buf: array<char>, pwchars: nat, pwlen: nat)
    requires pwlen == pwchars + Gaps(pwchars) <= buf.Length
    modifies buf
    ensures buf[..pwlen] == Spaced(old(buf[..pwchars])) && buf[pwlen..] == old(buf[pwlen..])
  {
    ghost var s := buf[..pwchars];
    ghost var c := 0;
    var i, j, k := pwchars - 1, pwlen - 1, (pwlen - pwchars) / 2;
    HalfAtStart(buf[..], s, pwlen);
    hide *;
    while i >= 0 && j >= 0
      invariant -1 <= i && i <= j && 0 <= k && Half(buf[..], s, pwlen, i, j, k, c) && buf[pwlen..] == old(buf[pwlen..])
    {
      j, k, c := Round(buf, s, pwchars, pwlen, i, j, k, c);
      i := i - 1;
    }
    HalfAtEnd(buf[..], s, pwlen, i, j, k, c);
  }
}
