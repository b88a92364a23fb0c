/** Cleaning up a password as it is typed (otpw-gen.c): pwnorm. */
module OtpNormal {

  // What is left of one character: confusable ones are unified, unknown ones dropped.
  function NormChar(c: char): (r: string)
    ensures |r| <= 1
  {
    if c == 'l' || c == '1' || c == '|' then "I"
    else if c == '0' then "O"
    else if c == '\\' then "/"
    else if 'A' <= c <= 'Z' || 'a' <= c <= 'z' || '2' <= c <= '9' || c in ":%=+/" then [c]
    else ""
  }

  function Normalize(s: string): (r: string)
    ensures |r| <= |s|
  {
    if s == [] then [] else Normalize(s[..|s| - 1]) + NormChar(s[|s| - 1])
  }

  lemma {:induction false} NormalizeConcat(a: string, b: string)
    ensures Normalize(a + b) == Normalize(a) + Normalize(b)
  {
    EmptyStays(a);
    hide *;
    if b == [] {
    } else {
      var c, x := b[..|b| - 1], b[|b| - 1];
      NormalizeConcat(a, c);
      SplitLast(a, b);
      NormalizeNext(a + c, x);
      NormalizeNext(c, x);
      Regroup(Normalize(a), Normalize(c), NormChar(x));
    }
  }

  lemma EmptyStays(a: string)
    ensures a + [] == a && Normalize(a) + Normalize([]) == Normalize(a)
  {
    hide NormChar;
    assert Normalize([]) == [];
  }

  lemma SplitLast(a: string, b: string)
    requires b != []
    ensures var c, x := b[..|b| - 1], b[|b| - 1];
            b == c + [x] && a + b == (a + c) + [x]
  {
  }

  lemma Regroup(a: string, b: string, c: string)
    ensures (a + b) + c == a + (b + c)
  {
  }

  lemma NormalizeNext(a: string, x: char)
    ensures Normalize(a + [x]) == Normalize(a) + NormChar(x)
  {
    assert (a + [x])[..|a|] == a;
  }

  // Strings that pwnorm leaves as they are.
  ghost predicate Clean(s: string) {
    forall i :: 0 <= i < |s| ==> NormChar(s[i]) == [s[i]]
  }

  lemma {:induction false} CleanStays(s: string)
    requires Clean(s)
    ensures Normalize(s) == s
  {
    hide NormChar;
    if s != [] {
      var c := s[..|s| - 1];
      CleanStays(c);
      assert s == c + [s[|s| - 1]];
    }
  }

  lemma {:induction false} FixedIsClean(s: string)
    requires Normalize(s) == s
    ensures Clean(s)
  {
    hide NormChar;
    if s != [] {
      var c, x := s[..|s| - 1], s[|s| - 1];
      assert Normalize(c) == Normalize(s)[..|Normalize(c)|];
      assert Normalize(c) == c && NormChar(x) == [x];
      FixedIsClean(c);
    }
  }

  /** Normalizing gives a clean string, so doing it twice changes nothing. */
  lemma {:induction false} NormalizeIsClean(s: string)
    ensures Clean(Normalize(s))
  {
    if s != [] {
      NormalizeIsClean(s[..|s| - 1]);
      NormCharIsClean(s[|s| - 1]);
      hide NormChar;
    }
  }

  lemma NormCharIsClean(c: char)
    ensures Clean(NormChar(c))
  {
  }

  lemma NormalizeIsIdempotent(s: string)
    ensures Normalize(Normalize(s)) == Normalize(s)
  {
    NormalizeIsClean(s);
    CleanStays(Normalize(s));
  }

  // The loop of pwnorm: text[..src] stands in normal form in front of dst, the rest is as it was.
  ghost predicate Halfway(now: string, was: string, n: nat, src: nat, dst: nat) {
    && dst <= src <= n < |now| == |was|
    && now[..dst] == Normalize(was[..src]) && now[dst..] == was[dst..]
  }

  lemma NextChar(now: string, was: string, n: nat, src: nat, dst: nat, now': string, dst': nat)
    requires Halfway(now, was, n, src, dst) && src < n && |now'| == |now|
    requires dst' == dst + |NormChar(now[src])|
    requires now'[..dst'] == now[..dst] + NormChar(now[src])
    requires now'[dst + 1..] == now[dst + 1..] && (dst' == dst ==> now' == now)
    ensures Halfway(now', was, n, src + 1, dst')
  {
    hide Normalize, NormChar;
    NormalizeNext(was[..src], was[src]);
    CharAt(now, was, n, src, dst);
    Further(now, was, dst, dst + 1);
    SplitLast("", was[..src + 1]);
    assert was[..src + 1][..src] == was[..src];
    assert now'[..dst'] == Normalize(was[..src + 1]);
    assert now'[dst'..] == was[dst'..];
  }

  lemma Further(a: string, b: string, d: nat, e: nat)
    requires d <= e <= |a| == |b| && a[d..] == b[d..]
    ensures a[e..] == b[e..]
  {
    assert a[d..][e - d..] == a[e..] && b[d..][e - d..] == b[e..];
  }

  lemma CharAt(now: string, was: string, n: nat, src: nat, dst: nat)
    requires Halfway(now, was, n, src, dst)
    ensures now[src] == was[src]
  {
    assert now[dst..][src - dst] == was[dst..][src - dst];
  }

  lemma Finished(now: string, was: string, n: nat, dst: nat, now': string)
    requires Halfway(now, was, n, n, dst) && |now'| == |now|
    requires now'[..dst] == now[..dst] && now'[dst] == '\0' && now'[dst + 1..] == now[dst + 1..]
    ensures var r := Normalize(was[..n]);
            |r| == dst && now'[..dst] == r && now'[dst] == '\0' && now'[dst + 1..] == was[dst + 1..]
  {
    hide Normalize;
    Further(now, was, dst, dst + 1);
  }

  // The branches on one character.
  method StoreNormal(password: array<char>, dst: nat, c: char) returns (next: nat, atEnd: bool)
    requires dst < password.Length
    modifies password
    ensures atEnd <==> c == '\0'
    ensures next == dst + |NormChar(c)| && password[..next] == old(password[..])[..dst] + NormChar(c)
    ensures atEnd ==> next == dst && password[dst] == '\0' && password[..dst] == old(password[..])[..dst]
    ensures next == dst && !atEnd ==> password[..] == old(password[..])
    ensures password[dst + 1..] == old(password[..])[dst + 1..]
  {
    next, atEnd := dst, false;
    if c == 'l' || c == '1' || c == '|' {
      password[dst] := 'I';
      next := dst + 1;
    } else if c == '0' {
      password[dst] := 'O';
      next := dst + 1;
    } else if c == '\\' {
      password[dst] := '/';
      next := dst + 1;
    } else if 'A' <= c <= 'Z' || 'a' <= c <= 'z' || '2' <= c <= '9'
              || c == ':' || c == '%' || c == '=' || c == '+' || c == '/' {
      password[dst] := c;
      next := dst + 1;
    } else if c == '\0' {
      password[dst] := c;
      atEnd := true;
    }
  }

  /** pwnorm: in place on a NUL-terminated string of n characters, without passing over its end. */
  method PwNorm(password: array<char>, ghost n: nat)
    requires n < password.Length && password[n] == '\0'
    requires forall k :: 0 <= k < n ==> password[k] != '\0'
    modifies password
    ensures var r := Normalize(old(password[..n]));
            password[..|r|] == r && password[|r|] == '\0' && password[|r| + 1..] == old(password[|r| + 1..])
  {
    ghost var was := password[..];
    var src, dst := 0, 0;
    assert was[..0] == "" && was[..n] == password[..n];
    while true
      invariant 0 <= dst <= src <= n < |was| && Halfway(password[..], was, n, src, dst)
      decreases n - src
    {
      ghost var now := password[..];
      CharAt(now, was, n, src, dst);
      hide *;
      var next, atEnd := StoreNormal(password, dst, password[src]);
      if atEnd {
        Finished(now, was, n, dst, password[..]);
        return;
      }
      NextChar(now, was, n, src, dst, password[..], next);
      src, dst := src + 1, next;
    }
  }

  // The glyphs of one and the same character, and the backslash, which is easily typed for the slash.
  predicate Alike(c: char, d: char) {
    c == d || (c in "Il1|" && d in "Il1|") || (c in "O0" && d in "O0") || (c in "/\\" && d in "/\\")
  }

  // The characters that matter in a password; all others are ignored.
  predicate Counts(c: char) {
    'A' <= c <= 'Z' || 'a' <= c <= 'z' || '0' <= c <= '9' || c in ":%=+/|\\"
  }

  function Counting(s: string): string {
    if s == [] then [] else Counting(s[..|s| - 1]) + if Counts(s[|s| - 1]) then [s[|s| - 1]] else []
  }

  lemma CharIsNormal(c: char)
    ensures NormChar(c) == [c] <==> Counts(c) && c !in "l1|0\\"
    ensures |NormChar(c)| == if Counts(c) then 1 else 0
    ensures Counts(c) ==> Alike(c, NormChar(c)[0]) && NormChar(NormChar(c)[0]) == NormChar(c)
  {
  }

  lemma CharsNormalAlike(c: char, d: char)
    requires Counts(c) && Counts(d)
    ensures NormChar(c) == NormChar(d) <==> Alike(c, d)
  {
  }

  /** The strings that stay as they are: those of characters that count, without l, 1, |, 0 and the backslash. */
  lemma CleanIff(s: string)
    ensures Clean(s) <==> forall i | 0 <= i < |s| :: Counts(s[i]) && s[i] !in "l1|0\\"
  {
    forall i | 0 <= i < |s|
      ensures NormChar(s[i]) == [s[i]] <==> Counts(s[i]) && s[i] !in "l1|0\\"
    {
      CharIsNormal(s[i]);
    }
    hide NormChar, Counts;
  }

  ghost predicate AllAlike(a: string, b: string) {
    |a| == |b| && forall i | 0 <= i < |a| :: Alike(a[i], b[i])
  }

  lemma {:induction false} NormalizeCounting(s: string)
    ensures Normalize(s) == Normalize(Counting(s)) && |Normalize(s)| == |Counting(s)|
    ensures forall i | 0 <= i < |Counting(s)| :: Counts(Counting(s)[i])
  {
    hide *;
    NothingCounts();
    if s != [] {
      var c, x := s[..|s| - 1], s[|s| - 1];
      NormalizeCounting(c);
      CharIsNormal(x);
      CountingNext(s);
      SplitLast("", s);
      NormalizeNext(c, x);
      NormalizeNext(Counting(c), x);
      assert Counts(x) ==> forall i | 0 <= i < |Counting(s)| ::
          Counting(s)[i] == if i < |Counting(c)| then Counting(c)[i] else x;
      assert NormChar(x) == [] ==> Normalize(c) + NormChar(x) == Normalize(c);
    }
  }

  lemma NothingCounts()
    ensures Counting([]) == []
  {
  }

  lemma CountingNext(s: string)
    requires s != []
    ensures Counting(s) == if Counts(s[|s| - 1]) then Counting(s[..|s| - 1]) + [s[|s| - 1]] else Counting(s[..|s| - 1])
  {
    hide Counts;
  }

  lemma {:induction false} CountingAlike(a: string, b: string)
    requires forall i | 0 <= i < |a| :: Counts(a[i])
    requires forall i | 0 <= i < |b| :: Counts(b[i])
    ensures |Normalize(a)| == |a| && (Normalize(a) == Normalize(b) <==> AllAlike(a, b))
  {
    AllCount(a);
    AllCount(b);
    if a != [] && |a| == |b| {
      var c, d, x, y := a[..|a| - 1], b[..|b| - 1], a[|a| - 1], b[|b| - 1];
      CountingAlike(c, d);
      CharIsNormal(x);
      CharIsNormal(y);
      CharsNormalAlike(x, y);
      hide Alike, NormChar, Counts;
      LastAlike(a, b);
      SameEnds(Normalize(c), Normalize(d), NormChar(x), NormChar(y));
    } else {
      assert a == [] && |b| == 0 ==> a == b;
    }
    hide NormChar, Counts, Alike;
  }

  lemma {:induction false} AllCount(s: string)
    requires forall i | 0 <= i < |s| :: Counts(s[i])
    ensures |Normalize(s)| == |s|
  {
    if s != [] {
      AllCount(s[..|s| - 1]);
      CharIsNormal(s[|s| - 1]);
      hide NormChar, Counts;
    }
  }

  lemma LastAlike(a: string, b: string)
    requires |a| == |b| > 0
    ensures AllAlike(a, b) <==> AllAlike(a[..|a| - 1], b[..|b| - 1]) && Alike(a[|a| - 1], b[|b| - 1])
  {
    hide Alike;
    if AllAlike(a[..|a| - 1], b[..|b| - 1]) {
      forall i | 0 <= i < |a| - 1
        ensures Alike(a[i], b[i])
      {
        assert Alike(a[..|a| - 1][i], b[..|b| - 1][i]);
      }
    }
  }

  lemma SameEnds(a: string, b: string, x: string, y: string)
    requires |x| == |y|
    ensures a + x == b + y <==> a == b && x == y
  {
    if a + x == b + y {
      assert a == (a + x)[..|a|] && b == (b + y)[..|b|] && x == (a + x)[|a|..] && y == (b + y)[|b|..];
    }
  }

  /** Which strings are taken for the same password: those whose characters that count are alike one by one. */
  lemma NormalizeAlikeIff(a: string, b: string)
    ensures Normalize(a) == Normalize(b) <==> AllAlike(Counting(a), Counting(b))
  {
    NormalizeCounting(a);
    NormalizeCounting(b);
    CountingAlike(Counting(a), Counting(b));
  }
}
