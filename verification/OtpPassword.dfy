/** From random bytes to a printed password and to what is hashed of it (otpw-gen.c): make_passwd. */
module OtpPassword {
  import opened Basics
  import opened OtpEncoding
  import opened OtpNormal
  import opened OtpSpacer

  const PW_BASE64 := 0
  const PW_WORD4 := 1
  const PW_BASE32 := 2

  predicate KnownType(pwType: int) {
    pwType == PW_BASE64 || pwType == PW_WORD4 || pwType == PW_BASE32
  }

  // The number of bits per printed unit, which is a character or a word.
  function UnitBits(pwType: int): nat {
    if pwType == PW_BASE32 then 5 else if pwType == PW_BASE64 then 6 else 11
  }

  // The number of units for at least entropy bits.
  function Units(pwType: int, entropy: nat): nat {
    (entropy + UnitBits(pwType) - 1) / UnitBits(pwType)
  }

  function PwChars(pwType: int, entropy: nat): nat {
    if pwType == PW_WORD4 then 4 * Units(pwType, entropy) else Units(pwType, entropy)
  }

  function PwLen(pwType: int, entropy: nat): nat {
    var chars := PwChars(pwType, entropy);
    if pwType == PW_WORD4 then chars + chars / 4 - (if chars > 0 then 1 else 0) else chars + Gaps(chars)
  }

  function UsedEntropy(pwType: int, entropy: nat): nat {
    UnitBits(pwType) * Units(pwType, entropy)
  }

  function MaxEntropy(pwType: int, vlen: nat): nat {
    vlen * 8 / UnitBits(pwType) * UnitBits(pwType)
  }

  /** At least the requested entropy is used, and a request is within the input exactly when it is at most
      MaxEntropy. */
  lemma EntropyFits(pwType: int, entropy: nat, vlen: nat)
    ensures entropy <= UsedEntropy(pwType, entropy) < entropy + UnitBits(pwType)
    ensures UsedEntropy(pwType, entropy) <= vlen * 8 <==> entropy <= MaxEntropy(pwType, vlen)
  {
    RoundUpDown(entropy, vlen * 8, UnitBits(pwType));
  }

  lemma RoundUpDown(e: nat, m: nat, b: nat)
    requires b > 0
    ensures e <= b * ((e + b - 1) / b) < e + b
    ensures b * ((e + b - 1) / b) <= m <==> e <= m / b * b
  {
    var up, down := (e + b - 1) / b, m / b;
    assert b * up == e + b - 1 - (e + b - 1) % b;
    assert b * down == m - m % b;
    if up <= down {
      assert b * (down - up) >= 0;
      assert b * (down - up) == b * down - b * up;
    } else {
      AtLeast(up - down, b);
      assert b * (up - down) == b * up - b * down;
    }
  }

  /** The result of make_passwd, for vlen input bytes. */
  function Outcome(vlen: nat, pwType: int, entropy: nat, noBuffer: bool, buflen: int): int {
    if !KnownType(pwType) then -1
    else if noBuffer then
      if buflen == 0 then PwLen(pwType, entropy)
      else if buflen == 1 then PwChars(pwType, entropy)
      else if buflen == 2 then UsedEntropy(pwType, entropy)
      else if buflen == 3 then MaxEntropy(pwType, vlen)
      else -2
    else if UsedEntropy(pwType, entropy) > vlen * 8 then -3
    else if PwLen(pwType, entropy) >= buflen then -4
    else PwLen(pwType, entropy)
  }

  // The input bits of v in the order in which words are chosen: lowest bit of each byte first.
  function LowFirst(v: seq<Byte>): (s: seq<bool>)
    ensures |s| == 8 * |v|
  {
    seq(8 * |v|, j requires 0 <= j < 8 * |v| => Shift(v[j / 8], j % 8) % 2 == 1)
  }

  function InputBits(pwType: int, v: seq<Byte>): (s: seq<bool>)
    ensures |s| == 8 * |v|
  {
    if pwType == PW_WORD4 then LowFirst(v) else BitString(v)
  }

  // The word table: a different four-letter word for each eleven-bit number.
  ghost predicate WordTable(words: seq<string>) {
    && |words| == 2048
    && (forall i :: 0 <= i < |words| ==> |words[i]| == 4 && Lower(words[i]))
    && (forall i, j :: 0 <= i < j < |words| ==> words[i] != words[j])
  }

  ghost predicate Lower(s: string) {
    forall i :: 0 <= i < |s| ==> 'a' <= s[i] <= 'z'
  }

  lemma Pow2Of11()
    ensures Pow2(11) == 2048
  {
    SmallPowers();
    Pow2Sum(3, 8);
  }

  function Word(words: seq<string>, d: nat): string {
    if d < |words| then words[d] else []
  }

  // The first n words, each followed by a space.
  function WordList(words: seq<string>, s: seq<bool>, n: nat): string
    requires 11 * n <= |s|
  {
    if n == 0 then [] else WordList(words, s, n - 1) + Word(words, Digit(s, 11, n - 1)) + " "
  }

  lemma WordIsWord(words: seq<string>, s: seq<bool>, i: nat)
    requires WordTable(words) && 11 * i + 11 <= |s|
    ensures Digit(s, 11, i) < |words| && |Word(words, Digit(s, 11, i))| == 4 && Lower(Word(words, Digit(s, 11, i)))
  {
    Pow2Of11();
  }

  lemma {:induction false} WordListLength(words: seq<string>, s: seq<bool>, n: nat)
    requires WordTable(words) && 11 * n <= |s|
    ensures |WordList(words, s, n)| == 5 * n
  {
    hide *;
    EmptyWordList(words, s);
    if n > 0 {
      WordListLength(words, s, n - 1);
      WordIsWord(words, s, n - 1);
      WordListNext(words, s, n);
    }
  }

  lemma EmptyWordList(words: seq<string>, s: seq<bool>)
    ensures WordList(words, s, 0) == []
  {
  }

  lemma WordListNext(words: seq<string>, s: seq<bool>, n: nat)
    requires 0 < n && 11 * n <= |s|
    ensures |WordList(words, s, n)| == |WordList(words, s, n - 1)| + |Word(words, Digit(s, 11, n - 1))| + 1
  {
    hide Word, Digit;
  }

  /** The password for the input bits s. */
  function Password(words: seq<string>, pwType: int, s: seq<bool>, entropy: nat): (p: string)
    requires KnownType(pwType) && WordTable(words) && UsedEntropy(pwType, entropy) <= |s|
  {
    var n := Units(pwType, entropy);
    if pwType != PW_WORD4 then Spaced(Encode(s, UnitBits(pwType), n))
    else if n == 0 then [] else
      WordListLength(words, s, n);
      WordList(words, s, n)[..5 * n - 1]
  }

  /** Its length, spaces included, is PwLen. */
  lemma PasswordLength(words: seq<string>, pwType: int, s: seq<bool>, entropy: nat)
    requires KnownType(pwType) && WordTable(words) && UsedEntropy(pwType, entropy) <= |s|
    ensures |Password(words, pwType, s, entropy)| == PwLen(pwType, entropy)
  {
    if pwType != PW_WORD4 {
      SpacedLength(Encode(s, UnitBits(pwType), Units(pwType, entropy)));
    } else {
      WordListLength(words, s, Units(pwType, entropy));
    }
  }

  // Characters of the tables are left alone.
  lemma TabIsClean(width: nat, d: nat)
    requires (width == 5 || width == 6) && d < Pow2(width)
    ensures NormChar(Tab(width, d)) == [Tab(width, d)] && Tab(width, d) != ' '
  {
    SmallPowers();
  }

  lemma {:induction false} EncodeIsClean(s: seq<bool>, width: nat, n: nat)
    requires (width == 5 || width == 6) && width * n <= |s|
    ensures Clean(Encode(s, width, n)) && NoSpaces(Encode(s, width, n))
  {
    hide Tab, NormChar, Digit;
    if n > 0 {
      NextDigit(width, n - 1);
      EncodeIsClean(s, width, n - 1);
      TabIsClean(width, Digit(s, width, n - 1));
    }
  }

  lemma NormalizeSnoc(s: string, x: char)
    ensures Normalize(s + [x]) == Normalize(s) + NormChar(x)
  {
    assert (s + [x])[..|s|] == s;
  }

  // Spaces do not matter.
  lemma {:induction false} NormalizeJoined(s: string)
    ensures Normalize(Joined(s)) == Normalize(s)
  {
    if s != [] {
      var rest, x := s[..|s| - 1], s[|s| - 1];
      assert s == rest + [x] && NormChar(' ') == [];
      hide Normalize, NormChar, Joined;
      NormalizeJoined(rest);
      JoinedSnoc(rest, x);
      NormalizeSnoc(rest, x);
      if x == ' ' {
        assert Joined(rest) + [] == Joined(rest) && Normalize(rest) + [] == Normalize(rest);
      } else {
        NormalizeSnoc(Joined(rest), x);
      }
    }
  }

  /** pwnorm gives back the unspaced encoding: as many characters as PwChars says, none of them changed. */
  lemma NormalizedPassword(words: seq<string>, pwType: int, s: seq<bool>, entropy: nat)
    requires KnownType(pwType) && pwType != PW_WORD4
    requires WordTable(words) && UsedEntropy(pwType, entropy) <= |s|
    ensures Normalize(Password(words, pwType, s, entropy)) == Encode(s, UnitBits(pwType), Units(pwType, entropy))
  {
    var e := Encode(s, UnitBits(pwType), Units(pwType, entropy));
    EncodeIsClean(s, UnitBits(pwType), Units(pwType, entropy));
    hide Clean, NoSpaces, Normalize, Joined, Spaced, Encode, WordTable;
    NormalizeJoined(Spaced(e));
    SpacedKeepsText(e);
    CleanStays(e);
  }

  // Words lose no letter, and stay different words.
  lemma {:induction false} NormalizeLower(a: string, b: string)
    requires Lower(a) && Lower(b) && |a| == |b|
    ensures |Normalize(a)| == |Normalize(b)| == |a| && (Normalize(a) == Normalize(b) <==> a == b)
  {
    if a != [] {
      var n := |a| - 1;
      var c, d := a[..n], b[..n];
      assert a == c + [a[n]] && b == d + [b[n]];
      NormalizeLower(c, d);
      LowerLetter(a[n]);
      LowerLetter(b[n]);
      hide NormChar, Normalize, Lower;
      NormalizeSnoc(c, a[n]);
      NormalizeSnoc(d, b[n]);
      var x, y := NormChar(a[n])[0], NormChar(b[n])[0];
      AppendInjective(Normalize(c), x, Normalize(d), y);
      AppendInjective(c, a[n], d, b[n]);
    }
  }

  lemma LowerLetter(c: char)
    requires 'a' <= c <= 'z'
    ensures NormChar(c) == [if c == 'l' then 'I' else c]
  {
  }

  lemma WordDeterminesDigit(words: seq<string>, s: seq<bool>, t: seq<bool>, i: nat)
    requires WordTable(words) && 11 * i + 11 <= |s| && 11 * i + 11 <= |t|
    ensures var d, e := Digit(s, 11, i), Digit(t, 11, i);
            && |Normalize(Word(words, d))| == |Normalize(Word(words, e))| == 4
            && (Normalize(Word(words, d)) == Normalize(Word(words, e)) <==> d == e)
  {
    hide Normalize, Digit;
    WordIsWord(words, s, i);
    WordIsWord(words, t, i);
    NormalizeLower(Word(words, Digit(s, 11, i)), Word(words, Digit(t, 11, i)));
  }

  lemma NormalizeWordList(words: seq<string>, s: seq<bool>, n: nat)
    requires 0 < n && 11 * n <= |s|
    ensures 11 * (n - 1) + 11 <= |s|
    ensures Normalize(WordList(words, s, n))
         == Normalize(WordList(words, s, n - 1)) + Normalize(Word(words, Digit(s, 11, n - 1)))
  {
    var p, w := WordList(words, s, n - 1), Word(words, Digit(s, 11, n - 1));
    assert WordList(words, s, n) == (p + w) + " ";
    hide Normalize, WordList, Word, Digit;
    NormalizeConcat(p, w);
    NormalizeSpace(p + w);
  }

  lemma NormalizeSpace(s: string)
    ensures Normalize(s + " ") == Normalize(s)
  {
    OnlySpace();
    hide Normalize;
    NormalizeConcat(s, " ");
  }

  lemma OnlySpace()
    ensures Normalize(" ") == ""
  {
  }

  lemma LastSpace(words: seq<string>, s: seq<bool>, n: nat)
    requires WordTable(words) && 0 < n && 11 * n <= |s| && 5 * n == |WordList(words, s, n)|
    ensures Normalize(WordList(words, s, n)[..5 * n - 1]) == Normalize(WordList(words, s, n))
  {
    var p := WordList(words, s, n - 1) + Word(words, Digit(s, 11, n - 1));
    assert WordList(words, s, n) == p + " ";
    hide WordTable, Normalize, WordList, Word, Digit;
    assert (p + " ")[..|p|] == p;
    NormalizeSpace(p);
  }

  lemma {:induction false} NormalizedWordListLength(words: seq<string>, s: seq<bool>, n: nat)
    requires WordTable(words) && 11 * n <= |s|
    ensures |Normalize(WordList(words, s, n))| == 4 * n
  {
    hide WordTable, Normalize, Digit, Word;
    if n == 0 {
      assert Normalize([]) == [] by {
        EmptyNormal();
      }
    } else {
      NormalizedWordListLength(words, s, n - 1);
      NormalizeWordList(words, s, n);
      WordDeterminesDigit(words, s, s, n - 1);
      hide WordList;
    }
  }

  lemma EmptyNormal()
    ensures Normalize([]) == []
  {
  }

  lemma {:induction false} WordsDetermineDigits(words: seq<string>, s: seq<bool>, t: seq<bool>, n: nat)
    requires WordTable(words) && 11 * n <= |s| && 11 * n <= |t|
    ensures Normalize(WordList(words, s, n)) == Normalize(WordList(words, t, n))
            <==> Digits(s, 11, n) == Digits(t, 11, n)
  {
    hide *;
    if n == 0 {
      NoWords(words, s, t);
    } else {
      DigitsNext(s, 11, n);
      DigitsNext(t, 11, n);
      WordsDetermineDigits(words, s, t, n - 1);
      NormalizeWordList(words, s, n);
      NormalizeWordList(words, t, n);
      WordDeterminesDigit(words, s, t, n - 1);
      var d, e := Digit(s, 11, n - 1), Digit(t, 11, n - 1);
      SameStep(Normalize(WordList(words, s, n - 1)), Normalize(Word(words, d)),
               Normalize(WordList(words, t, n - 1)), Normalize(Word(words, e)),
               Digits(s, 11, n - 1), d, Digits(t, 11, n - 1), e);
    }
  }

  lemma SameStep(a: string, b: string, c: string, d: string, xs: seq<nat>, x: nat, ys: seq<nat>, y: nat)
    requires |b| == |d| && |xs| == |ys| && (a == c <==> xs == ys) && (b == d <==> x == y)
    ensures a + b == c + d <==> xs + [x] == ys + [y]
  {
    ConcatInjective(a, b, c, d);
    AppendInjective(xs, x, ys, y);
  }

  /** What is hashed of a password has PwChars characters and carries exactly the first UsedEntropy bits of the
      input. */
  lemma PasswordCarriesBits(words: seq<string>, pwType: int, s: seq<bool>, t: seq<bool>, entropy: nat)
    requires KnownType(pwType) && WordTable(words)
    requires UsedEntropy(pwType, entropy) <= |s| && UsedEntropy(pwType, entropy) <= |t|
    ensures |Normalize(Password(words, pwType, s, entropy))| == PwChars(pwType, entropy)
    ensures Normalize(Password(words, pwType, s, entropy)) == Normalize(Password(words, pwType, t, entropy))
       <==> s[..UsedEntropy(pwType, entropy)] == t[..UsedEntropy(pwType, entropy)]
  {
    var n := Units(pwType, entropy);
    hide WordTable, Normalize, Encode, Spaced;
    if pwType != PW_WORD4 {
      NormalizedPassword(words, pwType, s, entropy);
      NormalizedPassword(words, pwType, t, entropy);
      EncodingDeterminesBits(s, t, UnitBits(pwType), n);
    } else {
      WordsDetermineDigits(words, s, t, n);
      NormalizedWordListLength(words, s, n);
      DigitsDetermineBits(s, t, 11, n);
      hide Digits;
      if n > 0 {
        WordListLength(words, s, n);
        WordListLength(words, t, n);
        LastSpace(words, s, n);
        LastSpace(words, t, n);
      } else {
        assert s[..0] == t[..0];
      }
    }
  }

  lemma {:induction false} ValueSnoc(s: seq<bool>, from: nat, to: nat)
    requires from <= to < |s|
    ensures Value(s[from..to + 1]) == Value(s[from..to]) * 2 + if s[to] then 1 else 0
  {
    assert s[from..to + 1][..to - from] == s[from..to];
  }

  // The loop that shifts eleven bits into k.
  method WordNumber(v: seq<Byte>, i: nat) returns (k: nat)
    requires 11 * i + 11 <= 8 * |v|
    ensures k == Digit(LowFirst(v), 11, i)
  {
    hide *;
    k := 0;
    ghost var from: nat, s := i * 11, LowFirst(v);
    EmptyValue(s, i);
    var j: nat := i * 11;
    while j < (i + 1) * 11
      invariant from <= j <= from + 11 <= |s| == 8 * |v| && k == Value(s[from..j])
    {
      NextBit(v, from, j);
      k := k * 2 + Shift(v[j / 8], j % 8) % 2;
      j := j + 1;
    }
  }

  lemma EmptyValue(s: seq<bool>, i: nat)
    requires 11 * i + 11 <= |s|
    ensures i * 11 + 11 <= |s| && Value(s[i * 11..i * 11]) == 0
    ensures Digit(s, 11, i) == Value(s[i * 11..i * 11 + 11])
  {
    assert s[i * 11..i * 11] == [];
  }

  lemma NextBit(v: seq<Byte>, from: nat, j: nat)
    requires from <= j < 8 * |v|
    ensures j / 8 < |v| && |LowFirst(v)| == 8 * |v|
    ensures Value(LowFirst(v)[from..j + 1]) == Value(LowFirst(v)[from..j]) * 2 + Shift(v[j / 8], j % 8) % 2
  {
    ValueSnoc(LowFirst(v), from, j);
    hide Value, Shift;
  }

  // memcpy(buf + at, w, 4) and the space after it.
  method PutWord(buf: array<char>, at: nat, w: string)
    requires |w| == 4 && at + 5 <= buf.Length
    modifies buf
    ensures buf[..at + 5] == old(buf[..at]) + w + " " && buf[at + 5..] == old(buf[at..])[5..]
  {
    forall x | 0 <= x < 4 {
      buf[at + x] := w[x];
    }
    buf[at + 4] := ' ';
  }

  lemma NextWord(words: seq<string>, s: seq<bool>, i: nat)
    requires WordTable(words) && 11 * i + 11 <= |s|
    ensures Digit(s, 11, i) < |words| && |words[Digit(s, 11, i)]| == 4
    ensures WordList(words, s, i + 1) == WordList(words, s, i) + words[Digit(s, 11, i)] + " "
  {
    WordIsWord(words, s, i);
  }

  // The PW_WORD4 case: the last space gives way to the final NUL.
  method WordPassword(words: seq<string>, v: seq<Byte>, n: nat, buf: array<char>)
    requires WordTable(words) && 0 < n && 11 * n <= 8 * |v| && 5 * n <= buf.Length
    modifies buf
    ensures |WordList(words, LowFirst(v), n)| == 5 * n
    ensures buf[..5 * n] == WordList(words, LowFirst(v), n)[..5 * n - 1] + "\0" && buf[5 * n..] == old(buf[5 * n..])
  {
    ghost var s := LowFirst(v);
    var i := 0;
    hide *;
    NoWords(words, s, s);
    while i < n
      invariant i <= n
      invariant buf[..5 * i] == WordList(words, s, i) && buf[5 * i..] == old(buf[5 * i..])
    {
      var k := WordNumber(v, i);
      NextWord(words, s, i);
      PutWord(buf, 5 * i, words[k]);
      i := i + 1;
    }
    WordListLength(words, s, n);
    buf[5 * n - 1] := '\0';
  }

  lemma NoWords(words: seq<string>, s: seq<bool>, t: seq<bool>)
    ensures WordList(words, s, 0) == WordList(words, t, 0) == [] && Digits(s, 11, 0) == Digits(t, 11, 0)
  {
  }

  lemma WordPasswordIs(words: seq<string>, s: seq<bool>, entropy: nat)
    requires WordTable(words) && 0 < entropy && UsedEntropy(PW_WORD4, entropy) <= |s|
    ensures var n := Units(PW_WORD4, entropy);
            && 0 < n && 11 * n <= |s| && 5 * n == PwLen(PW_WORD4, entropy) + 1
            && |WordList(words, s, n)| == 5 * n
            && Password(words, PW_WORD4, s, entropy) == WordList(words, s, n)[..5 * n - 1]
  {
    WordListLength(words, s, Units(PW_WORD4, entropy));
  }

  method WordsPassword(words: seq<string>, v: seq<Byte>, entropy: nat, buf: array<char>)
    requires WordTable(words) && 0 < entropy
    requires UsedEntropy(PW_WORD4, entropy) <= 8 * |v| && PwLen(PW_WORD4, entropy) < buf.Length
    modifies buf
    ensures var n := PwLen(PW_WORD4, entropy);
            && buf[..n] == Password(words, PW_WORD4, LowFirst(v), entropy) && buf[n] == '\0'
            && buf[n + 1..] == old(buf[n + 1..])
  {
    hide *;
    WordPasswordIs(words, LowFirst(v), entropy);
    WordPassword(words, v, Units(PW_WORD4, entropy), buf);
    ghost var n := PwLen(PW_WORD4, entropy);
    assert buf[n] == buf[..n + 1][n] && buf[..n] == buf[..n + 1][..n];
  }

  // The two cases of single characters: encode, then space out, then terminate again.
  method CharPassword(words: seq<string>, v: seq<Byte>, pwType: int, entropy: nat, buf: array<char>)
    requires WordTable(words) && KnownType(pwType) && pwType != PW_WORD4
    requires UsedEntropy(pwType, entropy) <= 8 * |v| && PwLen(pwType, entropy) < buf.Length
    modifies buf
    ensures var n := PwLen(pwType, entropy);
            && buf[..n] == Password(words, pwType, BitString(v), entropy) && buf[n] == '\0'
            && buf[n + 1..] == old(buf[n + 1..])
  {
    var pwchars, pwlen := PwChars(pwType, entropy), PwLen(pwType, entropy);
    hide Encode, Spaced, BitString;
    if pwType == PW_BASE32 {
      ConvBase32(buf, v, pwchars);
    } else {
      ConvBase64(buf, v, pwchars);
    }
    assert buf[pwlen + 1..] == buf[pwchars + 1..][pwlen - pwchars..];
    Space(buf, pwchars, pwlen);
    assert buf[pwlen + 1..] == buf[pwlen..][1..];
    buf[pwlen] := '\0';
  }

  // Where the code puts the final NUL.
  function Terminator(pwType: int, entropy: nat): int {
    if pwType == PW_WORD4 then 5 * Units(pwType, entropy) - 1 else PwLen(pwType, entropy)
  }

  /** In front of the buffer exactly for words with no entropy at all, otherwise right behind the password. */
  lemma WordsNeedEntropy(pwType: int, entropy: nat)
    requires KnownType(pwType)
    ensures Terminator(pwType, entropy) >= 0 <==> !(pwType == PW_WORD4 && entropy == 0)
    ensures Terminator(pwType, entropy) >= 0 ==> Terminator(pwType, entropy) == PwLen(pwType, entropy)
  {
    var n := Units(pwType, entropy);
    assert pwType == PW_WORD4 ==> (n > 0 <==> entropy > 0);
    hide Units;
  }

  /** make_passwd: a length or an entropy when there is no buffer, a password in it, or an error code. */
  method MakePasswd(words: seq<string>, v: seq<Byte>, pwType: int, entropy: nat, buf: array?<char>, buflen: int)
    returns (r: int)
    requires WordTable(words)
    requires buf != null ==> buflen <= buf.Length
    requires buf != null && buflen > 0 && KnownType(pwType) ==> Terminator(pwType, entropy) >= 0
    modifies if buf == null then {} else {buf}
    ensures r == Outcome(|v|, pwType, entropy, buf == null, buflen)
    ensures r == -1 <==> pwType != 0 && pwType != 1 && pwType != 2
    ensures r == -2 <==> KnownType(pwType) && buf == null && buflen != 0 && buflen != 1 && buflen != 2 && buflen != 3
    ensures r == -3 <==> KnownType(pwType) && buf != null && UsedEntropy(pwType, entropy) > 8 * |v|
    ensures r == -4 <==> && KnownType(pwType) && buf != null && UsedEntropy(pwType, entropy) <= 8 * |v|
                         && PwLen(pwType, entropy) >= buflen
    ensures buf != null && r < 0 ==> buf[..] == old(buf[..])
    ensures buf != null && r >= 0 ==>
              && UsedEntropy(pwType, entropy) <= 8 * |v| && r < buflen && KnownType(pwType)
              && buf[..r] == Password(words, pwType, InputBits(pwType, v), entropy) && buf[r] == '\0'
              && buf[r + 1..] == old(buf[r + 1..])
  {
    hide Password, LowFirst, BitString, WordTable, Terminator, Units, UnitBits, PwLen, PwChars, UsedEntropy, MaxEntropy;
    var pwchars := PwChars(pwType, entropy);
    var used := UsedEntropy(pwType, entropy);
    var pwlen := PwLen(pwType, entropy);
    if !KnownType(pwType) {
      return -1;
    }
    if buf == null {
      match buflen {
        case 0 => return pwlen;
        case 1 => return pwchars;
        case 2 => return used;
        case 3 => return MaxEntropy(pwType, |v|);
        case _ => return -2;
      }
    }
    if used > |v| * 8 {
      return -3;
    }
    if pwlen >= buflen {
      return -4;
    }
    WordsNeedEntropy(pwType, entropy);
    if pwType == PW_WORD4 {
      WordsPassword(words, v, entropy, buf);
    } else {
      CharPassword(words, v, pwType, entropy, buf);
    }
    return pwlen;
  }

  /** The answers without a buffer: to 0 the length of the password, to 1 its length without spaces, to 2 how many
      bits it carries, to 3 the largest entropy that vlen bytes are enough for. */
  lemma QueriesAnswer(words: seq<string>, pwType: int, s: seq<bool>, t: seq<bool>, vlen: nat, entropy: nat)
    requires KnownType(pwType) && WordTable(words)
    requires UsedEntropy(pwType, entropy) <= |s| && UsedEntropy(pwType, entropy) <= |t|
    ensures Outcome(vlen, pwType, entropy, true, 0) == |Password(words, pwType, s, entropy)|
    ensures Outcome(vlen, pwType, entropy, true, 1) == |Normalize(Password(words, pwType, s, entropy))|
    ensures var bits := Outcome(vlen, pwType, entropy, true, 2);
            0 <= bits <= |s| && bits <= |t|
            && (Normalize(Password(words, pwType, s, entropy)) == Normalize(Password(words, pwType, t, entropy))
                <==> s[..bits] == t[..bits])
    ensures entropy <= Outcome(vlen, pwType, entropy, true, 3) <==> UsedEntropy(pwType, entropy) <= 8 * vlen
  {
    hide *;
    QueryValues(pwType, vlen, entropy);
    PasswordLength(words, pwType, s, entropy);
    PasswordCarriesBits(words, pwType, s, t, entropy);
    EntropyFits(pwType, entropy, vlen);
  }

  lemma QueryValues(pwType: int, vlen: nat, entropy: nat)
    requires KnownType(pwType)
    ensures Outcome(vlen, pwType, entropy, true, 0) == PwLen(pwType, entropy)
    ensures Outcome(vlen, pwType, entropy, true, 1) == PwChars(pwType, entropy)
    ensures Outcome(vlen, pwType, entropy, true, 2) == UsedEntropy(pwType, entropy)
    ensures Outcome(vlen, pwType, entropy, true, 3) == MaxEntropy(pwType, vlen)
  {
  }

  // C strings end at the first NUL.
  ghost predicate NoNul(s: string) {
    forall i :: 0 <= i < |s| ==> s[i] != '\0'
  }

  lemma {:induction false} EncodeNoNul(s: seq<bool>, width: nat, n: nat)
    requires (width == 5 || width == 6) && width * n <= |s|
    ensures NoNul(Encode(s, width, n))
  {
    hide Tab, Digit;
    if n > 0 {
      NextDigit(width, n - 1);
      EncodeNoNul(s, width, n - 1);
      TabNoNul(width, Digit(s, width, n - 1));
    }
  }

  lemma TabNoNul(width: nat, d: nat)
    requires (width == 5 || width == 6) && d < Pow2(width)
    ensures Tab(width, d) != '\0'
  {
    SmallPowers();
  }

  lemma {:induction false} SpreadNoNul(s: string, n: nat, k: nat)
    requires NoNul(s)
    ensures NoNul(Spread(s, n, k))
  {
    hide Gaps;
    if s != [] {
      var rest, last, k' := s[..|s| - 1], s[|s| - 1..], k + Gaps(n) + 1;
      assert NoNul(rest) && NoNul(last) && NoNul(" ");
      hide NoNul;
      if k' >= n && rest != [] {
        SpreadNoNul(rest, n, k' - n);
        NoNulConcat(Spread(rest, n, k' - n), " ");
        NoNulConcat(Spread(rest, n, k' - n) + " ", last);
      } else {
        SpreadNoNul(rest, n, k');
        NoNulConcat(Spread(rest, n, k'), last);
      }
    }
  }

  lemma NoNulConcat(a: string, b: string)
    requires NoNul(a) && NoNul(b)
    ensures NoNul(a + b)
  {
  }

  lemma {:induction false} WordListNoNul(words: seq<string>, s: seq<bool>, n: nat)
    requires WordTable(words) && 11 * n <= |s|
    ensures NoNul(WordList(words, s, n))
  {
    hide WordTable, Digit, Word;
    if n > 0 {
      WordListNoNul(words, s, n - 1);
      WordIsWord(words, s, n - 1);
    }
  }

  lemma PasswordNoNul(words: seq<string>, pwType: int, s: seq<bool>, entropy: nat)
    requires KnownType(pwType) && WordTable(words) && UsedEntropy(pwType, entropy) <= |s|
    ensures NoNul(Password(words, pwType, s, entropy))
  {
    var n := Units(pwType, entropy);
    hide WordTable, Encode, Spread, WordList;
    if pwType != PW_WORD4 {
      var e := Encode(s, UnitBits(pwType), n);
      EncodeNoNul(s, UnitBits(pwType), n);
      SpreadNoNul(e, |e|, Gaps(|e|) / 2);
    } else {
      WordListLength(words, s, n);
      WordListNoNul(words, s, n);
    }
  }

  /** A list entry: the password is made and then normalized in place, and its first pwchars characters are hashed.
      These are the whole normalized password. */
  method HashedText(words: seq<string>, v: seq<Byte>, pwType: int, entropy: nat, buf: array<char>)
    requires WordTable(words) && KnownType(pwType) && 0 < entropy <= MaxEntropy(pwType, |v|)
    requires buf.Length == PwLen(pwType, entropy) + 1
    modifies buf
    ensures UsedEntropy(pwType, entropy) <= 8 * |v| && PwChars(pwType, entropy) < buf.Length
    ensures buf[..PwChars(pwType, entropy)] == Normalize(Password(words, pwType, InputBits(pwType, v), entropy))
    ensures buf[PwChars(pwType, entropy)] == '\0'
  {
    ghost var s := InputBits(pwType, v);
    EntropyFits(pwType, entropy, |v|);
    WordsNeedEntropy(pwType, entropy);
    hide WordTable, Password, Normalize, InputBits, Terminator, Units, UnitBits, PwLen, PwChars;
    hide UsedEntropy, MaxEntropy;
    var r := MakePasswd(words, v, pwType, entropy, buf, buf.Length);
    PasswordLength(words, pwType, s, entropy);
    PasswordNoNul(words, pwType, s, entropy);
    PasswordCarriesBits(words, pwType, s, s, entropy);
    assert forall k :: 0 <= k < r ==> buf[k] == buf[..r][k];
    PwNorm(buf, r);
  }
}
