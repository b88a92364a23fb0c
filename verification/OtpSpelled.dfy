/** What a password spells, in terms of the bits of the input bytes (otpw-gen.c): make_passwd. */
module OtpSpelled {
  import opened Basics
  import opened OtpEncoding
  import opened OtpNormal
  import opened OtpPassword

  // Bit j of the input, the bits of each byte being used from the highest or from the lowest on.
  predicate InputBit(v: seq<Byte>, j: nat, highFirst: bool)
    requires j < 8 * |v|
  {
    Bit(v[j / 8], if highFirst then 7 - j % 8 else j % 8)
  }

  // The number d is made of the input bits from .. from + width, the first of them its highest.
  ghost predicate Reads(d: nat, v: seq<Byte>, from: nat, width: nat, highFirst: bool) {
    && from + width <= 8 * |v|
    && forall j: nat | from <= j < from + width :: Bit(d, from + width - 1 - j) == InputBit(v, j, highFirst)
  }

  lemma {:induction false} ValueBit(s: seq<bool>, b: nat)
    requires b < |s|
    ensures Bit(Value(s), |s| - 1 - b) <==> s[b]
  {
    var n := |s| - 1;
    var rest, x := s[..n], Value(s);
    assert x == 2 * Value(rest) + if s[n] then 1 else 0;
    if b < n {
      ValueBit(rest, b);
    }
  }

  lemma {:induction false} BitsAt(x: nat, n: nat, k: nat)
    requires k < n
    ensures Bits(x, n)[k] <==> Bit(x, n - 1 - k)
  {
    if k < n - 1 {
      BitsAt(x / 2, n - 1, k);
    }
  }

  lemma {:induction false} ShiftBit(x: nat, m: nat)
    ensures Shift(x, m) % 2 == 1 <==> Bit(x, m)
  {
    if m > 0 {
      ShiftBit(x / 2, m - 1);
    }
  }

  lemma HighFirst(v: seq<Byte>, j: nat)
    requires j < 8 * |v|
    ensures BitString(v)[j] <==> InputBit(v, j, true)
  {
    hide BitString, Bits, Bit;
    var q, r := j / 8, j % 8;
    BitStringAt(v, q);
    BitsAt(v[q], 8, r);
    InGroup(BitString(v), 8 * q, 8, r);
  }

  lemma InGroup<T>(s: seq<T>, from: nat, n: nat, r: nat)
    requires r < n && from + n <= |s|
    ensures s[from..from + n][r] == s[from + r]
  {
  }

  lemma LowestFirst(v: seq<Byte>, j: nat)
    requires j < 8 * |v|
    ensures LowFirst(v)[j] <==> InputBit(v, j, false)
  {
    ShiftBit(v[j / 8], j % 8);
  }

  lemma NextInputBit(v: seq<Byte>, j: nat, highFirst: bool)
    requires j < 8 * |v|
    ensures var s := if highFirst then BitString(v) else LowFirst(v);
            |s| == 8 * |v| && s[j] == InputBit(v, j, highFirst)
  {
    if highFirst {
      HighFirst(v, j);
    } else {
      LowestFirst(v, j);
    }
  }

  lemma ValueReads(v: seq<Byte>, s: seq<bool>, from: nat, width: nat, highFirst: bool)
    requires s == if highFirst then BitString(v) else LowFirst(v)
    requires from + width <= |s| == 8 * |v|
    ensures Reads(Value(s[from..from + width]), v, from, width, highFirst)
  {
    hide Value, Bit, InputBit, LowFirst, BitString;
    forall j: nat | from <= j < from + width
      ensures Bit(Value(s[from..from + width]), from + width - 1 - j) == InputBit(v, j, highFirst)
    {
      ValueBit(s[from..from + width], j - from);
      NextInputBit(v, j, highFirst);
    }
  }

  lemma {:induction false} EncodeAt(s: seq<bool>, width: nat, n: nat, i: nat)
    requires (width == 5 || width == 6) && width * n <= |s| && i < n
    ensures width * i + width <= |s| && Encode(s, width, n)[i] == Tab(width, Digit(s, width, i))
  {
    NextDigit(width, n - 1);
    if i < n - 1 {
      EncodeAt(s, width, n - 1, i);
    }
  }

  lemma CharSpelled(words: seq<string>, pwType: int, v: seq<Byte>, entropy: nat, i: nat)
    requires KnownType(pwType) && pwType != PW_WORD4 && WordTable(words)
    requires UsedEntropy(pwType, entropy) <= 8 * |v| && i < Units(pwType, entropy)
    ensures var p, width := Normalize(Password(words, pwType, InputBits(pwType, v), entropy)), UnitBits(pwType);
            && |p| == Units(pwType, entropy) && width * i + width <= |BitString(v)|
            && p[i] == Tab(width, Digit(BitString(v), width, i))
  {
    NormalizedPassword(words, pwType, BitString(v), entropy);
    hide Normalize, Password, Tab, Digit, BitString, LowFirst, WordTable;
    EncodeAt(BitString(v), UnitBits(pwType), Units(pwType, entropy), i);
    hide Encode;
  }

  /** A base-64 password, without its spaces: character i is the one that the input bits 6 * i to 6 * i + 5 number. */
  lemma Base64Spelled(words: seq<string>, v: seq<Byte>, entropy: nat, i: nat)
    requires WordTable(words) && 6 * ((entropy + 5) / 6) <= 8 * |v| && i < (entropy + 5) / 6
    ensures UsedEntropy(0, entropy) <= |InputBits(0, v)|
    ensures var p := Normalize(Password(words, 0, InputBits(0, v), entropy));
            && |p| == (entropy + 5) / 6
            && exists d: nat :: d < 64 && Reads(d, v, 6 * i, 6, true) && p[i] == TABLE64[d]
  {
    hide Normalize, Password, Reads, BitString, LowFirst, WordTable, Value, Tab;
    CharSpelled(words, 0, v, entropy, i);
    ValueReads(v, BitString(v), 6 * i, 6, true);
    SmallPowers();
    Tables(Digit(BitString(v), 6, i));
    TabIs(Digit(BitString(v), 6, i));
    assert Reads(Digit(BitString(v), 6, i), v, 6 * i, 6, true);
  }

  /** A base-32 password: groups of five bits. */
  lemma Base32Spelled(words: seq<string>, v: seq<Byte>, entropy: nat, i: nat)
    requires WordTable(words) && 5 * ((entropy + 4) / 5) <= 8 * |v| && i < (entropy + 4) / 5
    ensures UsedEntropy(2, entropy) <= |InputBits(2, v)|
    ensures var p := Normalize(Password(words, 2, InputBits(2, v), entropy));
            && |p| == (entropy + 4) / 5
            && exists d: nat :: d < 32 && Reads(d, v, 5 * i, 5, true) && p[i] == TABLE32[d]
  {
    hide Normalize, Password, Reads, BitString, LowFirst, WordTable, Value, Tab;
    CharSpelled(words, 2, v, entropy, i);
    ValueReads(v, BitString(v), 5 * i, 5, true);
    SmallPowers();
    Tables(Digit(BitString(v), 5, i));
    TabIs(Digit(BitString(v), 5, i));
    assert Reads(Digit(BitString(v), 5, i), v, 5 * i, 5, true);
  }

  lemma TabIs(d: nat)
    ensures d < Pow2(6) ==> d < 64 && Tab(6, d) == Tab64(d)
    ensures d < Pow2(5) ==> d < 32 && Tab(5, d) == Tab32(d)
  {
    SmallPowers();
  }

  lemma WordListEnd(words: seq<string>, s: seq<bool>, n: nat)
    requires WordTable(words) && 11 * n <= |s| && 0 < n
    ensures 11 * (n - 1) + 11 <= |s| && Digit(s, 11, n - 1) < |words| && |words[Digit(s, 11, n - 1)]| == 4
    ensures WordList(words, s, n) == WordList(words, s, n - 1) + (words[Digit(s, 11, n - 1)] + " ")
  {
    hide WordTable, Digit;
    WordIsWord(words, s, n - 1);
  }

  lemma FivesAt(p: string, m: nat, w: string, i: nat)
    requires |p| == 5 * m && |w| == 5 && i <= m
    ensures (p + w)[5 * i..5 * i + 5] == if i == m then w else p[5 * i..5 * i + 5]
  {
  }

  lemma {:induction false} WordListAt(words: seq<string>, s: seq<bool>, n: nat, i: nat)
    requires WordTable(words) && 11 * n <= |s| && i < n
    ensures |WordList(words, s, n)| == 5 * n && 11 * i + 11 <= |s| && Digit(s, 11, i) < |words|
    ensures WordList(words, s, n)[5 * i..5 * i + 5] == words[Digit(s, 11, i)] + " "
  {
    hide *;
    WordListLength(words, s, n);
    WordListLength(words, s, n - 1);
    WordListEnd(words, s, n);
    FivesAt(WordList(words, s, n - 1), n - 1, words[Digit(s, 11, n - 1)] + " ", i);
    if i < n - 1 {
      WordListAt(words, s, n - 1, i);
    }
  }

  /** A password of words: word i is the one that the input bits 11 * i to 11 * i + 10 number, the bits of each byte
      used from the lowest on, and a space follows all words but the last. */
  lemma WordsSpelled(words: seq<string>, v: seq<Byte>, entropy: nat, i: nat)
    requires WordTable(words) && 11 * ((entropy + 10) / 11) <= 8 * |v| && i < (entropy + 10) / 11
    ensures UsedEntropy(1, entropy) <= |InputBits(1, v)|
    ensures var p, n := Password(words, 1, InputBits(1, v), entropy), (entropy + 10) / 11;
            && |p| == 5 * n - 1
            && (i + 1 < n ==> p[5 * i + 4] == ' ')
            && exists d: nat :: d < |words| && Reads(d, v, 11 * i, 11, false) && p[5 * i..5 * i + 4] == words[d]
  {
    hide Reads, BitString, LowFirst, Value, WordTable, WordList, Digit;
    var s, n := LowFirst(v), (entropy + 10) / 11;
    WordListAt(words, s, n, i);
    var d := Digit(s, 11, i);
    WordReads(v, i);
    assert Reads(d, v, 11 * i, 11, false);
    WordInList(WordList(words, s, n), n, words[d], i);
  }

  lemma WordReads(v: seq<Byte>, i: nat)
    requires 11 * i + 11 <= 8 * |v|
    ensures Reads(Digit(LowFirst(v), 11, i), v, 11 * i, 11, false)
  {
    hide Reads, LowFirst, Value;
    ValueReads(v, LowFirst(v), 11 * i, 11, false);
  }

  // The list without its last space.
  lemma WordInList(l: string, n: nat, w: string, i: nat)
    requires |l| == 5 * n && i < n && l[5 * i..5 * i + 5] == w + " "
    ensures var p := l[..5 * n - 1]; p[5 * i..5 * i + 4] == w && (i + 1 < n ==> p[5 * i + 4] == ' ')
  {
    var p, f := l[..5 * n - 1], l[5 * i..5 * i + 5];
    InGroup(l, 5 * i, 5, 4);
    assert |w| == 4;
    assert p[5 * i..5 * i + 4] == f[..4];
  }
}
