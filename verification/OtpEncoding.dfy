/** Turning random bits into printable characters (otpw-gen.c): conv_base64 and conv_base32. */
module OtpEncoding {
  import opened Basics

  // The lowest n bits of x, most significant first.
  function Bits(x: nat, n: nat): (r: seq<bool>)
    ensures |r| == n
  {
    if n == 0 then [] else Bits(x / 2, n - 1) + [x % 2 == 1]
  }

  // A number of n + m bits is its upper n bits followed by its lower m bits.
  lemma {:induction false} BitsConcat(hi: nat, lo: nat, n: nat, m: nat)
    requires lo < Pow2(m)
    ensures Bits(hi * Pow2(m) + lo, n + m) == Bits(hi, n) + Bits(lo, m)
  {
    if m > 0 {
      var x := hi * Pow2(m) + lo;
      HalfOfSum(hi, Pow2(m - 1), lo);
      BitsConcat(hi, lo / 2, n, m - 1);
      assert Bits(x, n + m) == Bits(x / 2, n + m - 1) + [x % 2 == 1];
    }
    hide Pow2;
  }

  lemma HalfOfSum(hi: nat, p: nat, lo: nat)
    ensures var x := hi * (2 * p) + lo; x / 2 == hi * p + lo / 2 && x % 2 == lo % 2
  {
    var y := hi * p;
    assert hi * (2 * p) == 2 * y;
  }

  // x >> m
  function Shift(x: nat, m: nat): nat {
    if m == 0 then x else Shift(x / 2, m - 1)
  }

  lemma {:induction false} BitsSplit(x: nat, n: nat, m: nat)
    ensures Bits(x, n + m) == Bits(Shift(x, m), n) + Bits(x, m)
  {
    if m > 0 {
      BitsSplit(x / 2, n, m - 1);
    }
  }

  // What lies above bit width does not show in the lowest n <= width bits.
  lemma {:induction false} BitsTruncate(hi: nat, lo: nat, n: nat, width: nat)
    requires n <= width
    ensures Bits(hi * Pow2(width) + lo, n) == Bits(lo, n)
  {
    if n > 0 {
      HalfOfSum(hi, Pow2(width - 1), lo);
      BitsTruncate(hi, lo / 2, n - 1, width - 1);
    }
  }

  lemma ConcatInjective<T>(a: seq<T>, b: seq<T>, c: seq<T>, d: seq<T>)
    requires |b| == |d|
    ensures a + b == c + d <==> a == c && b == d
  {
    if a + b == c + d {
      assert |a| == |c|;
      assert a == (a + b)[..|a|] && b == (a + b)[|a|..];
      assert c == (c + d)[..|c|] && d == (c + d)[|c|..];
    }
  }

  // The number that bits spell.
  function Value(bs: seq<bool>): (r: nat)
    ensures r < Pow2(|bs|)
  {
    if bs == [] then 0 else 2 * Value(bs[..|bs| - 1]) + if bs[|bs| - 1] then 1 else 0
  }

  lemma {:induction false} ValueOfBits(x: nat, n: nat)
    requires x < Pow2(n)
    ensures Value(Bits(x, n)) == x
  {
    if n > 0 {
      ValueOfBits(x / 2, n - 1);
      assert Bits(x, n)[..n - 1] == Bits(x / 2, n - 1);
    }
  }

  lemma {:induction false} BitsOfValue(bs: seq<bool>)
    ensures Bits(Value(bs), |bs|) == bs
  {
    if bs != [] {
      BitsOfValue(bs[..|bs| - 1]);
    }
  }

  // All the bits of v in order.
  function BitString(v: seq<Byte>): (r: seq<bool>)
    ensures |r| == 8 * |v|
  {
    if v == [] then [] else BitString(v[..|v| - 1]) + Bits(v[|v| - 1], 8)
  }

  lemma {:induction false} BitStringAt(v: seq<Byte>, j: nat)
    requires j < |v|
    ensures BitString(v)[8 * j..8 * j + 8] == Bits(v[j], 8)
  {
    var rest := v[..|v| - 1];
    if j < |v| - 1 {
      BitStringAt(rest, j);
      assert BitString(v)[8 * j..8 * j + 8] == BitString(rest)[8 * j..8 * j + 8];
    } else {
      assert BitString(v)[8 * j..8 * j + 8] == Bits(v[j], 8);
    }
  }

  // Digit r of the four that the three bytes from v[j] on make.
  function Quarter(v: seq<Byte>, j: nat, r: nat): (d: nat)
    requires r < 4 && 8 * j + 6 * r + 6 <= 8 * |v|
    ensures d < 64
  {
    if r == 0 then v[j] / 4
    else if r == 1 then v[j] % 4 * 16 + v[j + 1] / 16
    else if r == 2 then v[j + 1] % 16 * 4 + v[j + 2] / 64
    else v[j + 2] % 64
  }

  /** What conv_base64 looks up for character i. */
  function Digit64(v: seq<Byte>, i: nat): (d: nat)
    requires 6 * i + 6 <= 8 * |v|
    ensures d < 64
  {
    Quarter(v, i / 4 * 3, i % 4)
  }

  lemma SmallPowers()
    ensures Pow2(1) == 2 && Pow2(2) == 4 && Pow2(3) == 8 && Pow2(4) == 16 && Pow2(5) == 32 && Pow2(6) == 64
    ensures Pow2(7) == 128 && Pow2(8) == 256
  {
    assert Pow2(4) == 16;
  }

  lemma SplitByte(b: Byte)
    ensures Bits(b, 8) == Bits(b / 4, 6) + Bits(b % 4, 2)
    ensures Bits(b, 8) == Bits(b / 16, 4) + Bits(b % 16, 4)
    ensures Bits(b, 8) == Bits(b / 64, 2) + Bits(b % 64, 6)
  {
    SmallPowers();
    BitsConcat(b / 4, b % 4, 6, 2);
    BitsConcat(b / 16, b % 16, 4, 4);
    BitsConcat(b / 64, b % 64, 2, 6);
  }

  lemma Low2Top4(a: Byte, b: Byte)
    ensures Bits(a % 4 * 16 + b / 16, 6) == Bits(a, 8)[6..] + Bits(b, 8)[..4]
  {
    hide Bits;
    SmallPowers();
    hide Pow2;
    SplitByte(a);
    SplitByte(b);
    BitsConcat(a % 4, b / 16, 2, 4);
  }

  lemma Low4Top2(a: Byte, b: Byte)
    ensures Bits(a % 16 * 4 + b / 64, 6) == Bits(a, 8)[4..] + Bits(b, 8)[..2]
  {
    hide Bits;
    SmallPowers();
    hide Pow2;
    SplitByte(a);
    SplitByte(b);
    BitsConcat(a % 16, b / 64, 4, 2);
  }

  /** ... are the six bits of v from bit 6 * i on. */
  lemma Digit64Bits(v: seq<Byte>, i: nat)
    requires 6 * i + 6 <= 8 * |v|
    ensures Bits(Digit64(v, i), 6) == BitString(v)[6 * i..6 * i + 6]
  {
    var j, r := QuarterOf(i);
    Digit64Is(v, i, j, r);
    hide *;
    QuarterBits(v, j, r);
  }

  // Character i is digit r of the four that the three bytes from j on make.
  lemma QuarterOf(i: nat) returns (j: nat, r: nat)
    ensures j == i / 4 * 3 && r == i % 4 < 4 && 6 * i == 8 * j + 6 * r
  {
    j, r := i / 4 * 3, i % 4;
    assert i == 4 * (i / 4) + i % 4;
  }

  lemma Digit64Is(v: seq<Byte>, i: nat, j: nat, r: nat)
    requires j == i / 4 * 3 && r == i % 4 && 6 * i + 6 <= 8 * |v|
    ensures Digit64(v, i) == Quarter(v, j, r)
  {
    hide Quarter;
  }

  lemma QuarterBits(v: seq<Byte>, j: nat, r: nat)
    requires r < 4 && 8 * j + 6 * r + 6 <= 8 * |v|
    ensures Bits(Quarter(v, j, r), 6) == BitString(v)[8 * j + 6 * r..8 * j + 6 * r + 6]
  {
    hide Bits, BitString;
    if r == 0 {
      Top6(v, j);
    } else if r == 1 {
      Straddle2(v, j);
    } else if r == 2 {
      Straddle4(v, j + 1);
    } else {
      Low6(v, j + 2);
    }
  }

  lemma Top6(v: seq<Byte>, q: nat)
    requires q < |v|
    ensures Bits(v[q] / 4, 6) == BitString(v)[8 * q..8 * q + 6]
  {
    BitStringAt(v, q);
    SplitByte(v[q]);
    hide Bits, BitString;
    InByte(BitString(v), 8 * q);
  }

  lemma Low6(v: seq<Byte>, q: nat)
    requires q < |v|
    ensures Bits(v[q] % 64, 6) == BitString(v)[8 * q + 2..8 * q + 8]
  {
    BitStringAt(v, q);
    SplitByte(v[q]);
    hide Bits, BitString;
    InByte(BitString(v), 8 * q);
  }

  lemma Straddle2(v: seq<Byte>, q: nat)
    requires q + 1 < |v|
    ensures Bits(v[q] % 4 * 16 + v[q + 1] / 16, 6) == BitString(v)[8 * q + 6..8 * q + 12]
  {
    hide Bits, BitString;
    TwoBytes(v, q, 6, 4);
    Low2Top4(v[q], v[q + 1]);
  }

  lemma Straddle4(v: seq<Byte>, q: nat)
    requires q + 1 < |v|
    ensures Bits(v[q] % 16 * 4 + v[q + 1] / 64, 6) == BitString(v)[8 * q + 4..8 * q + 10]
  {
    hide Bits, BitString;
    TwoBytes(v, q, 4, 2);
    Low4Top2(v[q], v[q + 1]);
  }

  lemma TwoBytes(v: seq<Byte>, q: nat, from: nat, n: nat)
    requires q + 1 < |v| && from <= 8 && n <= 8
    ensures BitString(v)[8 * q + from..8 * q + 8 + n] == Bits(v[q], 8)[from..] + Bits(v[q + 1], 8)[..n]
  {
    hide Bits, BitString;
    var s, at := BitString(v), 8 * q;
    BitStringAt(v, q);
    BitStringAt(v, q + 1);
    assert s[at..at + 8] == Bits(v[q], 8) && s[at + 8..at + 16] == Bits(v[q + 1], 8);
    Across(s, at, Bits(v[q], 8), Bits(v[q + 1], 8), from, n);
  }

  lemma InByte(s: seq<bool>, at: nat)
    requires at + 8 <= |s|
    ensures s[at..at + 6] == s[at..at + 8][..6] && s[at + 2..at + 8] == s[at..at + 8][2..]
  {
  }

  // A stretch of bits that begins at bit from of byte a and takes n bits of the next byte, b.
  lemma Across(s: seq<bool>, at: nat, a: seq<bool>, b: seq<bool>, from: nat, n: nat)
    requires from <= 8 && n <= 8 && at + 16 <= |s|
    requires s[at..at + 8] == a && s[at + 8..at + 16] == b
    ensures s[at + from..at + 8 + n] == a[from..] + b[..n]
  {
  }

  /** Digit i when the bits s are read as digits of the given width. */
  function Digit(s: seq<bool>, width: nat, i: nat): (d: nat)
    requires width * i + width <= |s|
    ensures d < Pow2(width)
  {
    Value(s[width * i..width * i + width])
  }

  lemma Digit64IsDigit(v: seq<Byte>, i: nat)
    requires 6 * i + 6 <= 8 * |v|
    ensures Digit64(v, i) == Digit(BitString(v), 6, i) < 64
  {
    SmallPowers();
    Digit64Bits(v, i);
    ValueOfBits(Digit64(v, i), 6);
  }

  lemma NextDigit(width: nat, n: nat)
    ensures width * (n + 1) == width * n + width
  {
  }

  // The first n digits of the given width.
  function Digits(s: seq<bool>, width: nat, n: nat): (ds: seq<nat>)
    requires width * n <= |s|
    ensures |ds| == n
  {
    if n == 0 then [] else
      NextDigit(width, n - 1);
      Digits(s, width, n - 1) + [Digit(s, width, n - 1)]
  }

  lemma DigitsNext(s: seq<bool>, width: nat, n: nat)
    requires n > 0 && width * n <= |s|
    ensures width * (n - 1) + width <= |s|
    ensures Digits(s, width, n) == Digits(s, width, n - 1) + [Digit(s, width, n - 1)]
  {
    NextDigit(width, n - 1);
  }

  /** The digits determine the bits they are made from, and are determined by them. */
  lemma {:induction false} DigitsDetermineBits(s: seq<bool>, t: seq<bool>, width: nat, n: nat)
    requires width * n <= |s| && width * n <= |t|
    ensures Digits(s, width, n) == Digits(t, width, n) <==> s[..width * n] == t[..width * n]
  {
    hide Value;
    if n > 0 {
      NextDigit(width, n - 1);
      DigitsDetermineBits(s, t, width, n - 1);
      LastDigitDetermines(s, t, width * (n - 1), width);
      AppendInjective(Digits(s, width, n - 1), Digit(s, width, n - 1), Digits(t, width, n - 1), Digit(t, width, n - 1));
    }
  }

  lemma AppendInjective<T>(a: seq<T>, x: T, b: seq<T>, y: T)
    requires |a| == |b|
    ensures a + [x] == b + [y] <==> a == b && x == y
  {
    if a + [x] == b + [y] {
      assert a == (a + [x])[..|a|] && x == (a + [x])[|a|];
      assert b == (b + [y])[..|a|] && y == (b + [y])[|a|];
    }
  }

  lemma LastDigitDetermines(a: seq<bool>, b: seq<bool>, m: nat, width: nat)
    requires m + width <= |a| && m + width <= |b|
    ensures a[..m + width] == b[..m + width]
       <==> a[..m] == b[..m] && Value(a[m..m + width]) == Value(b[m..m + width])
  {
    hide Value, Bits;
    BitsOfValue(a[m..m + width]);
    BitsOfValue(b[m..m + width]);
    ConcatInjective(a[..m], a[m..m + width], b[..m], b[m..m + width]);
    assert a[..m + width] == a[..m] + a[m..m + width];
    assert b[..m + width] == b[..m] + b[m..m + width];
  }

  /** The characters of conv_base64: those of MIME base64 without the easily confused l, 0 and 1. */
  function Tab64(d: nat): char
    requires d < 64
  {
    if d < 26 then 'A' + d as char
    else if d == 37 then '%'
    else if d < 52 then 'a' + (d - 26) as char
    else if d == 52 then ':'
    else if d == 53 then '='
    else if d < 62 then '2' + (d - 54) as char
    else if d == 62 then '+'
    else '/'
  }

  /** The characters of conv_base32: lowercase letters without l and o, and the digits 2 to 9. */
  function Tab32(d: nat): char
    requires d < 32
  {
    if d < 11 then 'a' + d as char
    else if d < 13 then 'm' + (d - 11) as char
    else if d < 24 then 'p' + (d - 13) as char
    else '2' + (d - 24) as char
  }

  // The tables as the code spells them.
  const UPPER: string := "ABCDEFGHIJKLMNOPQRSTUVWXYZ"
  const LOWER: string := "abcdefghijk%mnopqrstuvwxyz"
  const OTHERS: string := ":=23456789+/"
  const TABLE64: string := UPPER + LOWER + OTHERS
  const TABLE32: string := "abcdefghijkmnpqrstuvwxyz23456789"

  lemma UpperSpelled(d: nat)
    requires d < 26
    ensures |UPPER| == 26 && UPPER[d] == 'A' + d as char
  {
  }

  lemma LowerSpelled(d: nat)
    requires d < 26
    ensures |LOWER| == 26 && LOWER[d] == if d == 11 then '%' else 'a' + d as char
  {
  }

  lemma Tables(d: nat)
    ensures |TABLE64| == 64 && |TABLE32| == 32
    ensures d < 64 ==> Tab64(d) == TABLE64[d]
    ensures d < 32 ==> Tab32(d) == TABLE32[d]
  {
    UpperSpelled(if d < 26 then d else 0);
    LowerSpelled(if 26 <= d < 52 then d - 26 else 0);
    hide UPPER, LOWER;
  }

  // The table in use: 64 or 32 characters.
  function Tab(width: nat, d: nat): char
    requires width == 5 || width == 6
    requires d < Pow2(width)
  {
    SmallPowers();
    if width == 6 then Tab64(d) else Tab32(d)
  }

  lemma TabInjective(width: nat, d: nat, e: nat)
    requires (width == 5 || width == 6) && d < Pow2(width) && e < Pow2(width)
    ensures Tab(width, d) == Tab(width, e) <==> d == e
  {
    SmallPowers();
  }

  // The first n characters for the bits s.
  function Encode(s: seq<bool>, width: nat, n: nat): (r: seq<char>)
    requires (width == 5 || width == 6) && width * n <= |s|
    ensures |r| == n
  {
    if n == 0 then [] else Encode(s, width, n - 1) + [Tab(width, Digit(s, width, n - 1))]
  }

  lemma {:induction false} EncodeInjective(s: seq<bool>, t: seq<bool>, width: nat, n: nat)
    requires (width == 5 || width == 6) && width * n <= |s| && width * n <= |t|
    ensures Encode(s, width, n) == Encode(t, width, n) <==> Digits(s, width, n) == Digits(t, width, n)
  {
    hide Value, Tab64, Tab32;
    if n > 0 {
      EncodeInjective(s, t, width, n - 1);
      var d, e := Digit(s, width, n - 1), Digit(t, width, n - 1);
      TabInjective(width, d, e);
      AppendInjective(Digits(s, width, n - 1), d, Digits(t, width, n - 1), e);
      AppendInjective(Encode(s, width, n - 1), Tab(width, d), Encode(t, width, n - 1), Tab(width, e));
    }
  }

  /** The characters determine the first width * n bits, and nothing else enters. */
  lemma EncodingDeterminesBits(s: seq<bool>, t: seq<bool>, width: nat, n: nat)
    requires (width == 5 || width == 6) && width * n <= |s| && width * n <= |t|
    ensures Encode(s, width, n) == Encode(t, width, n) <==> s[..width * n] == t[..width * n]
  {
    EncodeInjective(s, t, width, n);
    DigitsDetermineBits(s, t, width, n);
  }

  // s[i] = c, as the loops below see it: the text grows by c, and nothing from rest on is touched.
  method Append(s: array<char>, i: nat, c: char, ghost rest: nat)
    requires i < rest <= s.Length
    modifies s
    ensures s[..i + 1] == old(s[..i]) + [c]
    ensures s[rest..] == old(s[rest..])
  {
    s[i] := c;
  }

  // The next character of the text.
  lemma NextEncoded(s: seq<bool>, width: nat, i: nat)
    requires (width == 5 || width == 6) && width * i + width <= |s|
    ensures Encode(s, width, i + 1) == Encode(s, width, i) + [Tab(width, Digit(s, width, i))]
  {
    NextDigit(width, i);
    hide Digit, Tab;
  }

  lemma Next64(v: seq<Byte>, i: nat)
    requires 6 * i + 6 <= 8 * |v|
    ensures Encode(BitString(v), 6, i + 1) == Encode(BitString(v), 6, i) + [Tab64(Digit64(v, i))]
  {
    NextEncoded(BitString(v), 6, i);
    Digit64IsDigit(v, i);
    hide Encode, BitString, Digit, Digit64, Tab64;
  }

  // conv_base64
  method ConvBase64(s: array<char>, v: seq<Byte>, chars: nat)
    requires chars < s.Length && 6 * chars <= 8 * |v|
    modifies s
    ensures s[..chars] == Encode(BitString(v), 6, chars) && s[chars] == '\0'
    ensures s[chars + 1..] == old(s[chars + 1..])
  {
    var i := 0;
    assert Encode(BitString(v), 6, 0) == [];
    while i < chars
      invariant i <= chars && s[..i] == Encode(BitString(v), 6, i) && s[chars + 1..] == old(s[chars + 1..])
    {
      var c := Lookup64(v, i);
      Next64(v, i);
      hide *;
      Append(s, i, c, chars + 1);
      i := i + 1;
    }
    s[chars] := '\0';
  }

  // Case i % 4 of conv_base64.
  method Lookup64(v: seq<Byte>, i: nat) returns (c: char)
    requires 6 * i + 6 <= 8 * |v|
    ensures c == Tab64(Digit64(v, i))
  {
    hide Tab64;
    var j := i / 4 * 3;
    match i % 4 {
      case 0 => c := Tab64(v[j] / 4);
      case 1 => c := Tab64(v[j] % 4 * 16 + v[j + 1] / 16);
      case 2 => c := Tab64(v[j + 1] % 16 * 4 + v[j + 2] / 64);
      case _ => c := Tab64(v[j + 2] % 64);
    }
  }

  // The int that conv_base32 collects bytes in, as far as 32 bits go.
  function Collect(j: nat, b: Byte): (r: nat) {
    (j * 256 + b) % 0x1_0000_0000
  }

  lemma Pow2Of32()
    ensures Pow2(32) == 0x1_0000_0000
  {
    SmallPowers();
    Pow2Sum(8, 8);
    Pow2Sum(16, 16);
  }

  lemma {:induction false} Pow2Sum(a: nat, b: nat)
    ensures Pow2(a + b) == Pow2(a) * Pow2(b)
  {
    if a > 0 {
      Pow2Sum(a - 1, b);
    }
  }

  lemma CollectBits(j: nat, b: Byte, k: nat)
    requires k < 5
    ensures Bits(Collect(j, b), k + 8) == Bits(j, k) + Bits(b, 8)
  {
    var x := j * 256 + b;
    hide Bits;
    Pow2Of32();
    assert Pow2(8) == 256 by {
      SmallPowers();
    }
    BitsConcat(j, b, k, 8);
    assert x == x / 0x1_0000_0000 * 0x1_0000_0000 + x % 0x1_0000_0000;
    hide Pow2;
    BitsTruncate(x / 0x1_0000_0000, x % 0x1_0000_0000, k + 8, 32);
  }

  lemma TakeByte(v: seq<Byte>, j: nat, k: nat, p: nat)
    requires p < |v| && k < 5 && k <= 8 * p
    requires Bits(j, k) == BitString(v)[8 * p - k..8 * p]
    ensures Bits(Collect(j, v[p]), k + 8) == BitString(v)[8 * p - k..8 * p + 8]
  {
    hide Bits, BitString, Collect;
    CollectBits(j, v[p], k);
    BitStringAt(v, p);
    var s := BitString(v);
    assert s[8 * p - k..8 * p + 8] == s[8 * p - k..8 * p] + s[8 * p..8 * p + 8];
  }

  lemma Mod32(x: nat)
    ensures x % 32 == Value(Bits(x, 5))
  {
    hide Bits, Value;
    SmallPowers();
    hide Pow2;
    ValueOfBits(x % 32, 5);
    BitsTruncate(x / 32, x % 32, 5, 5);
  }

  lemma TakeDigit(v: seq<Byte>, j: nat, k: nat, i: nat)
    requires 5 <= k && 5 * i + k <= 8 * |v| && Bits(j, k) == BitString(v)[5 * i..5 * i + k]
    ensures Shift(j, k - 5) % 32 == Digit(BitString(v), 5, i)
    ensures Bits(j, k - 5) == BitString(v)[5 * i + 5..5 * i + k]
  {
    hide Bits, BitString, Shift, Value;
    var s, x := BitString(v), Shift(j, k - 5);
    BitsSplit(j, 5, k - 5);
    Mod32(x);
    assert s[5 * i..5 * i + k] == s[5 * i..5 * i + 5] + s[5 * i + 5..5 * i + k];
    ConcatInjective(Bits(x, 5), Bits(j, k - 5), s[5 * i..5 * i + 5], s[5 * i + 5..5 * i + k]);
  }

  // The bits in hand: k bits of j, which come just before byte p of v and are to be bits 5 * i on.
  ghost predicate InHand(v: seq<Byte>, i: nat, j: nat, k: nat, p: nat) {
    && 8 * p == 5 * i + k
    && p <= |v|
    && Bits(j, k) == BitString(v)[5 * i..5 * i + k]
  }

  // Top up to at least five bits, reading the next byte when there are fewer.
  method NextBits(v: seq<Byte>, ghost i: nat, j: nat, k: nat, p: nat) returns (j': nat, k': nat, p': nat)
    requires InHand(v, i, j, k, p) && 5 * i + 5 <= 8 * |v|
    ensures InHand(v, i, j', k', p') && 5 <= k'
    ensures if k < 5 then j' == Collect(j, v[p]) && k' == k + 8 && p' == p + 1 else j' == j && k' == k && p' == p
  {
    j', k', p' := j, k, p;
    if k < 5 {
      TakeByte(v, j, k, p);
      j', k', p' := Collect(j, v[p]), k + 8, p + 1;
    }
  }

  lemma UseDigit(v: seq<Byte>, i: nat, j: nat, k: nat, p: nat)
    requires InHand(v, i, j, k, p) && 5 <= k
    ensures 5 * i + 5 <= 8 * |v| && Shift(j, k - 5) % 32 == Digit(BitString(v), 5, i)
    ensures InHand(v, i + 1, j, k - 5, p)
  {
    hide Bits, BitString, Shift, Digit;
    TakeDigit(v, j, k, i);
  }

  lemma Next32(v: seq<Byte>, i: nat, j: nat, k: nat, p: nat)
    requires InHand(v, i, j, k, p) && 5 <= k
    ensures 5 * i + 5 <= 8 * |v| && InHand(v, i + 1, j, k - 5, p)
    ensures Encode(BitString(v), 5, i + 1) == Encode(BitString(v), 5, i) + [Tab32(Shift(j, k - 5) % 32)]
  {
    UseDigit(v, i, j, k, p);
    hide Bits, BitString, Shift, Digit, Encode, Tab32, InHand;
    NextEncoded(BitString(v), 5, i);
  }

  lemma NothingInHand(v: seq<Byte>)
    ensures InHand(v, 0, 0, 0, 0) && Encode(BitString(v), 5, 0) == []
  {
  }

  // conv_base32
  method ConvBase32(s: array<char>, v: seq<Byte>, chars: nat)
    requires chars < s.Length && 5 * chars <= 8 * |v|
    modifies s
    ensures s[..chars] == Encode(BitString(v), 5, chars) && s[chars] == '\0'
    ensures s[chars + 1..] == old(s[chars + 1..])
  {
    var i: nat, j: nat, k: nat, p: nat := 0, 0, 0, 0;
    NothingInHand(v);
    while i < chars
      invariant i <= chars && s[..i] == Encode(BitString(v), 5, i) && s[chars + 1..] == old(s[chars + 1..])
      invariant InHand(v, i, j, k, p)
    {
      hide *;
      assert 5 * i + 5 <= 8 * |v|;
      j, k, p := NextBits(v, i, j, k, p);
      Next32(v, i, j, k, p);
      Append(s, i, Tab32(Shift(j, k - 5) % 32), chars + 1);
      k := k - 5;
      i := i + 1;
    }
    s[chars] := '\0';
  }
}
