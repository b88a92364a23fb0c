/** The UDP checksum of a received datagram (net.c, net_process_received_packet). */
module UdpChecksum {
  import opened Basics

  // The big-endian word of two bytes.
  function Word(hi: Byte, lo: Byte): (w: nat)
    ensures w < 0x1_0000
  {
    var h: nat, l: nat := hi, lo;
    h * 256 + l
  }

  // The sum of the words of s; an odd byte at the end counts as if a zero byte followed it.
  function WordSum(s: seq<Byte>): nat {
    if s == [] then 0
    else if |s| == 1 then Word(s[0], 0)
    else Word(s[0], s[1]) + WordSum(s[2..])
  }

  /** A zero byte at the end of an odd segment makes no difference. */
  lemma {:induction false} PaddingIsZero(s: seq<Byte>)
    requires |s| % 2 == 1
    ensures WordSum(s + [0]) == WordSum(s)
  {
    if |s| > 1 {
      assert (s + [0])[2..] == s[2..] + [0];
      PaddingIsZero(s[2..]);
    }
  }

  /** The sum of two parts, of which the first has even length, is the sum of both. */
  lemma {:induction false} WordSumConcat(a: seq<Byte>, b: seq<Byte>)
    requires |a| % 2 == 0
    ensures WordSum(a + b) == WordSum(a) + WordSum(b)
  {
    if a == [] {
      assert a + b == b;
    } else {
      assert (a + b)[2..] == a[2..] + b;
      WordSumConcat(a[2..], b);
    }
  }

  // One folding step.
  function Fold(x: nat): nat {
    x % 0x1_0000 + x / 0x1_0000 % 0x1_0000
  }

  lemma FoldStep(x: nat)
    requires 0x1_0000 <= x < 0x1_0000_0000
    ensures 0 < Fold(x) < x && Fold(x) % 0xFFFF == x % 0xFFFF
  {
    var q, r := x / 0x1_0000, x % 0x1_0000;
    assert x == q * 0xFFFF + (q + r);
    assert Fold(x) == q + r;
  }

  /** Folding ends within 16 bits, with the sum's residue modulo 65535; only zero folds to zero. */
  function Folded(x: nat): (r: nat)
    requires x < 0x1_0000_0000
    ensures r < 0x1_0000 && r % 0xFFFF == x % 0xFFFF && (r == 0 <==> x == 0)
  {
    if x < 0x1_0000 then x else
      FoldStep(x);
      Folded(Fold(x))
  }

  lemma {:induction false} WordSumIsSmall(s: seq<Byte>)
    ensures WordSum(s) <= 0xFFFF * ((|s| + 1) / 2)
  {
    if |s| > 1 {
      WordSumIsSmall(s[2..]);
    }
  }

  /** A UDP datagram in memory: the addresses and the protocol of its IP header, and what follows the IP header. */
  datatype Packet = Packet(src: seq<Byte>, dst: seq<Byte>, protocol: Byte, data: seq<Byte>)

  predicate WellFormed(p: Packet) {
    |p.src| == 4 && |p.dst| == 4 && |p.data| >= 8 && UdpLen(p) <= |p.data|
  }

  function UdpLen(p: Packet): nat
    requires |p.data| >= 8
  {
    Word(p.data[4], p.data[5])
  }

  function Xsum(p: Packet): nat
    requires |p.data| >= 8
  {
    Word(p.data[6], p.data[7])
  }

  // The pseudo-header of RFC 768 and the segment.
  function Header(p: Packet): (h: seq<Byte>)
    requires WellFormed(p)
    ensures |h| == 12
  {
    p.src + p.dst + [0, p.protocol, p.data[4], p.data[5]]
  }

  function Checked(p: Packet): (s: seq<Byte>)
    requires WellFormed(p)
    ensures |s| == 12 + UdpLen(p)
  {
    Header(p) + p.data[..UdpLen(p)]
  }

  lemma HeaderSum(p: Packet)
    requires WellFormed(p)
    ensures WordSum(Header(p)) ==
            p.protocol + UdpLen(p) + Word(p.src[0], p.src[1]) + Word(p.src[2], p.src[3])
            + Word(p.dst[0], p.dst[1]) + Word(p.dst[2], p.dst[3])
  {
    var h := Header(p);
    assert h == [h[0], h[1], h[2], h[3], h[4], h[5], h[6], h[7], h[8], h[9], h[10], h[11]];
    assert WordSum(h[10..]) == Word(h[10], h[11]);
    assert WordSum(h[8..]) == Word(h[8], h[9]) + WordSum(h[8..][2..]) && h[8..][2..] == h[10..];
    assert WordSum(h[6..]) == Word(h[6], h[7]) + WordSum(h[6..][2..]) && h[6..][2..] == h[8..];
    assert WordSum(h[4..]) == Word(h[4], h[5]) + WordSum(h[4..][2..]) && h[4..][2..] == h[6..];
    assert WordSum(h[2..]) == Word(h[2], h[3]) + WordSum(h[2..][2..]) && h[2..][2..] == h[4..];
  }

  lemma CheckedSum(p: Packet)
    requires WellFormed(p)
    ensures WordSum(Checked(p)) == WordSum(Header(p)) + WordSum(p.data[..UdpLen(p)]) < 0x1_0000_0000
  {
    WordSumConcat(Header(p), p.data[..UdpLen(p)]);
    WordSumIsSmall(Checked(p));
  }

  predicate Passes(s: seq<Byte>) {
    WordSum(s) % 0xFFFF == 0
  }

  predicate Accepts(p: Packet)
    requires WellFormed(p)
  {
    Xsum(p) == 0 || Passes(Checked(p))
  }

  /** A datagram is accepted exactly when it carries no checksum or its words, the pseudo-header's included, sum to a
      multiple of 65535. */
  method Accept(p: Packet) returns (accepted: bool)
    requires WellFormed(p)
    ensures accepted <==> Accepts(p)
  {
    if Xsum(p) == 0 {
      return true;
    }
    HeaderSum(p);
    CheckedSum(p);
    var xsum: nat := p.protocol + UdpLen(p) + Word(p.src[0], p.src[1]) + Word(p.src[2], p.src[3])
                     + Word(p.dst[0], p.dst[1]) + Word(p.dst[2], p.dst[3]);
    var sumlen, sumptr := UdpLen(p), 0;
    ghost var s := p.data[..UdpLen(p)];
    hide WordSum, Word, Header, Checked;
    while sumlen > 1
      invariant sumptr + sumlen == |s| && xsum + WordSum(s[sumptr..]) == WordSum(Checked(p))
    {
      NextWord(s, sumptr);
      xsum := xsum + Word(p.data[sumptr], p.data[sumptr + 1]);
      sumptr, sumlen := sumptr + 2, sumlen - 2;
    }
    LastByte(s, sumptr);
    if sumlen > 0 {
      xsum := xsum + Word(p.data[sumptr], 0);
    }
    while xsum / 0x1_0000 != 0
      invariant xsum < 0x1_0000_0000 && xsum % 0xFFFF == WordSum(Checked(p)) % 0xFFFF
      decreases xsum
    {
      FoldStep(xsum);
      xsum := xsum % 0x1_0000 + xsum / 0x1_0000 % 0x1_0000;
    }
    accepted := xsum == 0 || xsum == 0xFFFF;
  }

  lemma NextWord(s: seq<Byte>, i: nat)
    requires i + 1 < |s|
    ensures WordSum(s[i..]) == Word(s[i], s[i + 1]) + WordSum(s[i + 2..])
  {
    assert s[i..][2..] == s[i + 2..];
  }

  lemma LastByte(s: seq<Byte>, i: nat)
    requires i <= |s| <= i + 1
    ensures WordSum(s[i..]) == if i < |s| then Word(s[i], 0) else 0
  {
  }

  // A word of s at an even place changes.
  lemma WordSumReplaced(s: seq<Byte>, i: nat, hi: Byte, lo: Byte)
    requires i % 2 == 0 && i + 1 < |s|
    ensures WordSum(s[i := hi][i + 1 := lo]) == WordSum(s) - Word(s[i], s[i + 1]) + Word(hi, lo)
    ensures WordSum(s) >= Word(s[i], s[i + 1])
  {
    var t := s[i := hi][i + 1 := lo];
    assert s == s[..i] + s[i..] && t == s[..i] + t[i..] && t[i + 2..] == s[i + 2..];
    WordSumConcat(s[..i], s[i..]);
    WordSumConcat(s[..i], t[i..]);
    NextWord(s, i);
    NextWord(t, i);
  }

  /** The word that RFC 768 has the sender put in the checksum field. */
  function SenderXsum(sum: nat): (c: nat)
    requires sum < 0x1_0000_0000
    ensures 0 < c < 0x1_0000 && (sum + c) % 0xFFFF == 0
  {
    var f := Folded(sum);
    if f == 0xFFFF then 0xFFFF else
      Complement(sum, f);
      0xFFFF - f
  }

  lemma Complement(sum: nat, f: nat)
    requires f <= 0xFFFF && f % 0xFFFF == sum % 0xFFFF
    ensures (sum + (0xFFFF - f)) % 0xFFFF == 0
  {
  }

  // The datagram with another word at an even place of the UDP header or the data.
  function WithWord(p: Packet, i: nat, hi: Byte, lo: Byte): Packet
    requires i + 1 < |p.data|
  {
    p.(data := p.data[i := hi][i + 1 := lo])
  }

  // It is checked like the old one with that word behind the pseudo-header; the length also counts there.
  lemma CheckedWithWord(p: Packet, i: nat, hi: Byte, lo: Byte)
    requires WellFormed(p) && i % 2 == 0 && i + 1 < UdpLen(p) && i != 4
    ensures var q, s := WithWord(p, i, hi, lo), Checked(p);
            && WellFormed(q) && 13 + i < |s| && s[12 + i] == p.data[i] && s[13 + i] == p.data[i + 1]
            && Checked(q) == s[12 + i := hi][13 + i := lo]
            && Xsum(q) == if i == 6 then Word(hi, lo) else Xsum(p)
  {
    var q := WithWord(p, i, hi, lo);
    assert q.data[4] == p.data[4] && q.data[5] == p.data[5];
    hide Word, Header;
  }

  lemma WordOf(c: nat)
    requires c < 0x1_0000
    ensures Word(c / 256, c % 256) == c
  {
  }

  /** What the sender of RFC 768 makes of a datagram with a zero checksum field is accepted, and it does carry a
      checksum. */
  lemma SentIsAccepted(p: Packet)
    requires WellFormed(p) && UdpLen(p) >= 8 && Xsum(p) == 0
    ensures WordSum(Checked(p)) < 0x1_0000_0000
    ensures var c := SenderXsum(WordSum(Checked(p)));
            var q := WithWord(p, 6, c / 256, c % 256);
            WellFormed(q) && Xsum(q) == c > 0 && Accepts(q)
  {
    CheckedSum(p);
    var c := SenderXsum(WordSum(Checked(p)));
    WordOf(c);
    CheckedWithWord(p, 6, c / 256, c % 256);
    WordSumReplaced(Checked(p), 18, c / 256, c % 256);
    hide WordSum, Word, Checked;
  }

  // A word of the checked bytes changes.
  lemma PassesAfterIff(s: seq<Byte>, i: nat, hi: Byte, lo: Byte)
    requires i % 2 == 0 && i + 1 < |s| && Passes(s)
    ensures Passes(s[i := hi][i + 1 := lo]) <==> SameWord(Word(s[i], s[i + 1]), Word(hi, lo))
  {
    WordSumReplaced(s, i, hi, lo);
    var w, w' := Word(s[i], s[i + 1]), Word(hi, lo);
    hide WordSum, Word;
    SameResidueIff(WordSum(s), w, w');
  }

  // Zero has two forms.
  predicate SameWord(w: nat, w': nat) {
    w == w' || (w == 0 && w' == 0xFFFF) || (w == 0xFFFF && w' == 0)
  }

  /** A change of one word of an accepted datagram with a checksum, other than its length, is noticed unless the word
      changes between 0 and 0xFFFF or the checksum itself becomes 0. */
  lemma OneWordChangeIsNoticedIff(p: Packet, i: nat, hi: Byte, lo: Byte)
    requires WellFormed(p) && Xsum(p) != 0 && Accepts(p)
    requires i % 2 == 0 && i + 1 < UdpLen(p) && i != 4
    ensures WellFormed(WithWord(p, i, hi, lo))
    ensures Accepts(WithWord(p, i, hi, lo)) <==>
              SameWord(Word(p.data[i], p.data[i + 1]), Word(hi, lo)) || (i == 6 && Word(hi, lo) == 0)
  {
    CheckedWithWord(p, i, hi, lo);
    PassesAfterIff(Checked(p), 12 + i, hi, lo);
    hide Passes, Word, Checked;
  }

  /** The same for a word of the two addresses. */
  lemma AddressChangeIsNoticedIff(p: Packet, toDst: bool, i: nat, hi: Byte, lo: Byte)
    requires WellFormed(p) && Xsum(p) != 0 && Accepts(p) && (i == 0 || i == 2)
    ensures var a := if toDst then p.dst else p.src;
            var a' := a[i := hi][i + 1 := lo];
            var q := if toDst then p.(dst := a') else p.(src := a');
            WellFormed(q) && (Accepts(q) <==> SameWord(Word(a[i], a[i + 1]), Word(hi, lo)))
  {
    var a := if toDst then p.dst else p.src;
    var at := if toDst then 4 + i else i;
    var q := if toDst then p.(dst := a[i := hi][i + 1 := lo]) else p.(src := a[i := hi][i + 1 := lo]);
    var s := Checked(p);
    assert s[at] == a[i] && s[at + 1] == a[i + 1];
    assert Checked(q) == s[at := hi][at + 1 := lo];
    PassesAfterIff(s, at, hi, lo);
    hide Passes, Word, Checked;
  }

  lemma SameResidueIff(sum: nat, w: nat, w': nat)
    requires sum % 0xFFFF == 0 && w <= sum && w < 0x1_0000 && w' < 0x1_0000
    ensures (sum - w + w') % 0xFFFF == 0 <==> SameWord(w, w')
  {
  }

  // Two bytes in network order.
  function Network(v: nat): (b: seq<Byte>)
    requires v < 0x1_0000
    ensures |b| == 2
  {
    [v / 256, v % 256]
  }

  /** The datagram of RFC 768: ports, length and checksum, then the data. */
  function Datagram(src: seq<Byte>, dst: seq<Byte>, sport: nat, dport: nat, xsum: nat, data: seq<Byte>): (p: Packet)
    requires |src| == |dst| == 4 && sport < 0x1_0000 && dport < 0x1_0000 && xsum < 0x1_0000 && 8 + |data| < 0x1_0000
  {
    Packet(src, dst, 17, Network(sport) + Network(dport) + Network(8 + |data|) + Network(xsum) + data)
  }

  // The sum over its pseudo-header, header and data, the checksum aside.
  function FieldSum(src: seq<Byte>, dst: seq<Byte>, sport: nat, dport: nat, data: seq<Byte>): int {
    WordSum(src) + WordSum(dst) + 17 + 2 * (8 + |data|) + sport + dport + WordSum(data)
  }

  lemma NetworkSum(v: nat)
    requires v < 0x1_0000
    ensures WordSum(Network(v)) == v == Word(Network(v)[0], Network(v)[1])
  {
  }

  lemma HeadFields(a: nat, b: nat, c: nat, d: nat, data: seq<Byte>)
    requires a < 0x1_0000 && b < 0x1_0000 && c < 0x1_0000 && d < 0x1_0000
    ensures var s := Network(a) + Network(b) + Network(c) + Network(d) + data;
      && |s| == 8 + |data| && Word(s[4], s[5]) == c && Word(s[6], s[7]) == d && s[4..6] == Network(c)
      && WordSum(s) == a + b + c + d + WordSum(data)
  {
    NetworkSum(a);
    NetworkSum(b);
    NetworkSum(c);
    NetworkSum(d);
    hide WordSum, Word, Network;
    WordSumConcat(Network(a), Network(b));
    WordSumConcat(Network(a) + Network(b), Network(c));
    WordSumConcat(Network(a) + Network(b) + Network(c), Network(d));
    WordSumConcat(Network(a) + Network(b) + Network(c) + Network(d), data);
  }

  lemma PseudoSum(p: Packet, n: nat)
    requires WellFormed(p) && n < 0x1_0000 && p.data[4..6] == Network(n)
    ensures WordSum(Header(p)) == WordSum(p.src) + WordSum(p.dst) + p.protocol + n
  {
    var proto: seq<Byte> := [0, p.protocol];
    assert WordSum(proto) == p.protocol;
    assert p.data[4..6] == [p.data[4], p.data[5]];
    NetworkSum(n);
    assert Header(p) == p.src + p.dst + proto + Network(n);
    hide WordSum, Network, Header;
    WordSumConcat(p.src, p.dst);
    WordSumConcat(p.src + p.dst, proto);
    WordSumConcat(p.src + p.dst + proto, Network(n));
  }

  /** In terms of its fields: such a datagram is accepted exactly if it has no checksum, or the checksum and the other
      fields, the length counted twice, sum to a multiple of 65535. */
  lemma DatagramIsAcceptedIff(src: seq<Byte>, dst: seq<Byte>, sport: nat, dport: nat, xsum: nat, data: seq<Byte>)
    requires |src| == |dst| == 4 && sport < 0x1_0000 && dport < 0x1_0000 && xsum < 0x1_0000 && 8 + |data| < 0x1_0000
    ensures var p := Datagram(src, dst, sport, dport, xsum, data);
            WellFormed(p)
            && (Accepts(p) <==> xsum == 0 || (FieldSum(src, dst, sport, dport, data) + xsum) % 0xFFFF == 0)
  {
    var p, n := Datagram(src, dst, sport, dport, xsum, data), 8 + |data|;
    HeadFields(sport, dport, n, xsum, data);
    hide WordSum, Word, Network, Header, Checked;
    PseudoSum(p, n);
    assert p.data[..UdpLen(p)] == p.data;
    CheckedSum(p);
  }
}
