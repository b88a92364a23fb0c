/** IP fragment reassembly: __net_defragment of net/net.c.

    The hole descriptors live in the payload buffer, each in the first 8 bytes of its own hole, and
    fragment data is copied over them.  The class keeps the bytes; the ghost fields say which hole
    list (module HoleList) those bytes encode. */
module Reassembly {
  import opened Basics
  import opened HoleList
  import opened HoleRuns
  import opened HoleTable

  const HDR: nat := 20          // IP_HDR_SIZE
  const PKTSIZE: nat := 16384   // IP_PKTSIZE, the default CONFIG_NET_MAXDEFRAG

  // Where a block begins that is only partly in the buffer: 16364 rounded down to whole blocks.
  const CAPACITY: nat := 16360

  const BLOCKS: nat := 2045     // whole 8-byte blocks of payload

  function Ntohs(ip: seq<Byte>, at: nat): (v: nat)
    requires at + 2 <= |ip|
    ensures v < 0x10000
  {
    var hi: int, lo: int := ip[at], ip[at + 1];
    256 * hi + lo
  }

  // The fields of a received IP header: total length at 2, identification at 4, flags and offset at 6.
  function IpLen(ip: seq<Byte>): nat
    requires HDR <= |ip|
  {
    Ntohs(ip, 2)
  }

  function Offset8(ip: seq<Byte>): nat
    requires HDR <= |ip|
  {
    Ntohs(ip, 6) % 0x2000
  }

  predicate MoreFragments(ip: seq<Byte>)
    requires HDR <= |ip|
  {
    Ntohs(ip, 6) / 0x2000 % 2 == 1
  }

  function SpanOfPacket(ip: seq<Byte>): Span
    requires HDR <= |ip| && HDR <= IpLen(ip)
  {
    Span(8 * Offset8(ip), 8 * Offset8(ip) + IpLen(ip) - HDR, MoreFragments(ip))
  }

  predicate TooFar(ip: seq<Byte>)
    requires HDR <= |ip| && HDR <= IpLen(ip)
  {
    SpanOfPacket(ip).end > MAXUDP
  }

  // The packet is a non-empty fragment of the datagram with payload data, and there is room for a
  // descriptor behind it if it is not the last one.
  ghost predicate PieceOf(ip: seq<Byte>, data: seq<Byte>)
    requires HDR < |ip| && HDR < IpLen(ip) <= |ip|
  {
    var f := SpanOfPacket(ip);
    && f.end <= |data| <= MAXUDP
    && (f.more <==> f.end < |data|)
    && (f.more ==> f.end % 8 == 0 && f.end < CAPACITY)
    && ip[HDR..IpLen(ip)] == data[f.start..f.end]
  }

  // The header with its total-length field overwritten; the code stores the payload length there.
  function WithLength(header: seq<Byte>, n: nat): seq<Byte>
    requires |header| == HDR && n < 0x10000
  {
    header[2 := n / 256][3 := n % 256]
  }

  // Its bytes: the length high byte first, and the others as they were.
  ghost predicate LengthAndHeader(packet: seq<Byte>, header: seq<Byte>, n: nat) {
    && |packet| == 20 + n && 20 <= |header|
    && packet[2] == n / 256 && packet[3] == n % 256
    && packet[..2] == header[..2] && packet[4..20] == header[4..20]
  }

  lemma WithLengthBytes(packet: seq<Byte>, header: seq<Byte>, n: nat)
    requires |header| == HDR && n < 0x10000 && |packet| == HDR + n && packet[..HDR] == WithLength(header, n)
    ensures LengthAndHeader(packet, header, n)
  {
    var p, w := packet[..HDR], WithLength(header, n);
    assert packet[2] == p[2] == w[2] && packet[3] == p[3] == w[3];
    assert packet[..2] == p[..2] == w[..2] == header[..2];
    assert packet[4..20] == p[4..20] == w[4..20] == header[4..20];
  }

  // The bound check in terms of the header bytes: length 2 and 3, offset in the low 13 bits of 6 and 7.
  ghost predicate ReachesTooFar(ip: seq<Byte>)
    requires 20 <= |ip|
  {
    var high: int, low: int, place: int, below: int := ip[2], ip[3], ip[6], ip[7];
    8 * (place % 32 * 256 + below) + (256 * high + low - 20) > 16384 - 20
  }

  lemma TooFarIff(ip: seq<Byte>)
    requires HDR <= |ip| && HDR <= IpLen(ip)
    ensures TooFar(ip) <==> ReachesTooFar(ip)
    ensures TooFar(ip) <==> 8 * Offset8(ip) + (IpLen(ip) - HDR) > MAXUDP
  {
    OffsetBytes(ip[6], ip[7]);
  }

  lemma OffsetBytes(hi: int, lo: int)
    requires 0 <= hi < 256 && 0 <= lo < 256
    ensures (256 * hi + lo) % 0x2000 == hi % 32 * 256 + lo
    ensures (256 * hi + lo) / 0x2000 % 2 == 1 <==> hi % 64 >= 32
  {
    var q, r := hi / 32, hi % 32;
    assert hi == 32 * q + r;
    assert 256 * hi + lo == 0x2000 * q + (256 * r + lo);
    assert (256 * hi + lo) / 0x2000 == q;
  }

  // Every descriptor of the list lies inside the buffer.
  ghost predicate InBuffer(hs: seq<Hole>) {
    forall i | 0 <= i < |hs| :: HDR + 8 * Block(hs[i]) + 8 <= PKTSIZE
  }

  /** The bound check of the code does not keep the descriptors inside the buffer.  In all runs of a
      datagram they stay inside exactly if no piece but the last ends at byte CAPACITY. */
  lemma DescriptorFitsBehind(c: seq<nat>)
    requires IsCut(c)
    ensures (forall arrivals: seq<nat> | Indices(c, arrivals) :: InBuffer(Run(c, arrivals).holes))
       <==> forall k | 0 <= k < |c| - 2 :: SpanOf(c, k).end != CAPACITY
  {
    if k :| 0 <= k < |c| - 2 && SpanOf(c, k).end == CAPACITY {
      DescriptorBehindBuffer(c, k);
    } else {
      forall arrivals: seq<nat> | Indices(c, arrivals)
        ensures InBuffer(Run(c, arrivals).holes)
      {
        RunConsistent(c, arrivals);
        StartsInBuffer(c, Run(c, arrivals).holes);
      }
    }
  }

  lemma StartsInBuffer(c: seq<nat>, hs: seq<Hole>)
    requires IsCut(c) && OnCuts(hs, c) && forall k | 0 <= k < |c| - 2 :: SpanOf(c, k).end != CAPACITY
    ensures InBuffer(hs)
  {
    forall i | 0 <= i < |hs|
      ensures HDR + 8 * Block(hs[i]) + 8 <= PKTSIZE
    {
      var m :| 0 <= m < |c| - 1 && c[m] == hs[i].first;
      assert m > 0 ==> SpanOf(c, m - 1).end == c[m];
    }
  }

  // The piece that ends there leaves a hole that begins there, whichever comes first.
  lemma DescriptorBehindBuffer(c: seq<nat>, k: nat)
    requires IsCut(c) && k < |c| - 2 && SpanOf(c, k).end == CAPACITY
    ensures Indices(c, [k]) && !InBuffer(Run(c, [k]).holes)
  {
    var f, hs := SpanOf(c, k), Run(c, [k]).holes;
    assert [k][..0] == [] && Run(c, []) == FRESH && Run(c, [k]) == Step(FRESH, f);
    assert Find(FRESH.holes, f.start) == 0 && hs == Rest(FRESH.holes[0], f);
    assert hs[|hs| - 1] == Hole(CAPACITY, OPEN);
  }

  class Reassembler {
    const buf: array<Byte>
    var firstHole: nat
    var totalLen: nat

    ghost var holes: seq<Hole>   // what the descriptors encode
    ghost var lost: nat          // end of the stretch forgotten by a clash

    constructor ()
      ensures Valid() && totalLen == 0 && fresh(buf)
    {
      buf := new Byte[PKTSIZE](_ => 0);
      firstHole, totalLen := 0, 0;
      holes, lost := [], 0;
    }

    ghost function Abstract(): State
      reads this
    {
      State(holes, lost, holes == [])
    }

    // A 16-bit field of the buffer, in the byte order of the machine.
    function Get16(at: nat): (v: nat)
      requires at + 2 <= buf.Length
      reads buf
      ensures v < 0x10000
    {
      var lo: int, hi: int := buf[at], buf[at + 1];
      lo + 256 * hi
    }

    function Desc(b: nat): Descriptor
      requires buf.Length == PKTSIZE && b < BLOCKS
      reads buf
    {
      Descriptor(Get16(HDR + 8 * b), Get16(HDR + 8 * b + 2), Get16(HDR + 8 * b + 4))
    }

    // The payload seen as an array of descriptors.
    ghost function Table(): seq<Descriptor>
      requires buf.Length == PKTSIZE
      reads buf
    {
      seq(BLOCKS, b requires 0 <= b < BLOCKS reads buf => Desc(b))
    }

    ghost predicate Linked(hs: seq<Hole>)
      requires buf.Length == PKTSIZE
      reads this, buf
    {
      hs != [] && Encodes(Table(), hs) && firstHole == Block(hs[0])
    }

    ghost predicate Valid()
      reads this, buf
    {
      && buf.Length == PKTSIZE && totalLen <= 0xffff
      && Consistent(Abstract())
      && (holes != [] ==> Linked(holes))
    }

    // Byte q of the buffer belongs to block b.
    ghost predicate InBlock(b: nat, q: nat) {
      HDR + 8 * b <= q < HDR + 8 * b + 8
    }

    // Only the 8 bytes of block b may differ from the old state.
    twostate predicate OnlyBlock(b: nat)
      reads buf
    {
      forall q: nat | q < buf.Length && !InBlock(b, q) :: buf[q] == old(buf[q])
    }

    method Put16(at: nat, v: nat)
      requires at + 2 <= buf.Length && v < 0x10000
      modifies buf
      ensures Get16(at) == v
      ensures forall q | 0 <= q < buf.Length && q != at && q != at + 1 :: buf[q] == old(buf[q])
    {
      buf[at], buf[at + 1] := v % 256, v / 256;
    }

    method SetLast(b: nat, v: nat)
      requires buf.Length == PKTSIZE && b < BLOCKS && v < 0x10000
      modifies buf
      ensures OnlyBlock(b) && Table() == old(Table())[b := old(Table()[b]).(last := v)]
    {
      Put16(HDR + 8 * b, v);
    }

    method SetNext(b: nat, v: nat)
      requires buf.Length == PKTSIZE && b < BLOCKS && v < 0x10000
      modifies buf
      ensures OnlyBlock(b) && Table() == old(Table())[b := old(Table()[b]).(next := v)]
    {
      Put16(HDR + 8 * b + 2, v);
    }

    method SetPrev(b: nat, v: nat)
      requires buf.Length == PKTSIZE && b < BLOCKS && v < 0x10000
      modifies buf
      ensures OnlyBlock(b) && Table() == old(Table())[b := old(Table()[b]).(prev := v)]
    {
      Put16(HDR + 8 * b + 4, v);
    }

    // *newh = *h
    method CopyDescriptor(from: nat, to: nat)
      requires buf.Length == PKTSIZE && from < BLOCKS && to < BLOCKS && from != to
      modifies buf
      ensures OnlyBlock(to) && Table() == old(Table())[to := old(Table()[from])]
    {
      forall k | 0 <= k < 8 {
        buf[HDR + 8 * to + k] := buf[HDR + 8 * from + k];
      }
      assert forall b: nat | b < BLOCKS && b != to :: Desc(b) == old(Desc(b));
      assert Desc(to) == old(Desc(from));
    }

    // Byte q belongs to no descriptor of the list.
    ghost predicate Outside(hs: seq<Hole>, q: nat) {
      forall i | 0 <= i < |hs| :: !InBlock(Block(hs[i]), q)
    }

    // Byte q is the header's or part of the payload that is not missing.
    ghost predicate Settled(hs: seq<Hole>, q: nat) {
      q < HDR || !Missing(hs, q - HDR)
    }

    lemma LinksOutside(hs: seq<Hole>, i: nat, d: Descriptor)
      requires buf.Length == PKTSIZE && Linked(hs) && i < |hs| && d == Table()[Block(hs[i])]
      ensures d.next < BLOCKS && d.prev < BLOCKS
      ensures forall q: nat | Outside(hs, q) ::
                (d.next != 0 ==> !InBlock(d.next, q)) && (d.prev != 0 ==> !InBlock(d.prev, q))
    {
      Links(Table(), hs, i);
      hide InBlock, Encodes, Block, DescriptorOf, Desc, Table;
    }

    // Removes hole i, whose block number is h, from the list.
    method Unlink(ghost hs: seq<Hole>, ghost i: nat, h: nat) returns (done: bool)
      requires buf.Length == PKTSIZE && Linked(hs) && i < |hs| && h == Block(hs[i])
      modifies this`firstHole, buf
      ensures done <==> Without(hs, i) == []
      ensures !done ==> Linked(Without(hs, i))
      ensures forall q: nat | q < buf.Length && Outside(hs, q) :: buf[q] == old(buf[q])
    {
      var d := Desc(h);
      ghost var t := Table();
      assert d == t[h];
      Unlinked(t, hs, i);
      LinksOutside(hs, i, d);
      hide Encodes, Without, Block, DescriptorOf, Desc, Table, Outside, InBlock;
      done := false;
      if d.prev == 0 && d.next == 0 {
        done := true;
      } else if d.prev == 0 {
        firstHole := d.next;
        SetPrev(d.next, 0);
      } else if d.next == 0 {
        SetNext(d.prev, 0);
      } else {
        SetPrev(d.next, d.prev);
        SetNext(d.prev, d.next);
      }
      assert !done ==> Table() == UnlinkedTable(t, d);
    }

    // Moves the start of hole i from block h to block nb.
    method MoveHole(ghost hs: seq<Hole>, ghost i: nat, h: nat, nb: nat)
      requires buf.Length == PKTSIZE && Linked(hs) && i < |hs| && h == Block(hs[i])
      requires h < nb < BLOCKS && (i + 1 < |hs| ==> nb < Block(hs[i + 1]))
      modifies this`firstHole, buf
      ensures Linked(Replaced(hs, i, Hole(8 * nb, hs[i].last)))
      ensures forall q: nat | q < buf.Length && Outside(hs, q) && !InBlock(nb, q) :: buf[q] == old(buf[q])
    {
      var d := Desc(h);
      ghost var t := Table();
      assert d == t[h] == DescriptorOf(hs, i);
      ghost var clash := i == 1 && hs[0].first == 0;
      if clash {
        ForgetBlockZero(t, hs);
        Move(t, hs[1..], 0, nb);
      } else {
        Move(t, hs, i, nb);
      }
      CopyDescriptor(h, nb);
      ghost var u := t[nb := t[h]];
      assert Table() == u;
      if d.next != 0 {
        SetPrev(d.next, nb);
        u := u[d.next := u[d.next].(prev := nb)];
      }
      assert Table() == u;
      if d.prev != 0 {
        SetNext(d.prev, nb);
        u := u[d.prev := u[d.prev].(next := nb)];
      } else {
        firstHole := nb;
      }
      assert Table() == u == if clash then MovedTable(t, hs[1..], 0, nb) else MovedTable(t, hs, i, nb);
    }

    // The two descriptors of a split hole: *newh = *h, and the links between them.
    method SplitDescriptors(h: nat, s: nat, nb: nat)
      requires buf.Length == PKTSIZE && h < BLOCKS && nb < BLOCKS && h != nb && s < 0x10000
      modifies buf
      ensures var t := old(Table()); var u := t[nb := t[h]][h := t[h].(last := s, next := nb)];
              Table() == u[nb := u[nb].(prev := h)]
      ensures forall q: nat | q < buf.Length && !InBlock(h, q) && !InBlock(nb, q) :: buf[q] == old(buf[q])
    {
      CopyDescriptor(h, nb);
      SetLast(h, s);
      SetNext(h, nb);
      SetPrev(nb, h);
    }

    // Splits hole i at byte s; its second part starts at block nb.
    method SplitHole(ghost hs: seq<Hole>, ghost i: nat, h: nat, s: nat, nb: nat)
      requires buf.Length == PKTSIZE && Linked(hs) && i < |hs| && h == Block(hs[i])
      requires h < nb < BLOCKS && (i + 1 < |hs| ==> nb < Block(hs[i + 1])) && s < 0x10000
      modifies buf
      ensures Linked(hs[..i] + [Hole(hs[i].first, s), Hole(8 * nb, hs[i].last)] + hs[i + 1..])
      ensures forall q: nat | q < buf.Length && Outside(hs, q) && !InBlock(nb, q) :: buf[q] == old(buf[q])
    {
      ghost var t := Table();
      var next := Desc(h).next;
      assert Desc(h) == t[h] == DescriptorOf(hs, i);
      Split(t, hs, i, s, nb);
      assert next < BLOCKS && (next != 0 ==> i + 1 < |hs| && next == Block(hs[i + 1]) && next != nb && next != h);
      hide Encodes, DescriptorOf, Placed;
      SplitDescriptors(h, s, nb);
      ghost var u := Table();
      assert Desc(nb).next == u[nb].next == next;
      if next != 0 {
        SetPrev(next, nb);
        u := u[next := u[next].(prev := nb)];
      }
      assert Table() == u == SplitTable(t, hs, i, s, nb);
    }

    // h is block i of the list, the first hole that does not end before start.
    method Walk(start: nat) returns (found: bool, h: nat, ghost i: nat)
      requires Valid() && holes != []
      ensures found <==> exists j :: 0 <= j < |holes| && start <= holes[j].last
      ensures i <= |holes| && (found <==> i < |holes|)
      ensures forall j | 0 <= j < i :: holes[j].last < start
      ensures found ==> h == Block(holes[i]) && start <= holes[i].last
    {
      h, i := firstHole, 0;
      assert Desc(h) == Table()[h] == DescriptorOf(holes, 0);
      while Desc(h).last < start
        invariant i < |holes| && h == Block(holes[i]) && h < BLOCKS
        invariant Desc(h) == DescriptorOf(holes, i)
        invariant forall j | 0 <= j < i :: holes[j].last < start
        decreases |holes| - i
      {
        if Desc(h).next == 0 {
          return false, h, |holes|;
        }
        h, i := Desc(h).next, i + 1;
        assert Desc(h) == Table()[h] == DescriptorOf(holes, i);
      }
      found := true;
    }

    // If hole i goes on behind the fragment, its descriptor can move there.
    ghost predicate Room(hs: seq<Hole>, i: nat, f: Span)
      requires i < |hs|
    {
      f.end < hs[i].last ==>
        && f.end == 8 * (f.end / 8) && Block(hs[i]) < f.end / 8 < BLOCKS
        && (i + 1 < |hs| ==> f.end / 8 < Block(hs[i + 1]))
    }

    // Takes the bytes of the fragment out of hole i.
    method Cut(ghost hs: seq<Hole>, ghost i: nat, h: nat, f: Span) returns (done: bool)
      requires buf.Length == PKTSIZE && Linked(hs) && i < |hs| && h == Block(hs[i])
      requires f.start % 8 == 0 && f.start < 0x10000
      requires Room(hs, i, f)
      modifies this`firstHole, buf
      ensures done <==> CutList(hs, i, f) == []
      ensures !done ==> Linked(CutList(hs, i, f))
      ensures forall q: nat | q < buf.Length && Outside(hs, q) && (f.end < hs[i].last ==> !InBlock(f.end / 8, q))
                :: buf[q] == old(buf[q])
    {
      var last := Desc(h).last;
      assert last == Table()[h].last == DescriptorOf(hs, i).last == hs[i].last;
      done := false;
      if h >= f.start / 8 && last <= f.end {
        done := Unlink(hs, i, h);
      } else if last <= f.end {
        Shorten(Table(), hs, i, f.start);
        SetLast(h, f.start);
      } else if h >= f.start / 8 {
        MoveHole(hs, i, h, f.end / 8);
      } else {
        SplitHole(hs, i, h, f.start, f.end / 8);
      }
    }

    // Descriptors lie inside the holes they describe ...
    lemma DescriptorsNotSettled(before: seq<Hole>, hs: seq<Hole>)
      requires WellFormed(before) && Placed(hs, BLOCKS)
      requires |hs| == |before| && forall j | 0 <= j < |hs| :: hs[j].first == before[j].first
      ensures forall q: nat | Settled(before, q) :: Outside(hs, q)
    {
      forall q: nat, j: nat | Settled(before, q) && j < |hs|
        ensures !InBlock(Block(hs[j]), q)
      {
        if InBlock(Block(hs[j]), q) {
          BlockInHole(before, j, before[j].first, q - HDR);
        }
      }
    }

    // ... and so does a new one behind the fragment.
    lemma BehindNotSettled(before: seq<Hole>, f: Span, i: nat)
      requires WellFormed(before) && Inside(before, i, f)
      requires f.more && f.end < before[i].last && f.end / 8 < BLOCKS
      ensures forall q: nat | Settled(before, q) :: !InBlock(f.end / 8, q)
    {
      forall q: nat | Settled(before, q)
        ensures !InBlock(f.end / 8, q)
      {
        if InBlock(f.end / 8, q) {
          BlockInHole(before, i, f.end, q - HDR);
        }
      }
    }

    lemma BlockInHole(hs: seq<Hole>, j: nat, at: nat, p: nat)
      requires WellFormed(hs) && j < |hs| && at % 8 == 0 && at / 8 < BLOCKS
      requires hs[j].first <= at < hs[j].last && at <= p < at + 8
      ensures Missing(hs, p)
    {
      assert hs[j].first <= p < hs[j].last;
    }

    // memcpy of the fragment's payload; the descriptors of the holes that are left are not hit.
    method CopyIn(ip: seq<Byte>, f: Span)
      requires Valid() && f.start < f.end <= MAXUDP && HDR + f.end - f.start <= |ip|
      requires Avoid(holes, f)
      modifies buf
      ensures Valid()
      ensures forall q | 0 <= q < buf.Length ::
                buf[q] == if HDR + f.start <= q < HDR + f.end then ip[q - f.start] else old(buf[q])
    {
      forall k | HDR <= k < HDR + f.end - f.start {
        buf[f.start + k] := ip[k];
      }
      assert forall b: nat | b < BLOCKS && (8 * b + 8 <= f.start || f.end <= 8 * b) :: Desc(b) == old(Desc(b));
      if holes != [] {
        OverwriteOutsideHoles(old(Table()), Table(), holes, f);
      }
    }

    // A different datagram than the one being assembled, or none being assembled.
    predicate Restarts(ip: seq<Byte>)
      requires buf.Length == PKTSIZE && HDR <= |ip|
      reads this, buf
    {
      totalLen == 0 || buf[4] != ip[4] || buf[5] != ip[5]
    }

    // Every byte of data that is neither missing nor forgotten is in the buffer.
    ghost predicate Stored(bytes: seq<Byte>, s: State, data: seq<Byte>)
      requires |bytes| == PKTSIZE && |data| <= MAXUDP
    {
      forall p: nat | s.lost <= p < |data| && !Missing(s.holes, p) :: bytes[HDR + p] == data[p]
    }

    // The buffer is part way through the datagram with payload data.
    ghost predicate Assembling(data: seq<Byte>)
      reads this, buf
    {
      && buf.Length == PKTSIZE && lost <= |data| <= MAXUDP
      && Below(holes, |data|) && Stored(buf[..], Abstract(), data)
      && totalLen == if OpenEnded(holes) then OPEN else |data|
    }

    // The state a fragment meets: a fresh one if it starts a new datagram.
    ghost function StartingState(ip: seq<Byte>): State
      requires buf.Length == PKTSIZE && HDR <= |ip|
      reads this, buf
    {
      if Restarts(ip) then FRESH else Abstract()
    }

    // The first 20 bytes once this fragment has been looked at.
    ghost function StartingHeader(ip: seq<Byte>): seq<Byte>
      requires buf.Length == PKTSIZE && HDR <= |ip|
      reads this, buf
    {
      if Restarts(ip) then ip[..HDR] else buf[..HDR]
    }

    // One hole without an end at block 0.
    method FirstHole()
      requires buf.Length == PKTSIZE
      modifies this`firstHole, buf
      ensures firstHole == 0 && Desc(0) == Descriptor(OPEN, 0, 0)
    {
      SetLast(0, OPEN);
      SetNext(0, 0);
      SetPrev(0, 0);
      firstHole := 0;
      assert Desc(0) == Table()[0];
    }

    // The header is copied in front of the descriptors.
    method CopyHeader(ip: seq<Byte>)
      requires buf.Length == PKTSIZE && HDR <= |ip|
      modifies buf
      ensures buf[..HDR] == ip[..HDR] && Desc(0) == old(Desc(0))
    {
      forall k | 0 <= k < HDR {
        buf[k] := ip[k];
      }
    }

    lemma OneHole()
      requires buf.Length == PKTSIZE && firstHole == 0 && Desc(0) == Descriptor(OPEN, 0, 0)
      ensures Linked([Hole(0, OPEN)]) && Consistent(FRESH)
    {
      assert Table()[0] == Desc(0);
    }

    method Reset(ip: seq<Byte>)
      requires Valid() && HDR <= |ip|
      modifies this, buf
      ensures Valid() && Abstract() == FRESH && totalLen == OPEN
      ensures buf[..HDR] == ip[..HDR]
    {
      totalLen := OPEN;
      FirstHole();
      CopyHeader(ip);
      holes, lost := [Hole(0, OPEN)], 0;
      OneHole();
      hide Linked, Desc, Consistent;
    }

    // Lines 916-925: a new (or different) datagram resets the structures.
    method Begin(ip: seq<Byte>, ghost data: seq<Byte>)
      requires Valid() && HDR <= |ip| && 0 < |data| <= MAXUDP
      requires !Restarts(ip) ==> holes != [] && Assembling(data)
      modifies this, buf
      ensures Valid() && holes != [] && Assembling(data)
      ensures Abstract() == old(StartingState(ip)) && buf[..HDR] == old(StartingHeader(ip))
    {
      if Restarts(ip) {
        Reset(ip);
        forall p: nat | p < |data|
          ensures Missing(holes, p)
        {
          assert holes[0].first <= p < holes[0].last;
        }
      }
    }

    // Lines 1008-1013: hand over the finished packet.
    method Deliver(ghost data: seq<Byte>) returns (packet: seq<Byte>)
      requires Valid() && holes == [] && Assembling(data)
      modifies buf
      ensures Valid() && Assembling(data)
      ensures packet == buf[..HDR + |data|] && packet[HDR + lost..] == data[lost..]
      ensures LengthAndHeader(packet, old(buf[..HDR]), |data|)
    {
      ghost var header := buf[..HDR];
      buf[2], buf[3] := totalLen / 256, totalLen % 256;
      packet := buf[..totalLen + HDR];
      WithLengthBytes(packet, header, |data|);
      assert forall p: nat | lost <= p < |data| :: buf[HDR + p] == old(buf[..])[HDR + p] == data[p];
    }

    lemma TruncateFacts(f: Span, h: nat, i: nat)
      requires Valid() && FoundAt(holes, i, f) && h == Block(holes[i])
      ensures buf.Length == PKTSIZE && i < |holes| && h < BLOCKS && |Table()| == BLOCKS
      ensures var ts := Truncated(holes, i, f);
        && ts != [] && Block(ts[0]) == firstHole
        && if f.more then Encodes(Table(), ts) else Encodes(Table()[h := Table()[h].(last := f.end)], ts)
      ensures forall q: nat | Outside(holes, q) :: !InBlock(h, q)
    {
      Shorten(Table(), holes, i, Truncated(holes, i, f)[i].last);
      assert f.more ==> Truncated(holes, i, f) == holes;
      hide InBlock, Desc, Table;
    }

    // Lines 949-953: the last fragment fixes the length and cuts off the open end.
    method Truncate(f: Span, h: nat, ghost i: nat)
      requires Valid() && f.end < OPEN && FoundAt(holes, i, f) && h == Block(holes[i])
      modifies this`totalLen, buf
      ensures Linked(Truncated(holes, i, f))
      ensures totalLen == if f.more then old(totalLen) else f.end
      ensures forall q: nat | q < buf.Length && Outside(holes, q) :: buf[q] == old(buf[q])
    {
      hide Encodes, Block, Outside, InBlock, Desc, Table, Truncated, Consistent, FoundAt, Valid, Abstract;
      TruncateFacts(f, h, i);
      if !f.more {
        totalLen := f.end;
        SetLast(h, f.end);
      }
    }

    // Lines 949-1004: truncate the last hole, then take the fragment out of the list.
    method FixList(f: Span, h: nat, ghost i: nat) returns (done: bool)
      requires Valid() && Fits(holes, f) && f.end <= MAXUDP && (f.more ==> f.end < CAPACITY)
      requires FoundAt(holes, i, f) && h == Block(holes[i])
      modifies this, buf
      ensures Valid() && Abstract() == Step(old(Abstract()), f) && (done <==> holes == [])
      ensures totalLen == if f.more then old(totalLen) else f.end
      ensures forall q: nat | q < buf.Length && Settled(old(holes), q) :: buf[q] == old(buf[q])
    {
      ghost var s := Abstract();
      assert Placed(holes, BLOCKS);
      CutFacts(s, f, i);
      CutFrame(s, f, i);
      hide CutList, Step, Settled, Outside, InBlock, Room, Encodes, Hits, Find, WellFormed, Inside, Avoid;
      hide Linked, Consistent;
      done := TruncateAndCut(f, h, i);
      Commit(Step(s, f));
    }

    method TruncateAndCut(f: Span, h: nat, ghost i: nat) returns (done: bool)
      requires Valid() && f.start < f.end <= MAXUDP && f.start % 8 == 0 && FoundAt(holes, i, f) && h == Block(holes[i])
      requires Room(Truncated(holes, i, f), i, f) && Block(Truncated(holes, i, f)[i]) == h
      requires forall q: nat | Settled(holes, q) ::
                && Outside(holes, q) && Outside(Truncated(holes, i, f), q)
                && (f.end < Truncated(holes, i, f)[i].last ==> !InBlock(f.end / 8, q))
      modifies this`firstHole, this`totalLen, buf
      ensures done <==> CutList(Truncated(holes, i, f), i, f) == []
      ensures !done ==> Linked(CutList(Truncated(holes, i, f), i, f))
      ensures totalLen == if f.more then old(totalLen) else f.end
      ensures forall q: nat | q < buf.Length && Settled(holes, q) :: buf[q] == old(buf[q])
    {
      hide CutList, Settled, Outside, InBlock, Room, Linked, Consistent, Abstract, Find, Hits;
      Truncate(f, h, i);
      done := Cut(Truncated(holes, i, f), i, h, f);
    }

    // What FixList needs to know about the lists involved ...
    lemma CutFacts(s: State, f: Span, i: nat)
      requires Consistent(s) && Fits(s.holes, f) && FoundAt(s.holes, i, f)
      requires f.end <= MAXUDP && (f.more ==> f.end < CAPACITY)
      ensures var ts := Truncated(s.holes, i, f);
        && Room(ts, i, f) && Block(ts[i]) == Block(s.holes[i]) && CutList(ts, i, f) == Step(s, f).holes
        && Consistent(Step(s, f))
    {
      hide CutList, Step;
      RoomBehind(s, f, i);
      CutListIsStep(s, f, i);
      StepConsistent(s, f);
    }

    // ... and about the bytes it does not touch.
    lemma CutFrame(s: State, f: Span, i: nat)
      requires Consistent(s) && Fits(s.holes, f) && FoundAt(s.holes, i, f) && Placed(s.holes, BLOCKS)
      requires f.end <= MAXUDP && (f.more ==> f.end < CAPACITY)
      ensures forall q: nat | Settled(s.holes, q) ::
                && Outside(s.holes, q) && Outside(Truncated(s.holes, i, f), q)
                && (f.end < Truncated(s.holes, i, f)[i].last ==> !InBlock(f.end / 8, q))
    {
      hide Settled, Outside, Hits, Find, Avoid;
      var ts := Truncated(s.holes, i, f);
      RoomBehind(s, f, i);
      DescriptorsNotSettled(s.holes, s.holes);
      DescriptorsNotSettled(s.holes, ts);
      if f.end < ts[i].last {
        BehindNotSettled(s.holes, f, i);
      }
    }

    ghost method Commit(s: State)
      requires buf.Length == PKTSIZE && totalLen <= OPEN
      requires Consistent(s) && (s.holes != [] ==> Linked(s.holes))
      modifies this`holes, this`lost
      ensures Valid() && Abstract() == s
    {
      holes, lost := s.holes, s.lost;
    }

    // Lines 949-1007: fix the list, then copy the data.
    method Absorb(ip: seq<Byte>, f: Span, h: nat, ghost i: nat, ghost data: seq<Byte>) returns (done: bool)
      requires Valid() && Assembling(data) && HDR < |ip| && HDR < IpLen(ip) <= |ip|
      requires PieceOf(ip, data) && f == SpanOfPacket(ip) && Fits(holes, f)
      requires FoundAt(holes, i, f) && h == Block(holes[i])
      modifies this, buf
      ensures Valid() && Assembling(data)
      ensures Abstract() == Step(old(Abstract()), f) && (done <==> holes == [])
      ensures forall q | 0 <= q < HDR :: buf[q] == old(buf[q])
    {
      ghost var s := Abstract();
      hide Step, Linked, Consistent, FoundAt, Stored, Missing;
      done := FixList(f, h, i);
      StepClearsFragment(s, f);
      CopyIn(ip, f);
      StepBelow(s, f, |data|);
      StepOpenEnded(s, f);
      StillStored(old(buf[..]), buf[..], s, ip, data);
    }

    // What was stored stays stored, and the fragment's own bytes are stored too.
    lemma StillStored(before: seq<Byte>, after: seq<Byte>, s: State, ip: seq<Byte>, data: seq<Byte>)
      requires |before| == |after| == PKTSIZE && HDR < |ip| && HDR < IpLen(ip) <= |ip|
      requires PieceOf(ip, data) && Consistent(s) && Fits(s.holes, SpanOfPacket(ip)) && Stored(before, s, data)
      requires var f := SpanOfPacket(ip);
        && (forall q: nat | HDR + f.start <= q < HDR + f.end :: after[q] == ip[q - f.start])
        && (forall q: nat | q < PKTSIZE && Settled(s.holes, q)
            && !(HDR + f.start <= q < HDR + f.end) :: after[q] == before[q])
      ensures Stored(after, Step(s, SpanOfPacket(ip)), data)
    {
      var f := SpanOfPacket(ip);
      forall p: nat | Step(s, f).lost <= p < |data| && !Missing(Step(s, f).holes, p)
        ensures after[HDR + p] == data[p]
      {
        StepMissing(s, f, p);
        if f.start <= p < f.end {
          assert ip[HDR..IpLen(ip)][p - f.start] == data[f.start..f.end][p - f.start];
        } else {
          StepLost(s, f);
          assert Settled(s.holes, HDR + p);
        }
      }
    }

    // Lines 916-1013: a fragment that does not extend too far.
    method Process(ip: seq<Byte>, ghost data: seq<Byte>) returns (r: Option<seq<Byte>>)
      requires Valid() && HDR < |ip| && HDR < IpLen(ip) <= |ip|
      requires PieceOf(ip, data)
      requires !Restarts(ip) ==> holes != [] && Assembling(data)
      requires Fits(StartingState(ip).holes, SpanOfPacket(ip))
      modifies this, buf
      ensures Valid() && Assembling(data)
      ensures Abstract() == Step(old(StartingState(ip)), SpanOfPacket(ip)) && (r.Some? <==> holes == [])
      ensures r.None? ==> buf[..HDR] == old(StartingHeader(ip))
      ensures r.Some? ==>
                && r.value == buf[..HDR + |data|]
                && r.value[HDR + lost..] == data[lost..]
                && LengthAndHeader(r.value, old(StartingHeader(ip)), |data|)
    {
      hide Step, Hits, Find, Fits, FoundAt, Below, WellFormed, Missing, OpenEnded, Assembling;
      hide Linked, Stored, StartingState, LengthAndHeader;
      var offset8, len := Offset8(ip), IpLen(ip) - HDR;
      var start := 8 * offset8;
      Begin(ip, data);
      var f := SpanOfPacket(ip);
      var found, h, i := Walk(start);
      SearchResult(Abstract(), f, i);
      if !found {
        return None;
      }
      if offset8 + (len + 7) / 8 <= h {
        return None;
      }
      var done := Absorb(ip, f, h, i, data);
      assert buf[..HDR] == old(StartingHeader(ip));
      if !done {
        return None;
      }
      var packet := Deliver(data);
      r := Some(packet);
    }

    /** __net_defragment.  For any fragment of the datagram the hole list makes exactly the step of
        module HoleList, every byte that has arrived stays in place, and the packet is handed over
        exactly when the list becomes empty. */
    method Defragment(ip: seq<Byte>, ghost data: seq<Byte>) returns (r: Option<seq<Byte>>)
      requires Valid() && HDR < |ip| && HDR < IpLen(ip) <= |ip|
      requires !TooFar(ip) ==> PieceOf(ip, data)
      requires !TooFar(ip) && !Restarts(ip) ==> holes != [] && Assembling(data)
      requires !TooFar(ip) ==> Fits(StartingState(ip).holes, SpanOfPacket(ip))
      modifies this, buf
      ensures Valid() && (TooFar(ip) <==> ReachesTooFar(ip))
      ensures ReachesTooFar(ip) ==> r == None && unchanged(this) && unchanged(buf)
      ensures !ReachesTooFar(ip) ==>
                && Abstract() == Step(old(StartingState(ip)), SpanOfPacket(ip))
                && Assembling(data)
                && (r.Some? <==> holes == [])
                && (r.None? ==> buf[..HDR] == old(StartingHeader(ip)))
      ensures r.Some? ==>
                && r.value == buf[..HDR + |data|]
                && r.value[HDR + lost..] == data[lost..]
                && LengthAndHeader(r.value, old(StartingHeader(ip)), |data|)
    {
      hide *;
      TooFarIff(ip);
      ValidMeans();
      if 8 * Offset8(ip) + (IpLen(ip) - HDR) > MAXUDP {
        return None;
      }
      r := Process(ip, data);
    }

    // The buffer is at state s of the datagram with payload data and the identification of ip.
    ghost predicate Underway(ip: seq<Byte>, data: seq<Byte>, s: State)
      requires buf.Length == PKTSIZE && HDR <= |ip|
      reads this, buf
    {
      Assembling(data) && Abstract() == s && !Restarts(ip)
    }

    // One more fragment of a run.
    method ReceiveNext(ip: seq<Byte>, ghost data: seq<Byte>, ghost c: seq<nat>, ghost before: seq<nat>, ghost k: nat)
      returns (r: Option<seq<Byte>>)
      requires Valid() && IsFragment(ip, data, c, k) && Indices(c, before)
      requires before == [] ==> Restarts(ip)
      requires before != [] ==> Underway(ip, data, Run(c, before)) && !Run(c, before).done
      modifies this, buf
      ensures Valid() && Underway(ip, data, Run(c, before + [k]))
      ensures r.Some? <==> Run(c, before + [k]).done
      ensures r.None? ==> buf[..HDR] == old(StartingHeader(ip))
      ensures r.Some? ==> LengthAndHeader(r.value, old(StartingHeader(ip)), |data|)
      ensures r.Some? ==> lost == 0 ==> r.value[HDR..] == data
    {
      hide Run, Step, Hits, Find, WellFormed, Encodes, Linked, Stored, Missing, Below, OpenEnded, Assembling, PieceOf;
      NextFits(ip, data, c, before, k);
      ghost var header := StartingHeader(ip);
      assert header[4] == ip[4] && header[5] == ip[5];
      hide IsFragment, Fits, SpanOfPacket;
      r := Defragment(ip, data);
      AssemblingIsNotIdle(data);
      if r.Some? {
        assert r.value[4..20][..2] == header[4..20][..2];
        assert r.value[4] == r.value[4..20][0] && r.value[5] == r.value[4..20][1];
        assert header[4] == header[4..20][0] && header[5] == header[4..20][1];
      } else {
        assert buf[..HDR][4] == buf[4] && buf[..HDR][5] == buf[5];
      }
    }

    // What Defragment asks for, and the step it then makes.
    lemma NextFits(ip: seq<Byte>, data: seq<Byte>, c: seq<nat>, before: seq<nat>, k: nat)
      requires IsFragment(ip, data, c, k) && Indices(c, before)
      ensures 0 < |data| && !TooFar(ip) && Indices(c, before + [k])
      ensures Fits(Run(c, before).holes, SpanOfPacket(ip)) && Run(c, []) == FRESH
      ensures Run(c, before + [k]) == Step(Run(c, before), SpanOfPacket(ip))
      ensures Run(c, before).done <==> Run(c, before).holes == []
      ensures Run(c, before + [k]).done <==> Run(c, before + [k]).holes == []
    {
      RunConsistent(c, before);
      RunConsistent(c, before + [k]);
      PieceFits(c, Run(c, before).holes, k);
      assert (before + [k])[..|before|] == before;
    }

    lemma AssemblingIsNotIdle(data: seq<Byte>)
      requires Assembling(data) && data != []
      ensures totalLen != 0
    {
    }

    // used fragments have been handed over, and r is what the last of them gave back.
    ghost predicate Progress(packets: seq<seq<Byte>>, data: seq<Byte>, c: seq<nat>, arrivals: seq<nat>,
                             used: nat, r: Option<seq<Byte>>)
      requires AreFragments(packets, data, c, arrivals) && used <= |packets|
      reads this, buf
    {
      && Valid()
      && (used == 0 ==> r.None? && (packets != [] ==> Restarts(packets[0])))
      && (used > 0 ==> Underway(packets[0], data, Run(c, arrivals[..used])) && !Run(c, arrivals[..used - 1]).done)
      && (r.Some? <==> Run(c, arrivals[..used]).done)
      && (used > 0 && r.None? ==> buf[..HDR] == packets[0][..HDR])
      && (r.Some? ==> used > 0 && LengthAndHeader(r.value, packets[0][..HDR], |data|))
      && (r.Some? ==> lost == 0 ==> r.value[HDR..] == data)
    }

    method ReceiveAnother(packets: seq<seq<Byte>>, ghost data: seq<Byte>, ghost c: seq<nat>, ghost arrivals: seq<nat>,
                          used: nat)
      returns (r: Option<seq<Byte>>)
      requires AreFragments(packets, data, c, arrivals) && used < |packets|
      requires Progress(packets, data, c, arrivals, used, None)
      modifies this, buf
      ensures Progress(packets, data, c, arrivals, used + 1, r)
    {
      hide Run, IsFragment, IsCut, Underway, Valid;
      assert buf.Length == PKTSIZE by {
        ValidMeans();
      }
      ghost var before := arrivals[..used];
      TakeOneMore(arrivals, used);
      SameDatagram(packets[0], packets[used], data, Run(c, before));
      HeaderOfFirst(packets, data, c, arrivals, used);
      r := ReceiveNext(packets[used], data, c, before, arrivals[used]);
      SameDatagram(packets[0], packets[used], data, Run(c, before + [arrivals[used]]));
    }

    // The header that is kept is the first fragment's.
    lemma HeaderOfFirst(packets: seq<seq<Byte>>, data: seq<Byte>, c: seq<nat>, arrivals: seq<nat>, used: nat)
      requires AreFragments(packets, data, c, arrivals) && used < |packets|
      requires Progress(packets, data, c, arrivals, used, None)
      ensures buf.Length == PKTSIZE && StartingHeader(packets[used]) == packets[0][..HDR]
    {
      hide Run, IsFragment, IsCut, Linked, Consistent, Assembling;
    }

    lemma ValidMeans()
      requires Valid()
      ensures buf.Length == PKTSIZE
    {
    }

    // None is being assembled, or the packet carries another identification.
    ghost predicate StartsAnew(ip: seq<Byte>)
      requires buf.Length == PKTSIZE && 20 <= |ip|
      reads this, buf
    {
      totalLen == 0 || buf[4..6] != ip[4..6]
    }

    /** Fragments handed over one after the other until a packet comes back.  Without a clash the
        packet comes back with the fragment that completes the datagram, and holds its payload behind the first
        fragment's header. */
    method ReceiveUntilComplete(packets: seq<seq<Byte>>, ghost data: seq<Byte>, ghost c: seq<nat>,
                                ghost arrivals: seq<nat>)
      returns (r: Option<seq<Byte>>, used: nat)
      requires Valid() && ArePieces(packets, data, c, arrivals)
      requires packets != [] ==> StartsAnew(packets[0])
      modifies this, buf
      ensures Valid() && used <= |packets| && (r.None? ==> used == |packets|)
      ensures used > 0 ==> Abstract() == Run(c, arrivals[..used])
      ensures r.Some? ==> used > 0 && LengthAndHeader(r.value, packets[0][..HDR], |data|)
      ensures ClashFree(c, arrivals) ==>
                && (r.Some? <==> AllArrived(c, arrivals))
                && (r.Some? ==> AllArrived(c, arrivals[..used]) && !AllArrived(c, arrivals[..used - 1]))
                && (r.Some? ==> r.value[HDR..] == data)
    {
      hide *;
      r, used := None, 0;
      PiecesAreFragments(packets, data, c, arrivals);
      RunStarts(packets, data, c, arrivals);
      while used < |packets| && r.None?
        invariant used <= |packets| && Progress(packets, data, c, arrivals, used, r)
      {
        r := ReceiveAnother(packets, data, c, arrivals, used);
        used := used + 1;
      }
      RunReport(packets, data, c, arrivals, used, r);
    }

    lemma RunStarts(packets: seq<seq<Byte>>, data: seq<Byte>, c: seq<nat>, arrivals: seq<nat>)
      requires Valid() && AreFragments(packets, data, c, arrivals)
      requires packets != [] ==> StartsAnew(packets[0])
      ensures Progress(packets, data, c, arrivals, 0, None)
    {
      if packets != [] {
        NewIdentification(packets[0]);
      }
      FreshIsIncomplete(c);
      assert arrivals[..0] == [];
      hide IsFragment, Underway;
    }

    lemma NewIdentification(ip: seq<Byte>)
      requires buf.Length == PKTSIZE && HDR <= |ip|
      ensures StartsAnew(ip) <==> Restarts(ip)
    {
      assert buf[4..6] == [buf[4], buf[5]] && ip[4..6] == [ip[4], ip[5]];
    }

    // What Progress says about a run that has stopped.
    lemma RunReport(packets: seq<seq<Byte>>, data: seq<Byte>, c: seq<nat>, arrivals: seq<nat>, used: nat,
                    r: Option<seq<Byte>>)
      requires AreFragments(packets, data, c, arrivals) && used <= |packets|
      requires Progress(packets, data, c, arrivals, used, r) && (r.None? ==> used == |packets|)
      ensures Valid() && (used > 0 ==> Abstract() == Run(c, arrivals[..used]))
      ensures r.Some? ==> used > 0 && LengthAndHeader(r.value, packets[0][..HDR], |data|)
      ensures ClashFree(c, arrivals) ==>
                && (r.Some? <==> AllArrived(c, arrivals))
                && (r.Some? ==> AllArrived(c, arrivals[..used]) && !AllArrived(c, arrivals[..used - 1]))
                && (r.Some? ==> r.value[HDR..] == data)
    {
      hide Run, ClashFree, AllArrived, Restarts, Valid, IsFragment, Assembling;
      if ClashFree(c, arrivals) {
        FirstCompletion(c, arrivals, used);
      }
    }

    lemma SameDatagram(ip: seq<Byte>, other: seq<Byte>, data: seq<Byte>, s: State)
      requires buf.Length == PKTSIZE && HDR <= |ip| && HDR <= |other| && ip[4] == other[4] && ip[5] == other[5]
      ensures Restarts(ip) <==> Restarts(other)
      ensures Underway(ip, data, s) <==> Underway(other, data, s)
    {
    }
  }

  lemma TakeOneMore(s: seq<nat>, n: nat)
    requires n < |s|
    ensures s[..n + 1] == s[..n] + [s[n]]
  {
  }

  lemma FreshIsIncomplete(c: seq<nat>)
    ensures !Run(c, []).done
  {
  }

  // The packet is piece k of data.
  ghost predicate IsFragment(ip: seq<Byte>, data: seq<Byte>, c: seq<nat>, k: nat) {
    && IsCut(c) && |data| == c[|c| - 1] && k + 1 < |c|
    && HDR < |ip| && HDR < IpLen(ip) <= |ip|
    && PieceOf(ip, data) && SpanOfPacket(ip) == SpanOf(c, k)
  }

  // The packets are the pieces of data that arrivals lists, all with the same identification.
  ghost predicate AreFragments(packets: seq<seq<Byte>>, data: seq<Byte>, c: seq<nat>, arrivals: seq<nat>) {
    && IsCut(c) && |packets| == |arrivals| && Indices(c, arrivals)
    && forall t | 0 <= t < |packets| ::
         && HDR < |packets[t]| && HDR < |packets[0]| && IsFragment(packets[t], data, c, arrivals[t])
         && packets[t][4] == packets[0][4] && packets[t][5] == packets[0][5]
  }

  /** Piece k of data cut at c, in the bytes of an IP header as RFC 791, section 3.1, lays them out: total length in
      bytes 2 and 3, the more-fragments bit and the offset in blocks of 8 in bytes 6 and 7, the payload behind the
      header. */
  ghost predicate CarriesPiece(ip: seq<Byte>, data: seq<Byte>, c: seq<nat>, k: nat) {
    && IsCut(c) && |data| == c[|c| - 1] && k + 1 < |c|
    && var n := c[k + 1] - c[k];
       && 20 + n <= |ip| && ip[2] == (20 + n) / 256 && ip[3] == (20 + n) % 256
       && ip[6] % 64 == c[k] / 8 / 256 + (if k + 2 < |c| then 32 else 0) && ip[7] == c[k] / 8 % 256
       && ip[20..20 + n] == data[c[k]..c[k + 1]]
  }

  /** The parser takes exactly these packets for fragments, those with room for a descriptor behind them. */
  lemma IsFragmentIff(ip: seq<Byte>, data: seq<Byte>, c: seq<nat>, k: nat)
    ensures IsFragment(ip, data, c, k)
       <==> CarriesPiece(ip, data, c, k) && (k + 2 < |c| ==> c[k + 1] != CAPACITY)
  {
    if IsCut(c) && |data| == c[|c| - 1] && k + 1 < |c| && HDR < |ip| {
      PieceInData(c, k);
      SpanIff(ip, c, k);
      hide IsCut, SpanOfPacket, IpLen;
    }
  }

  lemma PieceInData(c: seq<nat>, k: nat)
    requires IsCut(c) && k + 1 < |c|
    ensures c[k] < c[k + 1] <= c[|c| - 1] <= MAXUDP && c[k] % 8 == 0
    ensures k + 2 < |c| <==> c[k + 1] < c[|c| - 1]
    ensures k + 2 < |c| ==> c[k + 1] % 8 == 0 && (c[k + 1] < CAPACITY <==> c[k + 1] != CAPACITY)
  {
  }

  // The fields of the header say so exactly if its bytes do.
  lemma SpanIff(ip: seq<Byte>, c: seq<nat>, k: nat)
    requires HDR < |ip| && k + 1 < |c| && c[k] < c[k + 1] <= MAXUDP && c[k] % 8 == 0
    ensures HDR < IpLen(ip) && SpanOfPacket(ip) == SpanOf(c, k)
       <==> && ip[2] == (20 + c[k + 1] - c[k]) / 256 && ip[3] == (20 + c[k + 1] - c[k]) % 256
            && ip[6] % 64 == c[k] / 8 / 256 + (if k + 2 < |c| then 32 else 0) && ip[7] == c[k] / 8 % 256
    ensures HDR < IpLen(ip) && SpanOfPacket(ip) == SpanOf(c, k) ==> IpLen(ip) == 20 + c[k + 1] - c[k]
  {
    OffsetBytes(ip[6], ip[7]);
    LengthBytes(ip[2], ip[3], c[k + 1] - c[k]);
    PlaceBytes(ip[6], ip[7], c[k] / 8, k + 2 < |c|);
  }

  lemma LengthBytes(hi: int, lo: int, n: nat)
    requires 0 <= hi < 256 && 0 <= lo < 256 && n <= MAXUDP
    ensures 256 * hi + lo == 20 + n <==> hi == (20 + n) / 256 && lo == (20 + n) % 256
  {
  }

  lemma PlaceBytes(hi: int, lo: int, offset8: nat, more: bool)
    requires 0 <= hi < 256 && 0 <= lo < 256 && offset8 < 0x2000
    ensures hi % 32 * 256 + lo == offset8 && (hi % 64 >= 32 <==> more)
       <==> hi % 64 == offset8 / 256 + (if more then 32 else 0) && lo == offset8 % 256
  {
    var r, x := hi % 32, hi;
    assert hi % 64 == if hi % 64 >= 32 then r + 32 else r;
  }

  // The packets carry the pieces of data that arrivals lists, all with the same identification.
  ghost predicate ArePieces(packets: seq<seq<Byte>>, data: seq<Byte>, c: seq<nat>, arrivals: seq<nat>) {
    && IsCut(c) && |packets| == |arrivals|
    && forall t | 0 <= t < |packets| ::
         && HDR <= |packets[0]| && CarriesPiece(packets[t], data, c, arrivals[t])
         && (arrivals[t] + 2 < |c| ==> c[arrivals[t] + 1] != CAPACITY)
         && packets[t][4..6] == packets[0][4..6]
  }

  lemma PiecesAreFragments(packets: seq<seq<Byte>>, data: seq<Byte>, c: seq<nat>, arrivals: seq<nat>)
    requires ArePieces(packets, data, c, arrivals)
    ensures AreFragments(packets, data, c, arrivals)
  {
    forall t | 0 <= t < |packets|
      ensures HDR < |packets[t]| && HDR < |packets[0]| && IsFragment(packets[t], data, c, arrivals[t])
      ensures packets[t][4] == packets[0][4] && packets[t][5] == packets[0][5] && arrivals[t] + 1 < |c|
    {
      IsFragmentIff(packets[t], data, c, arrivals[t]);
      IsFragmentIff(packets[0], data, c, arrivals[0]);
      assert packets[t][4] == packets[t][4..6][0] && packets[t][5] == packets[t][4..6][1];
      assert packets[0][4] == packets[0][4..6][0] && packets[0][5] == packets[0][4..6][1];
    }
  }
}
