/** The packets XPR_PES_WritePESPacket makes of a block (src/xpr_pes.c:591-746), as values. */
module PesFormat {
  import opened Common
  import opened ProgramStream

  datatype Codec = PCMA | PCMU | AAC | JPEG | H264

  const PACKET_SIZE := 5120

  /** How the next packet is cut: elementary stream bytes, padding to a multiple of 4, and whether the
      code takes it for the last packet. */
  datatype Cut = Cut(esBlock: int, pad: int, last: bool)

  /** Bytes behind the 6-byte prefix before the padding: flags, two stuffing bytes, and the PTS. */
  function Overhead(hasPts: bool): int {
    if hasPts then 10 else 5
  }

  function CutOf(total: int, overhead: int): Cut {
    var es := if total > PACKET_SIZE - overhead - 6 then PACKET_SIZE - 6 - overhead else total;
    var r := (6 + overhead + es) % 4;
    var a := if r != 0 then 4 - r else 0;
    var cut := if 6 + (overhead + a) + (2 + a) + es > PACKET_SIZE then es - a else es;
    Cut(cut, a, PACKET_SIZE > 6 + (overhead + a) + (2 + a) + cut)
  }

  /** Every cut takes at least one byte and no more than there is, and the packet fits. */
  lemma CutFits(total: int, hasPts: bool)
    requires total > 0
    ensures var c := CutOf(total, Overhead(hasPts));
      0 < c.esBlock <= total && 0 <= c.pad <= 3 && 6 + Overhead(hasPts) + c.pad + c.esBlock <= PACKET_SIZE
  {
  }

  /** A packet that takes all there is is padded to a multiple of 4; any other is at most 7 bytes short of full. */
  lemma CutGreedy(total: int, hasPts: bool)
    requires total > 0
    ensures var c := CutOf(total, Overhead(hasPts));
      var size := 6 + (if hasPts then 10 else 5) + c.pad + c.esBlock;
      if c.esBlock == total then size % 4 == 0 && c.pad < 4 else size >= 5120 - 7
  {
  }

  /** The "last packet" flag is right except for three sizes: a block that exactly fills the packet, or
      falls 6 short of that, is last and not flagged; one that falls 7 short is flagged and not last. */
  lemma LastFlagExact(total: int, hasPts: bool)
    requires total > 0
    ensures var c, room := CutOf(total, Overhead(hasPts)), Room(hasPts);
      && ((c.last <==> c.esBlock == total) <==> total !in {room, room - 6, room - 7})
      && (c.last && c.esBlock < total ==> total - c.esBlock <= 3)
      && (total <= 3 ==> c.last && c.esBlock == total)
  {
  }

  /** The byte in front of the payload: what kind of piece this is. */
  function Marker(codec: Codec, naluType: int, first: bool, last: bool): byte {
    match codec
    case PCMA => 0xFC
    case PCMU => 0xFC
    case AAC => 0xFF
    case JPEG => if first then 0xFD else if last then 0xFE else 0xFF
    case H264 =>
      if naluType in {6, 7, 8} then 0xFC
      else if naluType in {1, 5} then if first then 0xFD else if last then 0xFA else 0xFF
      else 0xFF
  }

  function StreamId(codec: Codec): byte {
    if codec == H264 || codec == JPEG then 0xE0 else 0xC0
  }

  /** C division truncates toward zero. */
  function TruncDiv(a: int, b: int): int
    requires b > 0
  {
    if a >= 0 then a / b else -((-a) / b)
  }

  /** Ticks of the 90 kHz clock for a time in microseconds. */
  function Ticks(pts: int): int {
    TruncDiv(pts * 90, 1000)
  }

  /** The 33-bit count that both clock fields hold. */
  function Clock(pts: int): int {
    Ticks(pts) % 0x2_0000_0000
  }

  /** The bits of t above weight d, modulo m: an arithmetic shift right and a mask. */
  function Bits(t: int, d: int, m: int): (f: int)
    requires d > 0 && m > 0
    ensures 0 <= f < m
  {
    (t / d) % m
  }

  /** The five bytes of the PTS field with their fixed and marker bits. */
  function PtsField(pts: int): (r: seq<byte>)
    ensures |r| == 5
  {
    var t := Ticks(pts);
    [0x20 + 2 * Bits(t, 0x4000_0000, 8) + 1, Bits(t, 0x40_0000, 0x100), 2 * Bits(t, 0x8000, 0x80) + 1,
     Bits(t, 0x80, 0x100), 2 * Bits(t, 1, 0x80) + 1]
  }

  lemma NestedShifts(t: int)
    ensures t / 0x80 / 0x100 == t / 0x8000
    ensures t / 0x8000 / 0x80 == t / 0x40_0000
    ensures t / 0x40_0000 / 0x100 == t / 0x4000_0000
    ensures t / 0x4000_0000 / 8 == t / 0x2_0000_0000
  {
  }

  /** The PTS field carries the 33-bit tick count, for negative times too. */
  lemma PtsRoundTrip(pts: int)
    ensures PtsOf(PtsField(pts)) == Clock(pts) && PtsFormed(PtsField(pts))
    ensures pts >= 0 ==> PtsOf(PtsField(pts)) == (pts * 90 / 1000) % 0x2_0000_0000
    ensures pts < 0 ==> PtsOf(PtsField(pts)) == -(-pts * 90 / 1000) % 0x2_0000_0000
  {
    var t, f := Ticks(pts), PtsField(pts);
    NestedShifts(t);
    assert t == (t / 0x80) * 0x80 + Bits(t, 1, 0x80);
    assert t / 0x80 == (t / 0x8000) * 0x100 + Bits(t, 0x80, 0x100);
    assert t / 0x8000 == (t / 0x40_0000) * 0x80 + Bits(t, 0x8000, 0x80);
    assert t / 0x40_0000 == (t / 0x4000_0000) * 0x100 + Bits(t, 0x40_0000, 0x100);
    assert t / 0x4000_0000 == (t / 0x2_0000_0000) * 8 + Bits(t, 0x4000_0000, 8);
    assert f[0] as int / 2 % 8 == Bits(t, 0x4000_0000, 8);
  }

  /** The 20 bytes of the pack header: the clock reference fields, no mux rate, six bytes of stuffing of
      which the last four carry the packet counter. */
  function PackHeader(pts: int, counter: int): (r: seq<byte>)
    ensures |r| == 20
  {
    var t := Ticks(pts);
    [0, 0, 1, 0xBA,
     0x40 + 8 * Bits(t, 0x4000_0000, 8) + 4 + Bits(t, 0x1000_0000, 4), Bits(t, 0x10_0000, 0x100),
     8 * Bits(t, 0x8000, 0x20) + 4 + Bits(t, 0x2000, 4), Bits(t, 0x20, 0x100), 8 * Bits(t, 1, 0x20) + 4, 1,
     0, 0, 3, 0xFE, 0xFF, 0xFF,
     Bits(counter, 0x100_0000, 0x100), Bits(counter, 0x1_0000, 0x100), Bits(counter, 0x100, 0x100),
     Bits(counter, 1, 0x100)]
  }

  lemma NestedScrShifts(t: int)
    ensures t / 0x20 / 0x100 == t / 0x2000
    ensures t / 0x2000 / 4 == t / 0x8000
    ensures t / 0x8000 / 0x20 == t / 0x10_0000
    ensures t / 0x10_0000 / 0x100 == t / 0x1000_0000
    ensures t / 0x1000_0000 / 4 == t / 0x4000_0000
    ensures t / 0x4000_0000 / 8 == t / 0x2_0000_0000
  {
  }

  lemma SplitScr(t: int)
    ensures t % 0x2_0000_0000 ==
      Bits(t, 0x4000_0000, 8) * 0x4000_0000 + Bits(t, 0x1000_0000, 4) * 0x1000_0000
        + Bits(t, 0x10_0000, 0x100) * 0x10_0000
      + Bits(t, 0x8000, 0x20) * 0x8000 + Bits(t, 0x2000, 4) * 0x2000 + Bits(t, 0x20, 0x100) * 0x20 + Bits(t, 1, 0x20)
  {
    NestedScrShifts(t);
    assert t == (t / 0x20) * 0x20 + Bits(t, 1, 0x20);
    assert t / 0x20 == (t / 0x2000) * 0x100 + Bits(t, 0x20, 0x100);
    assert t / 0x2000 == (t / 0x8000) * 4 + Bits(t, 0x2000, 4);
    assert t / 0x8000 == (t / 0x10_0000) * 0x20 + Bits(t, 0x8000, 0x20);
    assert t / 0x10_0000 == (t / 0x1000_0000) * 0x100 + Bits(t, 0x10_0000, 0x100);
    assert t / 0x1000_0000 == (t / 0x4000_0000) * 4 + Bits(t, 0x1000_0000, 4);
    assert t / 0x4000_0000 == (t / 0x2_0000_0000) * 8 + Bits(t, 0x4000_0000, 8);
  }

  /** The pack header is well formed, carries the same 33-bit tick count, and ends in the packet counter. */
  lemma ScrRoundTrip(pts: int, counter: int)
    ensures var h := PackHeader(pts, counter);
      && StartCode(h, 0xBA) && PackSize(h) == |h| && ScrOf(h) == Clock(pts) && ScrFormed(h)
      && 0x100_0000 * h[16] as int + 0x1_0000 * h[17] as int + 0x100 * h[18] as int + h[19] as int
           == counter % 0x1_0000_0000
  {
    ScrReads(pts, counter);
    hide Ticks, Clock, Bits, ScrOf;
    var t := Ticks(pts);
    MarkerBits(Bits(t, 0x4000_0000, 8), Bits(t, 0x1000_0000, 4));
    MarkerBits(Bits(t, 0x8000, 0x20), Bits(t, 0x2000, 4));
    MarkerBits(Bits(t, 1, 0x20), 0);
    FourBytes(counter);
  }

  lemma ScrReads(pts: int, counter: int)
    ensures ScrOf(PackHeader(pts, counter)) == Clock(pts)
  {
    hide Bits;
    var t := Ticks(pts);
    SplitScr(t);
    AroundMarker(Bits(t, 0x4000_0000, 8), Bits(t, 0x1000_0000, 4));
    AroundMarker(Bits(t, 0x8000, 0x20), Bits(t, 0x2000, 4));
    AroundMarker(Bits(t, 1, 0x20), 0);
  }

  lemma FourBytes(n: int)
    ensures 0x100_0000 * Bits(n, 0x100_0000, 0x100) + 0x1_0000 * Bits(n, 0x1_0000, 0x100)
      + 0x100 * Bits(n, 0x100, 0x100) + Bits(n, 1, 0x100) == n % 0x1_0000_0000
  {
    assert n / 0x100 / 0x100 == n / 0x1_0000 && n / 0x1_0000 / 0x100 == n / 0x100_0000;
    assert n / 0x100_0000 / 0x100 == n / 0x1_0000_0000;
  }

  /** Two groups of bits around a marker bit. */
  lemma AroundMarker(a: nat, b: nat)
    requires b < 4
    ensures (8 * a + 4 + b) / 8 == a && (8 * a + 4 + b) % 4 == b
    ensures a < 8 ==> (0x40 + 8 * a + 4 + b) / 8 % 8 == a && (0x40 + 8 * a + 4 + b) % 4 == b
  {
  }

  lemma MarkerBits(a: nat, b: nat)
    requires b < 4
    ensures (8 * a + 4 + b) / 4 % 2 == 1
    ensures a < 8 ==> (0x40 + 8 * a + 4 + b) / 4 % 2 == 1 && (0x40 + 8 * a + 4 + b) / 0x40 == 1
  {
  }

  // ----- what the packets of a frame announce

  /** The stream id of a video or an audio packet. */
  ghost predicate OfStream(p: seq<byte>, codec: Codec) {
    |p| >= 9 && p[3] == match codec { case H264 => 0xE0 case JPEG => 0xE0 case _ => 0xC0 }
  }

  /** Only the first packet of a frame announces a time stamp: the frame's. */
  ghost predicate Timed(ps: seq<seq<byte>>, codec: Codec, pts: int) {
    forall i :: 0 <= i < |ps| ==>
      OfStream(ps[i], codec) && PtsIn(ps[i]) == if i == 0 then Some(Clock(pts)) else None
  }

  /** A frame's first post starts with a pack header and a stream map when it is video; its first packet announces
      the frame's time stamp, which the pack header has too, and no other packet announces one. */
  ghost predicate Stamped(posts: seq<seq<byte>>, codec: Codec, pts: int) {
    var at := if codec == H264 || codec == JPEG then 20 + MapSize(codec) else 0;
    && posts != [] && |posts[0]| >= at + 14
    && Timed([posts[0][at..]] + posts[1..], codec, pts)
    && (at > 0 ==> ScrOf(posts[0]) == Clock(pts))
  }

  /** The packets of a frame behind what the first is posted with. */
  lemma StampedPosts(prefix: seq<byte>, ps: seq<seq<byte>>, codec: Codec, pts: int, counter: int, psm: seq<byte>)
    requires ps != [] && Timed(ps, codec, pts)
    requires prefix == if codec == H264 || codec == JPEG then PackHeader(pts, counter) + psm else []
    requires codec == H264 || codec == JPEG ==> |psm| == MapSize(codec)
    ensures Stamped([prefix + ps[0]] + ps[1..], codec, pts)
  {
    hide OfStream, PtsOf;
    var post, at := prefix + ps[0], |prefix|;
    assert post[at..] == ps[0] && [ps[0]] + ps[1..] == ps;
    assert ([post] + ps[1..])[1..] == ps[1..];
    assert PtsIn(ps[0]).Some?;
    if at > 0 {
      var h := PackHeader(pts, counter);
      ScrRoundTrip(pts, counter);
      assert forall i :: 0 <= i < 14 ==> post[i] == h[i];
    }
  }

  // ----- the program stream map

  /** Size of the stream map: header, date and unknown descriptors, the video entry when there is one,
      the audio entry, the private entry and the checksum. */
  function MapSize(codec: Codec): nat {
    10 + 16 + 22 + (if codec == H264 || codec == JPEG then 4 + 16 else 0) + 16 + 8 + 4
  }

  /** The map's start code and its length field, which the code writes as a constant. */
  const MAP_START: seq<byte> := [0, 0, 1, 0xBC, 0, 0x5A]

  /** The constant length is right exactly for the video codecs, the only ones a map is written for. */
  lemma MapLengthExact(codec: Codec)
    ensures PacketSize(MAP_START) == MapSize(codec) <==> codec == H264 || codec == JPEG
  {
  }

  // ----- PES packets

  /** The nine fixed header bytes; `pad` is the extra stuffing and `size` the payload length. */
  function FixedHeader(codec: Codec, first: bool, hasPts: bool, pad: nat, size: nat): (r: seq<byte>)
    requires pad <= 3 && 6 + Overhead(hasPts) + pad + size <= PACKET_SIZE
    ensures |r| == 9
  {
    var hdl := 2 + pad + if hasPts then 5 else 0;
    var len := 3 + hdl + size;
    [0, 0, 1, StreamId(codec), len / 0x100, len % 0x100, if first then 0x8C else 0x88, if hasPts then 0x80 else 0, hdl]
  }

  /** One PES packet: header, PTS, stuffing, marker byte, payload. */
  function Packet(codec: Codec, first: bool, pts: Option<int>, pad: nat, marker: byte, es: seq<byte>): (r: seq<byte>)
    requires pad <= 3 && 6 + Overhead(pts.Some?) + pad + |es| <= PACKET_SIZE
    ensures |r| == 6 + Overhead(pts.Some?) + pad + |es|
  {
    FixedHeader(codec, first, pts.Some?, pad, |es|)
    + (if pts.Some? then PtsField(pts.value) else []) + Copies(0xFF, 1 + pad) + [marker] + es
  }

  /** The header fields of section 2.4.3.6 that a packet has behind its length field: nothing is scrambled, the
      alignment is announced in the first packet of a block, there are no optional fields but the PTS, and the
      stuffing is all ones. */
  ghost predicate Headed(p: seq<byte>, codec: Codec, first: bool, ticks: Option<int>) {
    && OfStream(p, codec) && PtsIn(p) == ticks
    && p[6] / 0x10 == 8 && (p[6] / 4 % 2 == 1 <==> first) && p[7] % 0x40 == 0
    && |p| > 8 + p[8] as int
    && (forall i :: (if ticks.Some? then 14 else 9) <= i < 8 + p[8] as int ==> p[i] == 0xFF)
    && (ticks.Some? ==> PtsFormed(p[9..14]))
  }

  /** The packet's length field counts all that follows it, the header length reaches to the payload, and
      the payload is the elementary stream bytes. */
  lemma PacketReads(codec: Codec, first: bool, pts: Option<int>, pad: nat, marker: byte, es: seq<byte>)
    requires pad <= 3 && 6 + Overhead(pts.Some?) + pad + |es| <= PACKET_SIZE
    ensures var p := Packet(codec, first, pts, pad, marker, es);
      && Carries(p, es) && |p| <= PACKET_SIZE && Marked(p, marker)
      && Headed(p, codec, first, if pts.Some? then Some(Clock(pts.value)) else None)
  {
    hide PtsField, PtsOf, PtsFormed, Clock;
    var p := Packet(codec, first, pts, pad, marker, es);
    var head := p[..|p| - |es|];
    assert p == head + es;
    if pts.Some? {
      PtsRoundTrip(pts.value);
      assert p[9..14] == PtsField(pts.value);
    }
  }

  /** The k-th packet of a block. Only the first packet of a frame's first block carries the PTS; `sticky`
      is the "last packet" flag, which the loop never clears. */
  ghost function NextPacket(rest: seq<byte>, codec: Codec, naluType: int, pts: int, withPts: bool, k: nat,
                            sticky: bool): seq<byte>
    requires rest != []
  {
    var hasPts := k == 0 && withPts;
    CutFits(|rest|, hasPts);
    var c := CutOf(|rest|, Overhead(hasPts));
    Packet(codec, k == 0, if hasPts then Some(pts) else None, c.pad, Marker(codec, naluType, k == 0, sticky || c.last),
           rest[..c.esBlock])
  }

  /** All packets of a block. */
  ghost function Packets(rest: seq<byte>, codec: Codec, naluType: int, pts: int, withPts: bool, k: nat,
                         sticky: bool): seq<seq<byte>>
    decreases |rest|
  {
    if rest == [] then []
    else
      CutFits(|rest|, k == 0 && withPts);
      var c := CutOf(|rest|, Overhead(k == 0 && withPts));
      [NextPacket(rest, codec, naluType, pts, withPts, k, sticky)]
      + Packets(rest[c.esBlock..], codec, naluType, pts, withPts, k + 1, sticky || c.last)
  }

  /** The "last packet" flags of a block of `total` bytes: once set, the flag stays. */
  ghost function Flags(total: nat, withPts: bool, k: nat, sticky: bool): seq<bool>
    decreases total
  {
    if total == 0 then []
    else
      CutFits(total, k == 0 && withPts);
      var c := CutOf(total, Overhead(k == 0 && withPts));
      [sticky || c.last] + Flags(total - c.esBlock, withPts, k + 1, sticky || c.last)
  }

  /** How much of the block is left in front of each packet. */
  ghost function Lefts(total: nat, withPts: bool, k: nat): seq<nat>
    decreases total
  {
    if total == 0 then []
    else
      CutFits(total, k == 0 && withPts);
      [total] + Lefts(total - CutOf(total, Overhead(k == 0 && withPts)).esBlock, withPts, k + 1)
  }

  /** Each packet has its header fields, announces the time stamp only in the first packet of a first block, and is
      marked with its flag: the marker is the last header byte. */
  lemma {:induction false} PacketsMarked(rest: seq<byte>, codec: Codec, naluType: int, pts: int, withPts: bool, k: nat,
                                         sticky: bool, i: nat)
    requires i < |Packets(rest, codec, naluType, pts, withPts, k, sticky)|
    ensures var ps, fs := Packets(rest, codec, naluType, pts, withPts, k, sticky), Flags(|rest|, withPts, k, sticky);
      && |ps| == |fs| && Marked(ps[i], Marker(codec, naluType, k + i == 0, fs[i]))
      && Headed(ps[i], codec, k + i == 0, if k + i == 0 && withPts then Some(Clock(pts)) else None)
    decreases |rest|
  {
    hide Packets, Flags, Marker, Marked, Carries, Pieces, Headed, Clock;
    NoPackets(codec, naluType, pts, withPts, k, sticky);
    var p, n, flag := FirstPacket(rest, codec, naluType, pts, withPts, k, sticky);
    NoPackets(codec, naluType, pts, withPts, k + 1, flag);
    var tail := Packets(rest[n..], codec, naluType, pts, withPts, k + 1, flag);
    var flags := Flags(|rest[n..]|, withPts, k + 1, flag);
    assert i > 0 ==> ([p] + tail)[i] == tail[i - 1] && (|tail| == |flags| ==> ([flag] + flags)[i] == flags[i - 1]);
    if i > 0 || tail != [] {
      PacketsMarked(rest[n..], codec, naluType, pts, withPts, k + 1, flag, if i > 0 then i - 1 else 0);
    } else {
      SomePackets(rest[n..], codec, naluType, pts, withPts, k + 1, flag);
    }
  }

  ghost predicate Marked(p: seq<byte>, marker: byte) {
    |p| > 8 && 8 + p[8] < |p| && p[8 + p[8]] == marker
  }

  lemma NoPackets(codec: Codec, naluType: int, pts: int, withPts: bool, k: nat, sticky: bool)
    ensures Packets([], codec, naluType, pts, withPts, k, sticky) == [] && Flags(0, withPts, k, sticky) == []
  {
  }

  lemma SomePackets(rest: seq<byte>, codec: Codec, naluType: int, pts: int, withPts: bool, k: nat, sticky: bool)
    ensures Packets(rest, codec, naluType, pts, withPts, k, sticky) == [] ==> rest == []
  {
  }

  /** In every block each packet's flag is right, set exactly on the last packet, except where three sizes are left. */
  lemma FlagsExact(total: nat, withPts: bool, i: nat)
    requires i < |Flags(total, withPts, 0, false)|
    ensures var fs, ls, room := Flags(total, withPts, 0, false), Lefts(total, withPts, 0), Room(i == 0 && withPts);
      && |ls| == |fs|
      && ((fs[i] <==> i == |fs| - 1) <==> ls[i] !in {room, room - 6, room - 7})
  {
    FlagsFrom(total, withPts, 0, false, i);
  }

  function Room(hasPts: bool): int { PACKET_SIZE - 6 - Overhead(hasPts) }

  lemma {:induction false} FlagsFrom(total: nat, withPts: bool, k: nat, sticky: bool, i: nat)
    requires i < |Flags(total, withPts, k, sticky)| && (sticky ==> total <= 3)
    ensures var fs, ls, room := Flags(total, withPts, k, sticky), Lefts(total, withPts, k), Room(k + i == 0 && withPts);
      && |ls| == |fs|
      && ((fs[i] <==> i == |fs| - 1) <==> ls[i] !in {room, room - 6, room - 7})
    decreases total
  {
    hide Flags, Lefts, Room;
    var left, flag := FlagsFirst(total, withPts, k, sticky);
    if i > 0 || left > 0 { FlagsFrom(left, withPts, k + 1, flag, if i > 0 then i - 1 else 0); }
  }

  lemma FlagsFirst(total: nat, withPts: bool, k: nat, sticky: bool) returns (left: nat, flag: bool)
    requires Flags(total, withPts, k, sticky) != [] && (sticky ==> total <= 3)
    ensures left < total && (flag && left > 0 ==> left <= 3)
    ensures Flags(total, withPts, k, sticky) == [flag] + Flags(left, withPts, k + 1, flag)
    ensures Lefts(total, withPts, k) == [total] + Lefts(left, withPts, k + 1)
    ensures left == 0 <==> Flags(left, withPts, k + 1, flag) == []
    ensures left == 0 ==> Lefts(left, withPts, k + 1) == []
    ensures var room := Room(k == 0 && withPts); (flag <==> left == 0) <==> total !in {room, room - 6, room - 7}
  {
    hide CutOf;
    CutFits(total, k == 0 && withPts);
    LastFlagExact(total, k == 0 && withPts);
    var c := CutOf(total, Overhead(k == 0 && withPts));
    left, flag := total - c.esBlock, sticky || c.last;
  }

  // ----- blocks of H.264 without a start code

  /** A block of H.264 that starts with a start code and holds more than that: the unit type is its fifth byte. */
  predicate HasStartCode(data: seq<byte>) {
    |data| > 4 && data[..4] == START_CODE
  }

  function NaluTypeOf(data: seq<byte>, codec: Codec): int {
    if codec == H264 && |data| > 4 then
      if HasStartCode(data) then data[4] as int % 0x20 else data[0] as int % 0x20
    else 0
  }

  predicate IsBare(data: seq<byte>, codec: Codec) {
    codec == H264 && data != [] && !HasStartCode(data)
  }

  /** Such a block of more than four bytes is taken for four bytes longer. */
  function BareCut(length: nat, withPts: bool): Cut {
    CutOf(if length > 4 then length + 4 else length, Overhead(withPts))
  }

  /** Where the first copy of its bytes starts: a shorter one is skipped. */
  function BareFrom(at: nat, length: nat): nat { if length > 4 then at else at + 4 }

  /** The first packet: the start code is written in front of the bytes, but not counted. */
  function BarePacket(pts: Option<int>, pad: nat, marker: byte, es: seq<byte>): (r: seq<byte>)
    requires pad <= 3 && 6 + Overhead(pts.Some?) + pad + |es| <= PACKET_SIZE
  {
    FixedHeader(H264, true, pts.Some?, pad, |es|)
    + (if pts.Some? then PtsField(pts.value) else []) + Copies(0xFF, 1 + pad) + [marker] + (START_CODE + es)
  }

  /** The bytes the call copies lie in `mem`, where the block is at `at`. */
  predicate InReach(mem: seq<byte>, at: nat, length: nat, codec: Codec, withPts: bool) {
    at + length <= |mem| &&
    (IsBare(mem[at..at + length], codec) ==> BareFrom(at, length) + BareCut(length, withPts).esBlock <= |mem|)
  }

  /** The marker bytes of a block, by what it holds and where its packets stand. Parameter sets and audio have one mark;
      the first, middle and last packets of a slice or a picture have their own, except where one of three sizes is
      left for a packet behind the first. */
  lemma BlockMarks(mem: seq<byte>, at: nat, length: nat, codec: Codec, pts: int, withPts: bool, i: nat)
    requires InReach(mem, at, length, codec, withPts) && i < |BlockPackets(mem, at, length, codec, pts, withPts)|
    requires codec == H264 ==> length > 4 && mem[at..at + 4] == [0, 0, 0, 1]
    ensures var ps, left := BlockPackets(mem, at, length, codec, pts, withPts), Lefts(length, withPts, 0);
      var t := if codec == H264 then mem[at + 4] as int % 0x20 else 0;
      && |left| == |ps|
      && (codec == PCMA || codec == PCMU || t in {6, 7, 8} ==> Marked(ps[i], 0xFC))
      && (codec == AAC || (codec == H264 && t !in {1, 5, 6, 7, 8}) ==> Marked(ps[i], 0xFF))
      && (codec == JPEG || t in {1, 5} ==>
            && (i == 0 ==> Marked(ps[i], 0xFD))
            && (i > 0 && left[i] !in {5109, 5103, 5102} ==>
                  Marked(ps[i], if i < |ps| - 1 then 0xFF else if codec == JPEG then 0xFE else 0xFA)))
  {
    hide Packets, Flags, Lefts, Marked, PtsIn, OfStream, Clock, PtsFormed;
    var data := mem[at..at + length];
    assert codec == H264 ==> data[..4] == mem[at..at + 4] && data[4] == mem[at + 4];
    PacketsMarked(data, codec, NaluTypeOf(data, codec), pts, withPts, 0, false, i);
    FlagsExact(length, withPts, i);
  }

  lemma BareFits(length: nat, withPts: bool)
    requires length > 0
    ensures var c := BareCut(length, withPts);
      0 < c.esBlock && 0 <= c.pad <= 3 && 6 + Overhead(withPts) + c.pad + c.esBlock <= PACKET_SIZE
    ensures length <= 4 ==> BareCut(length, withPts).esBlock == length
  {
    CutFits(if length > 4 then length + 4 else length, withPts);
  }

  ghost function BareFirst(mem: seq<byte>, at: nat, length: nat, pts: int, withPts: bool): seq<byte>
    requires length > 0 && InReach(mem, at, length, H264, withPts) && IsBare(mem[at..at + length], H264)
  {
    BareFits(length, withPts);
    var c, from := BareCut(length, withPts), BareFrom(at, length);
    BarePacket(if withPts then Some(pts) else None, c.pad,
               Marker(H264, NaluTypeOf(mem[at..at + length], H264), true, c.last), mem[from..from + c.esBlock])
  }

  /** All packets of the block at `at`. */
  ghost function BlockPackets(mem: seq<byte>, at: nat, length: nat, codec: Codec, pts: int,
                              withPts: bool): seq<seq<byte>>
    requires InReach(mem, at, length, codec, withPts)
  {
    var data := mem[at..at + length];
    var naluType := NaluTypeOf(data, codec);
    if !IsBare(data, codec) then Packets(data, codec, naluType, pts, withPts, 0, false)
    else
      var c := BareCut(length, withPts);
      [BareFirst(mem, at, length, pts, withPts)]
      + Packets(data[Least(c.esBlock, length)..], codec, naluType, pts, withPts, 1, c.last)
  }

  function Least(a: int, b: nat): (m: nat)
    ensures m <= b
  {
    if a < 0 then 0 else if a < b then a else b
  }

  /** What the length field counts of such a packet carries the start code and all but four bytes; those four stand
      between the packets. */
  lemma BareSplits(pts: Option<int>, pad: nat, marker: byte, es: seq<byte>)
    requires pad <= 3 && 6 + Overhead(pts.Some?) + pad + |es| <= PACKET_SIZE
    ensures var p, t := BarePacket(pts, pad, marker, es), START_CODE + es;
      && |p| == 6 + Overhead(pts.Some?) + pad + |es| + 4 && PacketSize(p) + 4 == |p|
      && Carries(p[..|p| - 4], t[..|es|]) && p == p[..|p| - 4] + t[|es|..]
      && Marked(p, marker) && Headed(p, H264, true, if pts.Some? then Some(Clock(pts.value)) else None)
  {
    hide PtsOf, Clock, PtsFormed;
    var p, t := BarePacket(pts, pad, marker, es), START_CODE + es;
    var q := Packet(H264, true, pts, pad, marker, t[..|es|]);
    PacketReads(H264, true, pts, pad, marker, t[..|es|]);
    assert t == t[..|es|] + t[|es|..];
    assert p == q + t[|es|..];
    assert p[..|p| - 4] == q;
    assert pts.Some? ==> p[9..14] == q[9..14];
  }

  /** What the packets of one block announce. */
  lemma BlockTimed(rest: seq<byte>, codec: Codec, naluType: int, pts: int, withPts: bool)
    ensures var ps := Packets(rest, codec, naluType, pts, withPts, 0, false);
      forall i :: 0 <= i < |ps| ==>
        OfStream(ps[i], codec) && PtsIn(ps[i]) == if i == 0 && withPts then Some(Clock(pts)) else None
  {
    hide Packets, Flags, Marker, Marked, PtsIn, OfStream, Clock, PtsFormed;
    var ps := Packets(rest, codec, naluType, pts, withPts, 0, false);
    forall i | 0 <= i < |ps|
      ensures OfStream(ps[i], codec) && PtsIn(ps[i]) == if i == 0 && withPts then Some(Clock(pts)) else None
    {
      PacketsMarked(rest, codec, naluType, pts, withPts, 0, false, i);
    }
  }

  /** No reader gets to the end of these packets, whatever comes behind them. */
  ghost predicate Broken(ps: seq<seq<byte>>) {
    forall after: seq<byte> :: Read(Flatten(ps) + after) == None
  }

  /** A block that is a start code alone, with another start code behind it, breaks the stream. */
  lemma EmptyBlockBreaks(mem: seq<byte>, at: nat, pts: int, withPts: bool)
    requires at + 8 <= |mem| && mem[at..at + 4] == START_CODE && mem[at + 4..at + 8] == START_CODE
    ensures InReach(mem, at, 4, H264, withPts)
    ensures var ps := BlockPackets(mem, at, 4, H264, pts, withPts);
      |ps| == 1 && Broken(ps) && Headed(ps[0], H264, true, if withPts then Some(Clock(pts)) else None)
  {
    hide BarePacket, Marker, Carries, CutOf, PtsField, Broken, Headed, Clock, Marked;
    BareFits(4, withPts);
    var c := BareCut(4, withPts);
    var marker := Marker(H264, NaluTypeOf(mem[at..at + 4], H264), true, c.last);
    BareSplits(if withPts then Some(pts) else None, c.pad, marker, START_CODE);
    var p := BareFirst(mem, at, 4, pts, withPts);
    assert mem[at..at + 4][4..] == [];
    assert BlockPackets(mem, at, 4, H264, pts, withPts) == [p] + [] == [p];
    assert (START_CODE + START_CODE)[..4] == START_CODE && (START_CODE + START_CODE)[4..] == START_CODE;
    StartCodeBreaks(p, p[..|p| - 4]);
  }

  lemma StartCodeBreaks(p: seq<byte>, q: seq<byte>)
    requires Carries(q, START_CODE) && p == q + START_CODE
    ensures Broken([p])
  {
    ReadPacket(q, START_CODE);
    assert Flatten([p]) == p by { assert Flatten([p]) == p + Flatten([]); }
    forall after: seq<byte> ensures Read(Flatten([p]) + after) == None {
      Assoc(q, START_CODE, after);
      ReadAppend(q, START_CODE + after);
      NotAStart(START_CODE + after);
    }
  }

  lemma NotAStart(s: seq<byte>)
    requires |s| >= 4 && s[2] == 0
    ensures Read(s) == None
  {
  }

  lemma BrokenBehind(ps: seq<seq<byte>>, es: seq<seq<byte>>, qs: seq<seq<byte>>)
    requires |ps| == |es| && (forall i :: 0 <= i < |ps| ==> Carries(ps[i], es[i])) && Broken(qs)
    ensures Broken(ps + qs)
  {
    forall after: seq<byte> ensures Read(Flatten(ps + qs) + after) == None {
      FlattenAppend(ps, qs);
      Assoc(Flatten(ps), Flatten(qs), after);
      ReadPackets(ps, es, Flatten(qs) + after);
    }
  }

  lemma BrokenStays(ps: seq<seq<byte>>, qs: seq<seq<byte>>)
    requires Broken(ps)
    ensures Broken(ps + qs)
  {
    forall after: seq<byte> ensures Read(Flatten(ps + qs) + after) == None {
      FlattenAppend(ps, qs);
      Assoc(Flatten(ps), Flatten(qs), after);
    }
  }

  /** The pieces the block is cut into. */
  ghost function Pieces(rest: seq<byte>, withPts: bool, k: nat): (es: seq<seq<byte>>)
    ensures Flatten(es) == rest
    decreases |rest|
  {
    if rest == [] then []
    else
      CutFits(|rest|, k == 0 && withPts);
      var n := CutOf(|rest|, Overhead(k == 0 && withPts)).esBlock;
      [rest[..n]] + Pieces(rest[n..], withPts, k + 1)
  }

  lemma NextCarries(rest: seq<byte>, codec: Codec, naluType: int, pts: int, withPts: bool, k: nat, sticky: bool)
    requires rest != []
    ensures var p, c := NextPacket(rest, codec, naluType, pts, withPts, k, sticky),
      CutOf(|rest|, Overhead(k == 0 && withPts));
      && 0 < c.esBlock <= |rest| && Carries(p, rest[..c.esBlock]) && |p| <= PACKET_SIZE
      && Marked(p, Marker(codec, naluType, k == 0, sticky || c.last))
      && Headed(p, codec, k == 0, if k == 0 && withPts then Some(Clock(pts)) else None)
  {
    hide Marked, Carries, Headed, Clock;
    var hasPts := k == 0 && withPts;
    CutFits(|rest|, hasPts);
    var c := CutOf(|rest|, Overhead(hasPts));
    var marker := Marker(codec, naluType, k == 0, sticky || c.last);
    PacketReads(codec, k == 0, if hasPts then Some(pts) else None, c.pad, marker, rest[..c.esBlock]);
  }

  /** Packet by packet, ps carry the pieces es, and each fits the packet size. */
  ghost predicate AllCarry(ps: seq<seq<byte>>, es: seq<seq<byte>>) {
    |ps| == |es| && forall i :: 0 <= i < |ps| ==> Carries(ps[i], es[i]) && |ps[i]| <= PACKET_SIZE
  }

  lemma ConsCarry(p: seq<byte>, e: seq<byte>, ps: seq<seq<byte>>, es: seq<seq<byte>>)
    requires Carries(p, e) && |p| <= PACKET_SIZE && AllCarry(ps, es)
    ensures AllCarry([p] + ps, [e] + es)
  {
  }

  lemma PacketsSplit(rest: seq<byte>, codec: Codec, naluType: int, pts: int, withPts: bool, k: nat, sticky: bool)
    requires rest != []
    ensures var c := CutOf(|rest|, Overhead(k == 0 && withPts));
      && 0 < c.esBlock <= |rest|
      && Packets(rest, codec, naluType, pts, withPts, k, sticky) ==
           [NextPacket(rest, codec, naluType, pts, withPts, k, sticky)]
           + Packets(rest[c.esBlock..], codec, naluType, pts, withPts, k + 1, sticky || c.last)
      && Pieces(rest, withPts, k) == [rest[..c.esBlock]] + Pieces(rest[c.esBlock..], withPts, k + 1)
  {
    CutFits(|rest|, k == 0 && withPts);
  }

  lemma NoCarry(codec: Codec, naluType: int, pts: int, withPts: bool, k: nat, sticky: bool)
    ensures AllCarry(Packets([], codec, naluType, pts, withPts, k, sticky), Pieces([], withPts, k))
  {
  }

  /** The first packet and piece by name, and what follows them. */
  lemma FirstPacket(rest: seq<byte>, codec: Codec, naluType: int, pts: int, withPts: bool, k: nat, sticky: bool)
    returns (p: seq<byte>, n: nat, last: bool)
    requires rest != []
    ensures 0 < n <= |rest| && Carries(p, rest[..n]) && |p| <= PACKET_SIZE
    ensures Marked(p, Marker(codec, naluType, k == 0, last))
    ensures Headed(p, codec, k == 0, if k == 0 && withPts then Some(Clock(pts)) else None)
    ensures Flags(|rest|, withPts, k, sticky) == [last] + Flags(|rest| - n, withPts, k + 1, last)
    ensures Packets(rest, codec, naluType, pts, withPts, k, sticky) ==
      [p] + Packets(rest[n..], codec, naluType, pts, withPts, k + 1, last)
    ensures Pieces(rest, withPts, k) == [rest[..n]] + Pieces(rest[n..], withPts, k + 1)
  {
    hide Packets, NextPacket, Pieces, Marker, Marked, Carries, CutOf, Headed, Clock;
    NextCarries(rest, codec, naluType, pts, withPts, k, sticky);
    PacketsSplit(rest, codec, naluType, pts, withPts, k, sticky);
    var c := CutOf(|rest|, Overhead(k == 0 && withPts));
    p, n, last := NextPacket(rest, codec, naluType, pts, withPts, k, sticky), c.esBlock, sticky || c.last;
  }

  /** Packet by packet, the packets carry the pieces, and each fits the 5120-byte packet size. */
  lemma {:induction false} PacketsCarry(rest: seq<byte>, codec: Codec, naluType: int, pts: int, withPts: bool,
                                        k: nat, sticky: bool)
    ensures AllCarry(Packets(rest, codec, naluType, pts, withPts, k, sticky), Pieces(rest, withPts, k))
    decreases |rest|
  {
    hide Packets, Pieces, Carries, AllCarry, Marked, Marker, Flags, Headed;
    NoCarry(codec, naluType, pts, withPts, k, sticky);
    if rest != [] {
      var p, n, last := FirstPacket(rest, codec, naluType, pts, withPts, k, sticky);
      PacketsCarry(rest[n..], codec, naluType, pts, withPts, k + 1, last);
      ConsCarry(p, rest[..n], Packets(rest[n..], codec, naluType, pts, withPts, k + 1, last),
        Pieces(rest[n..], withPts, k + 1));
    }
  }

  /** The packets already made and those still to come, one turn later. */
  lemma PacketsTurn(done: seq<seq<byte>>, rest: seq<byte>, codec: Codec, naluType: int, pts: int, withPts: bool,
                    k: nat, sticky: bool)
    requires rest != []
    ensures var c, p := CutOf(|rest|, Overhead(k == 0 && withPts)),
      NextPacket(rest, codec, naluType, pts, withPts, k, sticky);
      && 0 < c.esBlock <= |rest|
      && done + Packets(rest, codec, naluType, pts, withPts, k, sticky)
           == (done + [p]) + Packets(rest[c.esBlock..], codec, naluType, pts, withPts, k + 1, sticky || c.last)
  {
    PacketsSplit(rest, codec, naluType, pts, withPts, k, sticky);
  }

  /** A reader of the packets gets the block back: nothing lost, repeated or reordered. */
  lemma PacketsRead(data: seq<byte>, codec: Codec, naluType: int, pts: int, withPts: bool, after: seq<byte>)
    requires Read(after).Some?
    ensures Read(Flatten(Packets(data, codec, naluType, pts, withPts, 0, false)) + after)
      == Some(data + Read(after).value)
  {
    PacketsCarry(data, codec, naluType, pts, withPts, 0, false);
    ReadPackets(Packets(data, codec, naluType, pts, withPts, 0, false), Pieces(data, withPts, 0), after);
  }
}
