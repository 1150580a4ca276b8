/** What an MPEG program stream reader does with the packets of src/xpr_pes.c: the pack header, the
    program stream map, and the PES packet of section 2.4.3.6 of ISO/IEC 13818-1. */
module ProgramStream {

  import opened Common

  /** The four-byte start code of Annex B of ITU-T H.264. */
  const START_CODE: seq<byte> := [0, 0, 0, 1]

  ghost predicate StartCode(s: seq<byte>, id: byte) {
    |s| >= 4 && s[0] == 0 && s[1] == 0 && s[2] == 1 && s[3] == id
  }

  /** Bytes a pack header occupies: 14 and the stuffing its last field announces. */
  ghost function PackSize(s: seq<byte>): nat
    requires |s| >= 14
  {
    14 + s[13] % 8
  }

  /** Bytes a packet with a 16-bit length field occupies. */
  ghost function PacketSize(s: seq<byte>): nat
    requires |s| >= 6
  {
    6 + 256 * (s[4] as int) + s[5] as int
  }

  /** The payload of a PES packet: what follows the optional header fields and the stuffing. */
  ghost function Payload(s: seq<byte>): Option<seq<byte>> {
    if |s| >= 9 && 9 + s[8] <= PacketSize(s) <= |s| then Some(s[9 + s[8]..PacketSize(s)]) else None
  }

  /** Read a stream to its end: skip pack headers and stream maps, collect the PES payloads. */
  ghost function Read(s: seq<byte>): Option<seq<byte>>
    decreases |s|
  {
    if s == [] then Some([])
    else if StartCode(s, 0xBA) then
      if |s| >= 14 && PackSize(s) <= |s| then Read(s[PackSize(s)..]) else None
    else if StartCode(s, 0xBC) then
      if |s| >= 6 && PacketSize(s) <= |s| then Read(s[PacketSize(s)..]) else None
    else if StartCode(s, 0xC0) || StartCode(s, 0xE0) then
      if Payload(s).None? then None
      else
        var rest := Read(s[PacketSize(s)..]);
        if rest.None? then None else Some(Payload(s).value + rest.value)
    else None
  }

  /** A complete PES packet with payload es. */
  ghost predicate Carries(p: seq<byte>, es: seq<byte>) {
    && (StartCode(p, 0xC0) || StartCode(p, 0xE0))
    && |p| >= 9 && PacketSize(p) == |p| && 9 + p[8] <= |p|
    && p[9 + p[8]..] == es
  }

  /** Streams read one behind the other: where the first reads to its end, the second is read on its own. */
  lemma {:induction false} ReadAppend(a: seq<byte>, b: seq<byte>)
    requires Read(a).Some?
    ensures Read(a + b) == if Read(b).None? then None else Some(Read(a).value + Read(b).value)
    decreases |a|
  {
    if a == [] {
      assert a + b == b;
      assert Read(b).Some? ==> [] + Read(b).value == Read(b).value;
    } else {
      var n := if StartCode(a, 0xBA) then PackSize(a) else PacketSize(a);
      ReadAppend(a[n..], b);
      ReadHead(a, b, n);
      if Read(b).Some? && !StartCode(a, 0xBA) && !StartCode(a, 0xBC) {
        Assoc(Payload(a).value, Read(a[n..]).value, Read(b).value);
      }
    }
  }

  /** The packet in front is the same with more bytes behind. */
  lemma ReadHead(a: seq<byte>, b: seq<byte>, n: nat)
    requires 6 <= |a| && n <= |a| && (StartCode(a, 0xBA) ==> |a| >= 14)
    requires n == if StartCode(a, 0xBA) then PackSize(a) else PacketSize(a)
    ensures (a + b)[n..] == a[n..] + b && (Payload(a).Some? && n == PacketSize(a) ==> Payload(a + b) == Payload(a))
    ensures StartCode(a, 0xBA) ==> PackSize(a + b) == n
    ensures PacketSize(a + b) == PacketSize(a)
    ensures forall id :: StartCode(a + b, id) == StartCode(a, id)
  {
    assert (a + b)[..|a|] == a;
    if Payload(a).Some? && n == PacketSize(a) { assert (a + b)[9 + a[8]..n] == a[9 + a[8]..n]; }
  }

  /** A stream of streams that each read to their end reads as all they say, in order. */
  lemma {:induction false} FramesRead(parts: seq<seq<byte>>, contents: seq<seq<byte>>)
    requires |parts| == |contents| && forall i :: 0 <= i < |parts| ==> Read(parts[i]) == Some(contents[i])
    ensures Read(Flatten(parts)) == Some(Flatten(contents))
  {
    if parts != [] {
      FramesRead(parts[1..], contents[1..]);
      ReadAppend(parts[0], Flatten(parts[1..]));
    }
  }

  /** A packet on its own reads as its payload. */
  lemma ReadPacket(p: seq<byte>, es: seq<byte>)
    requires Carries(p, es)
    ensures Read(p) == Some(es)
  {
    assert p[|p|..] == [] && p[9 + p[8]..PacketSize(p)] == es;
    assert Read(p[|p|..]) == Some([]) && es + [] == es;
  }

  /** Packets that carry the pieces es, in order, read as those pieces in order, and what follows them on its own. */
  lemma ReadPackets(ps: seq<seq<byte>>, es: seq<seq<byte>>, after: seq<byte>)
    requires |ps| == |es| && forall i :: 0 <= i < |ps| ==> Carries(ps[i], es[i])
    ensures Read(Flatten(ps)) == Some(Flatten(es))
    ensures Read(Flatten(ps) + after) == if Read(after).None? then None else Some(Flatten(es) + Read(after).value)
  {
    forall i | 0 <= i < |ps| ensures Read(ps[i]) == Some(es[i]) { ReadPacket(ps[i], es[i]); }
    FramesRead(ps, es);
    ReadAppend(Flatten(ps), after);
  }

  lemma ReadPack(p: seq<byte>, rest: seq<byte>)
    requires StartCode(p, 0xBA) && |p| >= 14 && PackSize(p) == |p|
    ensures Read(p + rest) == Read(rest)
  {
    assert (p + rest)[|p|..] == rest;
  }

  lemma ReadMap(p: seq<byte>, rest: seq<byte>)
    requires StartCode(p, 0xBC) && |p| >= 6 && PacketSize(p) == |p|
    ensures Read(p + rest) == Read(rest)
  {
    assert (p + rest)[|p|..] == rest;
  }

  // ----- the 33-bit clock fields

  /** The time stamp of a PTS field (section 2.4.3.6): bits 32-30, 29-15 and 14-0, each group followed
      by a marker bit. */
  ghost function PtsOf(f: seq<byte>): int
    requires |f| == 5
  {
    var b := (i: int) requires 0 <= i < 5 => f[i] as int;
    (b(0) / 2 % 8) * 0x4000_0000 + b(1) * 0x40_0000 + (b(2) / 2) * 0x8000 + b(3) * 0x80 + b(4) / 2
  }

  /** Its fixed bits: '0010' in front when no DTS follows, and a marker bit behind each group. */
  ghost predicate PtsFormed(f: seq<byte>) {
    |f| == 5 && f[0] / 0x10 == 2 && f[0] % 2 == 1 && f[2] % 2 == 1 && f[4] % 2 == 1
  }

  /** What a packet announces: its time stamp when the PTS_DTS_flags are '10', and none when they are '00'. */
  ghost function PtsIn(p: seq<byte>): Option<int> {
    if |p| >= 14 && p[7] / 0x40 == 2 then Some(PtsOf(p[9..14])) else None
  }

  /** The system_clock_reference_base of a pack header (section 2.5.3.3). */
  ghost function ScrOf(h: seq<byte>): int
    requires |h| >= 14
  {
    var b := (i: int) requires 0 <= i < 14 => h[i] as int;
    (b(4) / 8 % 8) * 0x4000_0000 + (b(4) % 4) * 0x1000_0000 + b(5) * 0x10_0000
    + (b(6) / 8) * 0x8000 + (b(6) % 4) * 0x2000 + b(7) * 0x20 + b(8) / 8
  }

  /** The fixed bits of a pack header: '01' in front, the marker bits of the clock reference, and the two behind the
      multiplex rate. */
  ghost predicate ScrFormed(h: seq<byte>) {
    && |h| >= 14 && h[4] / 0x40 == 1
    && h[4] / 4 % 2 == 1 && h[6] / 4 % 2 == 1 && h[8] / 4 % 2 == 1 && h[9] % 2 == 1 && h[12] % 4 == 3
  }
}
