/** The packetiser of src/xpr_pes.c over its 8192-byte packet buffer. `posted` records what the write
    callbacks were given, call by call. */
module PesWriter {
  import opened Common
  import opened ProgramStream
  import opened PesFormat
  import opened H264

  const BUFFER_SIZE := 8192
  const MAX_NALUS := 16
  const NALU_SPS := 7
  const NALU_AUD := 9

  /** What is posted for the packets ps when the buffer already holds `prefix`. */
  ghost function Posts(prefix: seq<byte>, ps: seq<seq<byte>>): seq<seq<byte>> {
    if ps == [] then [] else [prefix + ps[0]] + ps[1..]
  }

  lemma PostsFlat(prefix: seq<byte>, ps: seq<seq<byte>>)
    ensures ps != [] ==> Flatten(Posts(prefix, ps)) == prefix + Flatten(ps)
  {
    if ps != [] {
      assert Posts(prefix, ps)[1..] == ps[1..];
      assert prefix + ps[0] + Flatten(ps[1..]) == prefix + (ps[0] + Flatten(ps[1..]));
    }
  }

  class Pes {
    const packetBuffer: array<byte>
    var packetLength: nat
    var totalPackets: int
    ghost var posted: seq<seq<byte>>

    /** The buffer holds nothing, a pack header, or a pack header and a stream map. */
    ghost predicate Valid()
      reads this
    {
      packetBuffer.Length == BUFFER_SIZE && packetLength <= 20 + 96
    }

    ghost function Prefix(): seq<byte>
      requires Valid()
      reads this, packetBuffer
    {
      packetBuffer[..packetLength]
    }

    constructor ()
      ensures Valid() && fresh(packetBuffer) && packetLength == 0 && totalPackets == 1 && posted == []
    {
      packetBuffer := new byte[BUFFER_SIZE];
      packetLength, totalPackets, posted := 0, 1, [];
    }

    /** memcpy into the packet buffer. */
    method Put(offset: nat, bytes: seq<byte>) returns (next: nat)
      requires offset + |bytes| <= packetBuffer.Length
      modifies packetBuffer
      ensures next == offset + |bytes|
      ensures packetBuffer[..next] == old(packetBuffer[..offset]) + bytes
    {
      for i := 0 to |bytes|
        invariant packetBuffer[..offset + i] == old(packetBuffer[..offset]) + bytes[..i]
      {
        packetBuffer[offset + i] := bytes[i];
        assert packetBuffer[..offset + i + 1] == packetBuffer[..offset + i] + [bytes[i]];
        assert bytes[..i + 1] == bytes[..i] + [bytes[i]];
      }
      assert bytes[..|bytes|] == bytes;
      next := offset + |bytes|;
    }

    /** The stuffing bytes: all but the last of padLen. */
    method PutStuffing(offset: nat, padLen: nat) returns (next: nat)
      requires 0 < padLen && offset + padLen <= packetBuffer.Length
      modifies packetBuffer
      ensures next == offset + padLen - 1
      ensures packetBuffer[..next] == old(packetBuffer[..offset]) + Copies(0xFF, padLen - 1)
    {
      var left := padLen;
      next := offset;
      while left > 1
        invariant 1 <= left <= padLen && next == offset + padLen - left
        invariant packetBuffer[..next] == old(packetBuffer[..offset]) + Copies(0xFF, padLen - left)
      {
        packetBuffer[next] := 0xFF;
        assert packetBuffer[..next + 1] == packetBuffer[..next] + [0xFF];
        assert Copies(0xFF, padLen - left) + [0xFF] == Copies(0xFF, padLen - left + 1);
        left, next := left - 1, next + 1;
      }
    }

    /** Hand the buffer to the callbacks and start the next packet at its front. */
    method Post(length: nat)
      requires length <= packetBuffer.Length
      modifies this`posted, this`packetLength
      ensures posted == old(posted) + [packetBuffer[..length]] && packetLength == 0
    {
      posted := posted + [packetBuffer[..length]];
      packetLength := 0;
    }

    /** The sizes of the next packet (lines 613-681): payload, stuffing, length fields, last-packet flag. */
    method CutNext(total: nat, hasPts: bool, wasLast: bool)
      returns (esBlock: nat, padLen: nat, headerLen: nat, packetLen: nat, isLast: bool)
      requires total > 0
      ensures var c := CutOf(total, Overhead(hasPts));
        && esBlock == c.esBlock && padLen == 2 + c.pad && isLast == (wasLast || c.last)
        && headerLen == 2 + c.pad + (if hasPts then 5 else 0) && packetLen == 3 + headerLen + esBlock
    {
      headerLen, padLen, packetLen, isLast := 2, 2, 5, wasLast;
      if hasPts {
        headerLen, packetLen := headerLen + 5, packetLen + 5;
      }
      CutFits(total, hasPts);
      var es := if total > PACKET_SIZE - packetLen - 6 then PACKET_SIZE - 6 - packetLen else total;
      var a := (6 + packetLen + es) % 4;
      a := if a != 0 then 4 - a else 0;
      padLen, headerLen, packetLen := padLen + a, headerLen + a, packetLen + a;
      if 6 + packetLen + padLen + es > PACKET_SIZE {
        es := es - a;
      }
      if PACKET_SIZE > 6 + packetLen + padLen + es {
        isLast := true;
      }
      esBlock := es;
      packetLen := packetLen + esBlock;
    }

    /** One turn of the packet loop: cut, write header, stuffing, marker and payload, post. */
    method WriteNext(rest: seq<byte>, codec: Codec, naluType: int, pts: int, withPts: bool, k: nat, wasLast: bool)
        returns (esBlock: nat, isLast: bool)
      requires Valid() && rest != []
      modifies this`posted, this`packetLength, packetBuffer
      ensures Valid() && packetLength == 0
      ensures posted == old(posted) + [old(Prefix()) + NextPacket(rest, codec, naluType, pts, withPts, k, wasLast)]
      ensures var c := CutOf(|rest|, Overhead(k == 0 && withPts)); esBlock == c.esBlock && isLast == (wasLast || c.last)
    {
      var hasPts := k == 0 && withPts;
      var padLen, headerLen, packetLen;
      CutFits(|rest|, hasPts);
      esBlock, padLen, headerLen, packetLen, isLast := CutNext(|rest|, hasPts, wasLast);
      var fixed: seq<byte> := [0, 0, 1, StreamId(codec), packetLen / 0x100, packetLen % 0x100,
                               if k == 0 then 0x8C else 0x88, if hasPts then 0x80 else 0, headerLen];
      assert fixed == FixedHeader(codec, k == 0, hasPts, padLen - 2, esBlock);
      var tag := if hasPts then PtsField(pts) else [];
      WriteParts(fixed, tag, padLen, Marker(codec, naluType, k == 0, isLast), rest[..esBlock]);
    }

    /** Write the parts of a packet behind what the buffer holds, and post the buffer. */
    method WriteParts(fixed: seq<byte>, tag: seq<byte>, padLen: nat, marker: byte, es: seq<byte>)
      requires Valid() && padLen > 0 && |fixed| + |tag| + padLen + |es| <= PACKET_SIZE + 4
      modifies this`posted, this`packetLength, packetBuffer
      ensures Valid() && packetLength == 0
      ensures posted == old(posted) + [old(Prefix()) + (fixed + tag + Copies(0xFF, padLen - 1) + [marker] + es)]
    {
      ghost var prefix := Prefix();
      var offset := Put(packetLength, fixed);
      offset := Put(offset, tag);
      offset := PutStuffing(offset, padLen);
      offset := Put(offset, [marker]);
      offset := Put(offset, es);
      assert packetBuffer[..offset] == prefix + (fixed + tag + Copies(0xFF, padLen - 1) + [marker] + es);
      Post(offset);
    }

    /** What was posted for the packets made so far, and what the buffer still holds. */
    ghost predicate Progress(before: seq<seq<byte>>, prefix: seq<byte>, made: seq<seq<byte>>)
      reads this, packetBuffer
    {
      && Valid() && posted == before + Posts(prefix, made)
      && (if made == [] then Prefix() == prefix else packetLength == 0)
    }

    /** One turn of the packet loop: `rest` is what is left of the block, and the packets `made` together
        with those still to come are all the packets of the block. */
    method WriteTurn(rest: seq<byte>, codec: Codec, naluType: int, pts: int, withPts: bool, k: nat, wasLast: bool,
                     ghost before: seq<seq<byte>>, ghost prefix: seq<byte>, ghost made: seq<seq<byte>>)
        returns (left: seq<byte>, isLast: bool, ghost next: seq<seq<byte>>)
      requires rest != [] && Progress(before, prefix, made)
      modifies this`posted, this`packetLength, packetBuffer
      ensures |left| < |rest| && Progress(before, prefix, next)
      ensures made + Packets(rest, codec, naluType, pts, withPts, k, wasLast)
                == next + Packets(left, codec, naluType, pts, withPts, k + 1, isLast)
    {
      ghost var p := NextPacket(rest, codec, naluType, pts, withPts, k, wasLast);
      PacketsTurn(made, rest, codec, naluType, pts, withPts, k, wasLast);
      PostsSnoc(before, prefix, made, p);
      assert Prefix() + p == if made == [] then prefix + p else p;
      var esBlock;
      esBlock, isLast := WriteNext(rest, codec, naluType, pts, withPts, k, wasLast);
      left, next := rest[esBlock..], made + [p];
    }

    /** The first turn for a block of H.264 without a start code: the code is written in front of the bytes. */
    method WriteBare(mem: seq<byte>, at: nat, length: nat, naluType: int, pts: int, withPts: bool)
        returns (esBlock: nat, isLast: bool)
      requires Valid() && length > 0 && InReach(mem, at, length, H264, withPts)
      requires IsBare(mem[at..at + length], H264) && naluType == NaluTypeOf(mem[at..at + length], H264)
      modifies this`posted, this`packetLength, packetBuffer
      ensures Valid() && packetLength == 0
      ensures posted == old(posted) + [old(Prefix()) + BareFirst(mem, at, length, pts, withPts)]
      ensures var c := BareCut(length, withPts); esBlock == c.esBlock && isLast == c.last
    {
      hide PtsField, Marker, Packets, CutOf;
      var total := if length > 4 then length + 4 else length;
      var padLen, headerLen, packetLen;
      BareFits(length, withPts);
      esBlock, padLen, headerLen, packetLen, isLast := CutNext(total, withPts, false);
      var fixed: seq<byte> := [0, 0, 1, StreamId(H264), packetLen / 0x100, packetLen % 0x100, 0x8C,
                               if withPts then 0x80 else 0, headerLen];
      assert fixed == FixedHeader(H264, true, withPts, padLen - 2, esBlock);
      var tag := if withPts then PtsField(pts) else [];
      var from := at + length - (total - 4);
      WriteParts(fixed, tag, padLen, Marker(H264, naluType, true, isLast), START_CODE + mem[from..from + esBlock]);
    }

    /** A block as PES packets. `mem` is the memory, and `data` what is left of the block at `at`, which the
        source's read position and `total` stand for. */
    method WritePESPacket(mem: seq<byte>, at: nat, length: nat, codec: Codec, pts: int, firstPacket: bool)
      requires Valid() && InReach(mem, at, length, codec, firstPacket)
      modifies this`posted, this`packetLength, packetBuffer
      ensures Progress(old(posted), old(Prefix()), BlockPackets(mem, at, length, codec, pts, firstPacket))
    {
      hide Packets, BlockPackets, BareFirst, BareCut, Progress, InReach, HasStartCode, NaluTypeOf;
      BlockSplits(mem, at, length, codec, pts, firstPacket);
      ProgressStarts();
      var data := mem[at..at + length];
      var naluType := NaluTypeOf(data, codec);
      ghost var before, prefix := posted, Prefix();
      var packets, isLastPacket := 0, false;
      ghost var made: seq<seq<byte>> := [];
      if codec == H264 && length > 0 && !HasStartCode(data) {
        var esBlock;
        made := [BareFirst(mem, at, length, pts, firstPacket)];
        esBlock, isLastPacket := WriteBare(mem, at, length, naluType, pts, firstPacket);
        data, packets := data[Least(esBlock, length)..], 1;
        ProgressFirst(before, prefix, made[0]);
      }
      WriteRest(data, codec, naluType, pts, firstPacket, packets, isLastPacket, before, prefix, made);
    }

    lemma ProgressStarts()
      requires Valid()
      ensures Progress(posted, Prefix(), [])
    {
    }

    lemma ProgressFirst(before: seq<seq<byte>>, prefix: seq<byte>, p: seq<byte>)
      requires Valid() && packetLength == 0 && posted == before + [prefix + p]
      ensures Progress(before, prefix, [p])
    {
      assert [prefix + p] + [] == [prefix + p];
    }

    /** The loop over the packets, from one on. */
    method WriteRest(data: seq<byte>, codec: Codec, naluType: int, pts: int, withPts: bool, first: nat, wasLast: bool,
                     ghost before: seq<seq<byte>>, ghost prefix: seq<byte>, ghost soFar: seq<seq<byte>>)
      requires Progress(before, prefix, soFar)
      modifies this`posted, this`packetLength, packetBuffer
      ensures Progress(before, prefix, soFar + Packets(data, codec, naluType, pts, withPts, first, wasLast))
    {
      hide Packets, Progress;
      var packets, rest, isLastPacket := first, data, wasLast;
      ghost var made := soFar;
      ghost var all := made + Packets(rest, codec, naluType, pts, withPts, packets, isLastPacket);
      while |rest| > 0
        invariant packets >= 0 && Progress(before, prefix, made)
        invariant made + Packets(rest, codec, naluType, pts, withPts, packets, isLastPacket) == all
        decreases |rest|
      {
        rest, isLastPacket, made :=
          WriteTurn(rest, codec, naluType, pts, withPts, packets, isLastPacket, before, prefix, made);
        packets := packets + 1;
      }
      NoPackets(codec, naluType, pts, withPts, packets, isLastPacket);
      assert made + [] == made;
    }

    /** The pack header, written at the front of the buffer; the packet counter is 32 bits wide. */
    method WriteProgramPackHeader(pts: int)
      requires Valid()
      modifies this`packetLength, this`totalPackets, packetBuffer
      ensures Valid() && packetLength == 20 && Prefix() == PackHeader(pts, old(totalPackets))
      ensures totalPackets == (old(totalPackets) + 1) % 0x1_0000_0000
    {
      packetLength := Put(0, PackHeader(pts, totalPackets));
      assert packetBuffer[..20] == PackHeader(pts, totalPackets);
      totalPackets := (totalPackets + 1) % 0x1_0000_0000;
    }

    /** The stream map behind the pack header. `body` is what follows its length field: dates, picture
        size and fixed descriptors. The constant in the length field counts it for the video codecs. */
    method WritePSM(codec: Codec, body: seq<byte>)
      requires Valid() && packetLength == 20 && |MAP_START + body| == MapSize(codec)
      modifies this`packetLength, packetBuffer
      ensures Valid() && Prefix() == old(Prefix()) + (MAP_START + body)
      ensures PacketSize(MAP_START + body) == |MAP_START + body| <==> codec == H264 || codec == JPEG
    {
      MapLengthExact(codec);
      packetLength := Put(packetLength, MAP_START + body);
    }

    /** Audio: no pack header. */
    method WritePCMFrame(data: seq<byte>, codec: Codec, pts: int)
      requires Valid() && (codec == PCMA || codec == PCMU) && data != []
      modifies this`posted, this`packetLength, packetBuffer
      ensures Valid() && packetLength == 0
      ensures old(posted) < posted && Read(Flatten(posted[|old(posted)|..])) == Some(data)
      ensures Stamped(posted[|old(posted)|..], codec, pts)
    {
      hide Packets, BlockPackets, InReach, Read, PtsField, Stamped, PtsIn, OfStream, Clock;
      packetLength := 0;
      assert Prefix() == [];
      PlainBlock(data, codec, pts);
      WritePESPacket(data, 0, |data|, codec, pts, true);
      ghost var ps := Packets(data, codec, 0, pts, true, 0, false);
      assert [] + Flatten(ps) == Flatten(ps);
      BlockReads([], data, codec, 0, pts);
      BlockTimed(data, codec, 0, pts, true);
      StampedPosts([], ps, codec, pts, 0, []);
      assert posted[|old(posted)|..] == Posts([], ps);
    }

    method WriteJPEGFrame(data: seq<byte>, pts: int, body: seq<byte>) returns (ok: bool)
      requires Valid() && |data| >= 2 && |MAP_START + body| == MapSize(JPEG)
      modifies this`posted, this`packetLength, this`totalPackets, packetBuffer
      ensures Valid() && ok == !(data[0] != 0xFF && data[1] != 0xD8)
      ensures !ok ==> posted == old(posted)
      ensures ok ==> packetLength == 0 && old(posted) < posted && Read(Flatten(posted[|old(posted)|..])) == Some(data)
      ensures ok ==> Stamped(posted[|old(posted)|..], JPEG, pts)
    {
      hide Packets, BlockPackets, InReach, Read, PtsField, Stamped, PackHeader, PtsIn, OfStream, Clock;
      if data[0] != 0xFF && data[1] != 0xD8 {
        return false;
      }
      ghost var counter := totalPackets;
      WriteProgramPackHeader(pts);
      WritePSM(JPEG, body);
      PlainBlock(data, JPEG, pts);
      WritePESPacket(data, 0, |data|, JPEG, pts, true);
      ghost var ps := Packets(data, JPEG, 0, pts, true, 0, false);
      HeadersRead(pts, counter, body, Flatten(ps));
      BlockReads(PackHeader(pts, counter) + (MAP_START + body), data, JPEG, 0, pts);
      BlockTimed(data, JPEG, 0, pts, true);
      StampedPosts(PackHeader(pts, counter) + (MAP_START + body), ps, JPEG, pts, counter, MAP_START + body);
      assert posted[|old(posted)|..] == Posts(PackHeader(pts, counter) + (MAP_START + body), ps);
      ok := true;
    }

    /** A frame: pack header, stream map, and every unit that is not an access unit delimiter. It fails,
        posting nothing, when the scanner finds no unit or no parameter set among them. What it posts reads as
        the units exactly when no start code stands right behind another; otherwise no reader gets to its end. */
    method WriteH264Frame(data: seq<byte>, pts: int, body: seq<byte>) returns (ok: bool)
      requires Valid() && |MAP_START + body| == MapSize(H264) && Typed(data, UnitSeq(data, MAX_NALUS))
      modifies this`posted, this`packetLength, this`totalPackets, packetBuffer
      ensures Valid() && ok == HasType(data, UnitSeq(data, MAX_NALUS), NALU_SPS)
      ensures !ok ==> posted == old(posted) && packetLength == old(packetLength) && totalPackets == old(totalPackets)
      ensures ok ==> packetLength == 0 && old(posted) < posted && Stamped(posted[|old(posted)|..], H264, pts)
      ensures ok ==> var us := UnitSeq(data, MAX_NALUS);
        Read(Flatten(posted[|old(posted)|..])) == if Solid(us) then Some(Flatten(Kept(data, us, NALU_AUD))) else None
    {
      hide Read, PtsField, PackHeader, Stamped, Kept, Broken, Timed;
      var nalus := new Nalu[MAX_NALUS](i => Nalu(0, 0));
      var n := ScanNALU(data, nalus);
      ghost var us := UnitSeq(data, MAX_NALUS);
      UnitSeqIs(data, MAX_NALUS, nalus[..], n);
      assert nalus[..][..n] == nalus[..n] == us;
      if n < 1 {
        return false;
      }
      ok := ProbeFrameInfo(data, nalus, n, NALU_SPS);
      if !ok {
        return;
      }
      forall u | u in us && u.length == 0 ensures Followed(data, u) { EmptyIsFollowed(data, MAX_NALUS, u); }
      ghost var before, prefix := posted, PackHeader(pts, totalPackets) + (MAP_START + body);
      ghost var counter := totalPackets;
      WriteProgramPackHeader(pts);
      WritePSM(H264, body);
      ghost var made, es := WriteUnits(data, nalus[..n], pts, before, prefix);
      FrameReads(prefix, pts, counter, body, made, es, Solid(us), Flatten(Kept(data, us, NALU_AUD)));
      StampedPosts(prefix, made, H264, pts, counter, MAP_START + body);
      assert posted[|before|..] == Posts(prefix, made);
    }

    /** XPR_PES_WriteFrame: which frames succeed; what a frame posts reads as its content, and so does the whole
        stream so far with the frame behind it; a failing call posts nothing. AAC is not dispatched. */
    method WriteFrame(data: seq<byte>, codec: Codec, pts: int, body: seq<byte>) returns (ok: bool)
      requires Valid() && (codec == JPEG || codec == H264 ==> |MAP_START + body| == MapSize(codec))
      requires codec == H264 ==> Typed(data, UnitSeq(data, MAX_NALUS))
      modifies this`posted, this`packetLength, this`totalPackets, packetBuffer
      ensures Valid() && (!ok ==> posted == old(posted))
      ensures ok ==> old(posted) < posted && Read(Flatten(posted[|old(posted)|..])) == Content(data, codec)
      ensures ok ==> Stamped(posted[|old(posted)|..], codec, pts)
      ensures ok && Read(Flatten(old(posted))).Some? ==>
        Read(Flatten(posted)) == if Content(data, codec).None? then None
                                 else Some(Read(Flatten(old(posted))).value + Content(data, codec).value)
      ensures ok <==> |data| >= 8 && (match codec
                                      case H264 => HasType(data, UnitSeq(data, MAX_NALUS), NALU_SPS)
                                      case JPEG => !(data[0] != 0xFF && data[1] != 0xD8)
                                      case AAC => false
                                      case _ => true)
    {
      if |data| < 8 {
        return false;
      }
      ghost var was := posted;
      match codec {
        case PCMA => WritePCMFrame(data, codec, pts); ok := true;
        case PCMU => WritePCMFrame(data, codec, pts); ok := true;
        case JPEG => ok := WriteJPEGFrame(data, pts, body);
        case H264 => ok := WriteH264Frame(data, pts, body);
        case AAC => ok := false;
      }
      if ok { StreamGrows(was, posted); }
    }

    /** The loop over the units (lines 774-782). */
    method WriteUnits(data: seq<byte>, us: seq<Nalu>, pts: int, ghost before: seq<seq<byte>>, ghost prefix: seq<byte>)
        returns (ghost made: seq<seq<byte>>, ghost es: seq<seq<byte>>)
      requires Writable(data, us) && Progress(before, prefix, [])
      modifies this`posted, this`packetLength, packetBuffer
      ensures Progress(before, prefix, made) && Timed(made, H264, pts)
      ensures Says(made, es, Solid(us), Flatten(Kept(data, us, NALU_AUD)))
      ensures HasType(data, us, NALU_SPS) ==> made != []
    {
      var count := 0;
      made, es := [], [];
      for i := 0 to |us|
        invariant Writable(data, us[..i])
        invariant Progress(before, prefix, made) && Timed(made, H264, pts) && (count == 0 <==> made == [])
        invariant Says(made, es, Solid(us[..i]), Flatten(Kept(data, us[..i], NALU_AUD)))
        invariant HasType(data, us[..i], NALU_SPS) ==> made != []
      {
        PrefixSnoc(data, us, i);
        KeptSnoc(data, us[..i], us[i], NALU_AUD);
        var wrote;
        wrote, made, es := WriteUnless(data, us[i], pts, count == 0, before, prefix, made, es, Solid(us[..i]),
                                       Flatten(Kept(data, us[..i], NALU_AUD)));
        if wrote {
          count := count + 1;
        }
      }
      assert us[..|us|] == us;
    }

    /** Skip an access unit delimiter, write any other unit. */
    method WriteUnless(data: seq<byte>, u: Nalu, pts: int, first: bool, ghost before: seq<seq<byte>>,
                       ghost prefix: seq<byte>, ghost made: seq<seq<byte>>, ghost es: seq<seq<byte>>,
                       ghost solid: bool, ghost said: seq<byte>)
        returns (wrote: bool, ghost made': seq<seq<byte>>, ghost es': seq<seq<byte>>)
      requires Writable(data, [u]) && Progress(before, prefix, made) && Says(made, es, solid, said)
      requires Timed(made, H264, pts) && (made == [] <==> first)
      modifies this`posted, this`packetLength, packetBuffer
      ensures Progress(before, prefix, made') && Timed(made', H264, pts) && (!wrote ==> made' == made)
      ensures wrote == (TypeOf(data, u) != NALU_AUD) && (wrote ==> made' != []) && (made != [] ==> made' != [])
      ensures Says(made', es', solid && u.length > 0, said + if wrote then Piece(data, u) else [])
    {
      hide Timed, Says, Piece, Writable, Progress;
      made', es' := made, es;
      OneWritable(data, u);
      wrote := data[u.start] as int % 0x20 != NALU_AUD;
      if wrote {
        made', es' := WriteUnit(data, u, pts, first, before, prefix, made, es, solid, said);
      } else {
        assert said + [] == said;
      }
    }

    /** One unit of a frame, behind the packets made so far. */
    method WriteUnit(data: seq<byte>, u: Nalu, pts: int, first: bool, ghost before: seq<seq<byte>>,
                     ghost prefix: seq<byte>, ghost made: seq<seq<byte>>, ghost es: seq<seq<byte>>,
                     ghost solid: bool, ghost said: seq<byte>)
        returns (ghost made': seq<seq<byte>>, ghost es': seq<seq<byte>>)
      requires Writable(data, [u]) && Progress(before, prefix, made) && Says(made, es, solid, said)
      requires Timed(made, H264, pts) && (made == [] <==> first)
      modifies this`posted, this`packetLength, packetBuffer
      ensures Progress(before, prefix, made') && made' != [] && Timed(made', H264, pts)
      ensures Says(made', es', solid && u.length > 0, said + Piece(data, u))
    {
      hide *;
      UnitInReach(data, u, first);
      ghost var ps := BlockPackets(data, u.start - 4, u.length + 4, H264, pts, first);
      made' := made + ps;
      es' := UnitAdds(data, u, made, es, ps, solid, said, pts, first);
      ProgressIs(before, prefix, made);
      ghost var was, held := posted, Prefix();
      WritePESPacket(data, u.start - 4, u.length + 4, H264, pts, first);
      ProgressJoins(before, prefix, made, was, held, ps);
    }

    lemma ProgressIs(before: seq<seq<byte>>, prefix: seq<byte>, made: seq<seq<byte>>)
      requires Progress(before, prefix, made)
      ensures Valid() && posted == before + Posts(prefix, made) && Prefix() == if made == [] then prefix else []
    {
    }

    /** The packets of another block, behind those made before. */
    lemma ProgressJoins(before: seq<seq<byte>>, prefix: seq<byte>, made: seq<seq<byte>>,
                        was: seq<seq<byte>>, held: seq<byte>, ps: seq<seq<byte>>)
      requires was == before + Posts(prefix, made) && held == if made == [] then prefix else []
      requires ps != [] && Progress(was, held, ps)
      ensures Progress(before, prefix, made + ps)
    {
      PostsJoin(prefix, made, ps);
      Assoc(before, Posts(prefix, made), Posts(held, ps));
    }
  }

  /** The elementary stream a frame stands for, unless a start code stands right behind another. */
  ghost function Content(data: seq<byte>, codec: Codec): Option<seq<byte>>
    requires codec == H264 ==> Typed(data, UnitSeq(data, MAX_NALUS))
  {
    if codec != H264 then Some(data)
    else
      var us := UnitSeq(data, MAX_NALUS);
      if Solid(us) then Some(Flatten(Kept(data, us, NALU_AUD))) else None
  }

  /** The units that are no access unit delimiters: their type is not 9. */
  ghost function NoDelimiters(us: seq<seq<byte>>): seq<seq<byte>>
    requires forall j :: 0 <= j < |us| ==> us[j] != []
  {
    if us == [] then []
    else
      var n := |us| - 1;
      NoDelimiters(us[..n]) + if us[n][0] as int % 0x20 == 9 then [] else [us[n]]
  }

  /** The round trip of a frame: up to 16 units written behind start codes that the scanner finds can be written when
      one of them has type 7, and they read back, each behind its start code, without the delimiters. */
  lemma FrameRoundTrip(us: seq<seq<byte>>)
    requires us != [] && |us| <= 16 && forall j :: 0 <= j < |us| ==> us[j] != [] && Clean(us[j])
    requires forall j :: 0 <= j < |us| - 1 ==> ZeroRun(us[j], |us[j]|) % 4 == 0
    requires |Written(us[..|us| - 1])| + 4 <= 1024
    ensures var data := Written(us);
      var found := UnitSeq(data, MAX_NALUS);
      && Typed(data, found) && Solid(found) && Content(data, H264) == Some(Written(NoDelimiters(us)))
      && (HasType(data, found, NALU_SPS) <==> exists j :: 0 <= j < |us| && us[j][0] as int % 0x20 == 7)
  {
    hide Written, UnitSeq, Clean, Kept, ZeroRun, Hits, NoDelimiters;
    var data := Written(us);
    var found := UnitSeq(data, MAX_NALUS);
    ScanReadsBack(us, MAX_NALUS);
    UnitSeqUnits(data, MAX_NALUS);
    forall j | 0 <= j < |us| ensures us[j] != [] && UnitIs(data, found[j], us[j]) {
      assert found[j] in found;
      PieceIs(data, found[j], us[j]);
    }
    KeptUnits(data, found, us);
  }

  /** The unit found is the one written, and so is its piece. */
  ghost predicate UnitIs(data: seq<byte>, f: Nalu, u: seq<byte>)
    requires u != []
  {
    && Framed(data, f) && f.start < |data| && f.length > 0
    && TypeOf(data, f) == u[0] as int % 0x20 && Piece(data, f) == START_CODE + u
  }

  lemma PieceIs(data: seq<byte>, f: Nalu, u: seq<byte>)
    requires Framed(data, f) && u != [] && data[f.start..f.start + f.length] == u
    ensures UnitIs(data, f, u)
  {
    assert data[f.start..f.start + f.length][0] == data[f.start];
    assert Piece(data, f) == data[f.start - 4..f.start] + data[f.start..f.start + f.length];
  }

  lemma NoParts()
    ensures Flatten<byte>([]) == []
  {
  }

  lemma {:induction false} KeptUnits(data: seq<byte>, found: seq<Nalu>, us: seq<seq<byte>>)
    requires |found| == |us| && forall j :: 0 <= j < |us| ==> us[j] != [] && UnitIs(data, found[j], us[j])
    ensures Typed(data, found) && Solid(found)
    ensures Flatten(Kept(data, found, NALU_AUD)) == Written(NoDelimiters(us))
    decreases |us|
  {
    hide Flatten, Framed, Piece, Written;
    NothingWritten();
    if us == [] {
      assert Kept(data, found, NALU_AUD) == [];
      NoParts();
    } else {
      var n := |us| - 1;
      assert found == found[..n] + [found[n]];
      KeptUnits(data, found[..n], us[..n]);
      KeptSnoc(data, found[..n], found[n], NALU_AUD);
      var kept := NoDelimiters(us[..n]);
      if us[n][0] as int % 0x20 == 9 {
        assert kept + [] == kept && Written(kept) + [] == Written(kept);
      } else {
        assert (kept + [us[n]])[..|kept|] == kept;
        WrittenSnoc(kept + [us[n]]);
        Assoc(Written(kept), START_CODE, us[n]);
      }
    }
  }

  /** A frame with an empty unit between a parameter set and a slice: it is written, and no reader gets to its end. */
  lemma EmptyUnitBreaks()
    ensures var data := Written([[0x67], [], [0x65]]);
      var us := UnitSeq(data, MAX_NALUS);
      Typed(data, us) && HasType(data, us, NALU_SPS) && !Solid(us) && Content(data, H264) == None
  {
    hide Written, UnitSeq, Clean, Kept, ZeroRun, Hits;
    ThreeParts();
    var parts: seq<seq<byte>> := [[0x67], [], [0x65]];
    ScanReadsBack(parts, MAX_NALUS);
    ThreeUnits(Written(parts), UnitSeq(Written(parts), MAX_NALUS));
  }

  lemma ThreeParts()
    ensures var us: seq<seq<byte>> := [[0x67], [], [0x65]];
      && |Written(us[..2])| + 4 <= SCAN_LIMIT && (forall u :: u in us ==> Clean(u))
      && forall j :: 0 <= j < 2 ==> ZeroRun(us[j], |us[j]|) == 0
  {
    var us: seq<seq<byte>> := [[0x67], [], [0x65]];
    assert us[..1] == [[0x67]] && us[..2] == [[0x67], []] && us[..2][..1] == us[..1] && us[..1][..0] == [];
    WrittenSnoc(us[..1]);
    WrittenSnoc(us[..2]);
    assert Clean(us[0]) && Clean(us[1]) && Clean(us[2]);
  }

  lemma ThreeUnits(data: seq<byte>, us: seq<Nalu>)
    requires us == UnitSeq(data, MAX_NALUS) && |us| == 3
    requires forall j :: 0 <= j < 3 ==> 0 <= us[j].start <= us[j].start + us[j].length <= |data|
    requires data[us[0].start..us[0].start + us[0].length] == [0x67]
    requires data[us[1].start..us[1].start + us[1].length] == []
    requires data[us[2].start..us[2].start + us[2].length] == [0x65]
    ensures Typed(data, us) && HasType(data, us, NALU_SPS) && !Solid(us)
  {
    hide UnitSeq, Hits, Flatten, PiecesOf;
    UnitSeqUnits(data, MAX_NALUS);
    var a, b, c := us[0], us[1], us[2];
    assert a in us && b in us && c in us;
    assert a.length == |data[a.start..a.start + a.length]| && b.length == |data[b.start..b.start + b.length]|;
    assert c.length == |data[c.start..c.start + c.length]| && data[a.start..a.start + a.length][0] == 0x67;
    assert TypeOf(data, us[0]) == NALU_SPS;
  }

  /** What the bytes posted so far say, with more behind them. */
  lemma StreamGrows(was: seq<seq<byte>>, now: seq<seq<byte>>)
    requires was <= now
    ensures Read(Flatten(was)).Some? ==>
      var more := Read(Flatten(now[|was|..]));
      Read(Flatten(now)) == if more.None? then None else Some(Read(Flatten(was)).value + more.value)
  {
    assert now == was + now[|was|..];
    FlattenAppend(was, now[|was|..]);
    if Read(Flatten(was)).Some? { ReadAppend(Flatten(was), Flatten(now[|was|..])); }
  }

  /** The packets made so far carry what was said, piece by piece, or break the stream. */
  ghost predicate Says(made: seq<seq<byte>>, es: seq<seq<byte>>, solid: bool, said: seq<byte>) {
    if solid then AllCarry(made, es) && Flatten(es) == said else Broken(made)
  }

  /** The units can be written: each has a type byte, and an empty one is followed by a start code. */
  ghost predicate Writable(data: seq<byte>, us: seq<Nalu>) {
    Typed(data, us) && forall u :: u in us && u.length == 0 ==> Followed(data, u)
  }

  lemma OneWritable(data: seq<byte>, u: Nalu)
    requires Writable(data, [u])
    ensures Framed(data, u) && u.start < |data| && (u.length == 0 ==> Followed(data, u))
  {
    assert u in [u];
  }

  /** The block of a unit: with its start code, or an empty one with the next start code in reach. */
  lemma UnitInReach(data: seq<byte>, u: Nalu, first: bool)
    requires Writable(data, [u])
    ensures u.start >= 4 && u.length >= 0 && InReach(data, u.start - 4, u.length + 4, H264, first)
  {
    OneWritable(data, u);
    var block := data[u.start - 4..u.start + u.length];
    assert block[..4] == data[u.start - 4..u.start];
    BareFits(4, first);
  }

  /** The first packet of a block without a start code, and the rest of it. */
  lemma BlockSplits(mem: seq<byte>, at: nat, length: nat, codec: Codec, pts: int, first: bool)
    requires InReach(mem, at, length, codec, first)
    ensures at + length <= |mem|
    ensures var data := mem[at..at + length];
      var naluType, ps := NaluTypeOf(data, codec), BlockPackets(mem, at, length, codec, pts, first);
      if codec == H264 && length > 0 && !HasStartCode(data) then
        var c := BareCut(length, first);
        IsBare(data, H264) && ps == [BareFirst(mem, at, length, pts, first)]
          + Packets(data[Least(c.esBlock, length)..], codec, naluType, pts, first, 1, c.last)
      else ps == [] + Packets(data, codec, naluType, pts, first, 0, false)
  {
    hide Packets, BareFirst, BareCut;
  }

  lemma PlainBlock(data: seq<byte>, codec: Codec, pts: int)
    requires codec != H264
    ensures InReach(data, 0, |data|, codec, true)
    ensures BlockPackets(data, 0, |data|, codec, pts, true) == Packets(data, codec, 0, pts, true, 0, false)
  {
    assert data[0..0 + |data|] == data;
  }

  lemma PrefixSnoc(data: seq<byte>, us: seq<Nalu>, i: nat)
    requires i < |us| && Writable(data, us)
    ensures us[..i + 1] == us[..i] + [us[i]] && Writable(data, us[..i + 1]) && Writable(data, us[..i])
      && Writable(data, [us[i]])
    ensures Solid(us[..i + 1]) <==> Solid(us[..i]) && us[i].length > 0
    ensures forall t :: HasType(data, us[..i + 1], t) <==> HasType(data, us[..i], t) || TypeOf(data, us[i]) == t
  {
    assert forall u :: u in us[..i + 1] ==> u in us;
    assert forall u :: u in us[..i] ==> u in us;
    assert us[i] in us && us[i] in us[..i + 1];
    assert forall u :: u in us[..i] ==> u in us[..i + 1];
    assert us[..i + 1] == us[..i] + [us[i]];
    forall t ensures HasType(data, us[..i + 1], t) <==> HasType(data, us[..i], t) || TypeOf(data, us[i]) == t {
      assert us[..i + 1][i] == us[i];
      assert forall j :: 0 <= j < i ==> us[..i][j] == us[..i + 1][j];
    }
  }

  /** The posts of a frame read as what its packets say. */
  lemma FrameReads(prefix: seq<byte>, pts: int, counter: int, body: seq<byte>, made: seq<seq<byte>>, es: seq<seq<byte>>,
                   solid: bool, said: seq<byte>)
    requires |body| == 0x5A && prefix == PackHeader(pts, counter) + (MAP_START + body)
    requires Says(made, es, solid, said) && made != []
    ensures Read(Flatten(Posts(prefix, made))) == if solid then Some(said) else None
  {
    PostsFlat(prefix, made);
    HeadersRead(pts, counter, body, Flatten(made));
    if solid { ReadPackets(made, es, []); } else { assert Flatten(made) + [] == Flatten(made); }
  }

  /** What one more unit adds. */
  lemma UnitAdds(data: seq<byte>, u: Nalu, made: seq<seq<byte>>, es: seq<seq<byte>>, ps: seq<seq<byte>>, solid: bool,
                 said: seq<byte>, pts: int, first: bool) returns (es': seq<seq<byte>>)
    requires Writable(data, [u]) && Says(made, es, solid, said) && Timed(made, H264, pts) && (made == [] <==> first)
    requires 4 <= u.start && 0 <= u.length && InReach(data, u.start - 4, u.length + 4, H264, first)
    requires ps == BlockPackets(data, u.start - 4, u.length + 4, H264, pts, first)
    ensures ps != [] && Timed(made + ps, H264, pts) && Framed(data, u)
    ensures Says(made + ps, es', solid && u.length > 0, said + Piece(data, u))
  {
    hide Packets, Pieces, BlockPackets, Broken, AllCarry, BareFirst, PtsField, Timed, PtsIn, OfStream, Clock, PtsFormed;
    OneWritable(data, u);
    var piece := Piece(data, u);
    es' := es;
    if u.length > 0 {
      es' := es + Pieces(piece, first, 0);
      SolidUnit(data, u, ps, pts, first);
      if solid {
        JoinCarry(made, es, ps, Pieces(piece, first, 0));
        FlattenAppend(es, Pieces(piece, first, 0));
      } else {
        BrokenStays(made, ps);
      }
    } else {
      EmptyBlockBreaks(data, u.start - 4, pts, first);
      if solid { CarryThenBroken(made, es, ps); } else { BrokenStays(made, ps); }
      OneTimed(ps, first, pts);
    }
    JoinTimed(made, ps, pts);
  }

  lemma SolidUnit(data: seq<byte>, u: Nalu, ps: seq<seq<byte>>, pts: int, first: bool)
    requires Framed(data, u) && u.length > 0 && InReach(data, u.start - 4, u.length + 4, H264, first)
    requires ps == BlockPackets(data, u.start - 4, u.length + 4, H264, pts, first)
    ensures ps != [] && AllCarry(ps, Pieces(Piece(data, u), first, 0))
      && Flatten(Pieces(Piece(data, u), first, 0)) == Piece(data, u)
    ensures if first then Timed(ps, H264, pts) else Untimed(ps)
  {
    hide Packets, Pieces, AllCarry, PtsField, PtsIn, OfStream, Clock;
    var piece := Piece(data, u);
    assert piece[..4] == data[u.start - 4..u.start];
    assert data[u.start - 4..u.start - 4 + (u.length + 4)] == piece;
    PacketsCarry(piece, H264, NaluTypeOf(piece, H264), pts, first, 0, false);
    PacketsSplit(piece, H264, NaluTypeOf(piece, H264), pts, first, 0, false);
    BlockTimed(piece, H264, NaluTypeOf(piece, H264), pts, first);
  }

  /** Packets behind a frame's first block announce no time stamp. */
  ghost predicate Untimed(ps: seq<seq<byte>>) {
    forall i :: 0 <= i < |ps| ==> OfStream(ps[i], H264) && PtsIn(ps[i]) == None
  }

  lemma OneTimed(ps: seq<seq<byte>>, first: bool, pts: int)
    requires |ps| == 1 && Headed(ps[0], H264, true, if first then Some(Clock(pts)) else None)
    ensures if first then Timed(ps, H264, pts) else Untimed(ps)
  {
  }

  lemma JoinTimed(made: seq<seq<byte>>, ps: seq<seq<byte>>, pts: int)
    requires Timed(made, H264, pts) && if made == [] then Timed(ps, H264, pts) else Untimed(ps)
    ensures Timed(made + ps, H264, pts)
  {
    hide PtsIn, OfStream, Clock;
    if made == [] { assert made + ps == ps; }
  }

  lemma CarryThenBroken(ps: seq<seq<byte>>, es: seq<seq<byte>>, qs: seq<seq<byte>>)
    requires AllCarry(ps, es) && Broken(qs)
    ensures Broken(ps + qs)
  {
    hide Broken;
    BrokenBehind(ps, es, qs);
  }

  lemma JoinCarry(ps: seq<seq<byte>>, es: seq<seq<byte>>, qs: seq<seq<byte>>, fs: seq<seq<byte>>)
    requires AllCarry(ps, es) && AllCarry(qs, fs)
    ensures AllCarry(ps + qs, es + fs)
  {
  }

  /** Packets behind packets: only the very first stands behind the prefix. */
  lemma PostsJoin(prefix: seq<byte>, made: seq<seq<byte>>, ps: seq<seq<byte>>)
    ensures Posts(prefix, made + ps) == Posts(prefix, made) + Posts(if made == [] then prefix else [], ps)
  {
    if made == [] {
      assert made + ps == ps;
    } else {
      assert (made + ps)[1..] == made[1..] + ps;
      if ps != [] { assert [] + ps[0] == ps[0]; }
    }
  }

  lemma HeadersRead(pts: int, counter: int, body: seq<byte>, rest: seq<byte>)
    requires |body| == 0x5A
    ensures Read(PackHeader(pts, counter) + (MAP_START + body) + rest) == Read(rest)
  {
    ScrRoundTrip(pts, counter);
    var m := MAP_START + body;
    assert m[..6] == MAP_START && StartCode(m, 0xBC) && PacketSize(m) == |m|;
    ReadMap(m, rest);
    ReadPack(PackHeader(pts, counter), m + rest);
    Assoc(PackHeader(pts, counter), m, rest);
  }

  /** What one block posts behind a prefix that readers skip reads as the block. */
  lemma BlockReads(prefix: seq<byte>, data: seq<byte>, codec: Codec, naluType: int, pts: int)
    requires data != []
    requires var ps := Packets(data, codec, naluType, pts, true, 0, false);
      Read(prefix + Flatten(ps)) == Read(Flatten(ps))
    ensures var ps := Packets(data, codec, naluType, pts, true, 0, false);
      ps != [] && Read(Flatten(Posts(prefix, ps))) == Some(data)
  {
    var ps := Packets(data, codec, naluType, pts, true, 0, false);
    PostsFlat(prefix, ps);
    PacketsRead(data, codec, naluType, pts, true, []);
    assert Flatten(ps) + [] == Flatten(ps) && data + [] == data;
  }

  /** One more packet: behind the prefix when it is the first, on its own otherwise. */
  lemma PostsSnoc(before: seq<seq<byte>>, prefix: seq<byte>, ps: seq<seq<byte>>, p: seq<byte>)
    ensures before + Posts(prefix, ps + [p])
              == if ps == [] then before + [prefix + p] else before + Posts(prefix, ps) + [p]
  {
    if ps != [] {
      assert (ps + [p])[1..] == ps[1..] + [p];
    }
  }
}
