/** The demultiplexer for interleaved binary data of src/xpr_rtsp_idd.c (section 10.12 of RFC 2326): a frame is
    '$', a channel, a 16-bit length and the payload. Text headers are not part of this model. */
module RtspIdd {
  import opened Common

  const MAX := 8196

  const DOLLAR: byte := 36

  datatype Packet = Packet(channel: byte, payload: seq<byte>)

  // ----- what a stream of frames says

  function Size(s: seq<byte>): nat
    requires |s| >= 4
  {
    256 * s[2] as int + s[3]
  }

  /** Does a whole frame stand in front? */
  ghost predicate Whole(s: seq<byte>) {
    |s| >= 4 && |s| >= 4 + Size(s)
  }

  ghost function Frames(s: seq<byte>): seq<Packet>
    decreases |s|
  {
    if !Whole(s) then [] else [Packet(s[1], s[4..4 + Size(s)])] + Frames(s[4 + Size(s)..])
  }

  /** The part of a frame that is left at the end. */
  ghost function Tail(s: seq<byte>): seq<byte>
    decreases |s|
  {
    if !Whole(s) then s else Tail(s[4 + Size(s)..])
  }

  /** Every frame starts with a dollar sign and fits the buffer. */
  ghost predicate Framed(s: seq<byte>)
    decreases |s|
  {
    s != [] ==>
      s[0] == DOLLAR && (|s| >= 4 ==> Size(s) <= MAX) && (Whole(s) ==> Framed(s[4 + Size(s)..]))
  }

  /** The stream stops inside a 4-byte frame header. */
  ghost predicate InHeader(s: seq<byte>) {
    0 < |Tail(s)| < 4
  }

  lemma {:induction false} ParseAppend(a: seq<byte>, b: seq<byte>)
    ensures Frames(a + b) == Frames(a) + Frames(Tail(a) + b)
    ensures Tail(a + b) == Tail(Tail(a) + b)
    decreases |a|
  {
    if Whole(a) {
      var n := 4 + Size(a);
      CutBehind(a, b, n);
      ParseAppend(a[n..], b);
    }
  }

  lemma {:induction false} FramedAppend(a: seq<byte>, b: seq<byte>)
    requires Framed(a + b)
    ensures Framed(Tail(a) + b)
    decreases |a|
  {
    if Whole(a) {
      var n := 4 + Size(a);
      CutBehind(a, b, n);
      FramedAppend(a[n..], b);
    }
  }

  lemma CutBehind(a: seq<byte>, b: seq<byte>, n: nat)
    requires 4 <= n <= |a|
    ensures (a + b)[4..n] == a[4..n] && (a + b)[n..] == a[n..] + b && Size(a + b) == Size(a)
  {
  }

  lemma {:induction false} TailShort(s: seq<byte>)
    ensures Frames(Tail(s)) == [] && Tail(Tail(s)) == Tail(s) && !Whole(Tail(s))
    ensures Framed(s) ==> Framed(Tail(s))
    decreases |s|
  {
    if Whole(s) { TailShort(s[4 + Size(s)..]); }
  }

  // ----- the machine

  /** `pending` is a frame whose header is complete, as far as it came in; `skip` bytes of a header that
      was cut are still to come, and will be dropped. */
  datatype State = State(pending: seq<byte>, skip: nat)

  ghost predicate Ok(st: State) {
    st.skip < 4 && (st.pending != [] ==> st.skip == 0 && 4 <= |st.pending| && !Whole(st.pending) && Framed(st.pending))
  }

  /** The bytes that one push gets to parse. */
  ghost function Seen(st: State, data: seq<byte>): seq<byte> {
    st.pending + if st.skip <= |data| then data[st.skip..] else []
  }

  /** What is left behind the whole frames: a complete header waits for its payload; of a cut header only
      the number of missing bytes is kept. */
  ghost function After(t: seq<byte>, skip: nat): State {
    if 0 < |t| < 4 then State([], 4 - |t|) else State(t, skip)
  }

  ghost function Next(st: State, data: seq<byte>): (r: State)
    requires Ok(st) && Framed(Seen(st, data))
    ensures Ok(r)
  {
    TailShort(Seen(st, data));
    After(Tail(Seen(st, data)), if st.skip <= |data| then 0 else st.skip - |data|)
  }

  // ----- the demultiplexer

  ghost function Header(channel: byte, size: nat): (h: seq<byte>)
    requires size <= MAX
    ensures |h| == 4 && Size(h) == size
  {
    [DOLLAR, channel, size / 256, size % 256]
  }

  class Demux {
    var channel: byte
    var packetSize: nat
    var remainSize: nat
    var hdrSize: nat
    const buffer: array<byte>
    var delivered: seq<Packet>

    ghost predicate Valid()
      reads this, buffer
    {
      && buffer.Length == MAX
      && remainSize <= packetSize <= MAX && hdrSize <= 4
      && (remainSize > 0 ==> hdrSize % 4 == 0)
    }

    ghost function Abs(): State
      requires Valid()
      reads this, buffer
    {
      State(if remainSize == 0 then [] else Header(channel, packetSize) + buffer[..packetSize - remainSize],
            (4 - hdrSize) % 4)
    }

    constructor ()
      ensures Valid() && Abs() == State([], 0) && delivered == [] && fresh(buffer)
    {
      channel, packetSize, remainSize, hdrSize := 0, 0, 0, 0;
      buffer := new byte[MAX];
      delivered := [];
    }

    /** XPR_RTSP_IDD_PushData: the packets that became whole are delivered, in order. */
    method PushData(data: seq<byte>) returns (ok: bool)
      requires Valid() && Framed(Seen(Abs(), data))
      modifies this, buffer
      ensures Valid() && ok == (data != [])
      ensures Ok(old(Abs())) && Abs() == Next(old(Abs()), data)
      ensures delivered == old(delivered) + Frames(Seen(old(Abs()), data))
    {
      hide Frames, Tail, Framed, Whole, Seen, Abs, Valid;
      AbsOk();
      if data == [] {
        Idle();
        return false;
      }
      var d := DropHeader(data);
      d := Refill(d);
      AbsOk();
      PushedIs(Abs(), d, Seen(old(Abs()), data));
      Parse(d);
      ok := true;
    }

    lemma AbsOk()
      requires Valid()
      ensures Ok(Abs())
    {
      if remainSize > 0 {
        var p := Abs().pending;
        assert p[0] == DOLLAR && Size(p) == packetSize;
      }
    }

    lemma Idle()
      requires Valid() && Ok(Abs()) && Framed(Seen(Abs(), []))
      ensures Abs() == Next(Abs(), []) && Frames(Seen(Abs(), [])) == []
    {
      assert Seen(Abs(), []) == Abs().pending;
    }

    /** The rest of a cut header is dropped. */
    method DropHeader(data: seq<byte>) returns (d: seq<byte>)
      requires Valid()
      modifies `hdrSize
      ensures Valid() && Abs().pending + d == Seen(old(Abs()), data)
      ensures Abs() == State(old(Abs()).pending, if old(Abs()).skip <= |data| then 0 else old(Abs()).skip - |data|)
      ensures d != [] ==> Abs().skip == 0
    {
      d := data;
      if hdrSize != 0 {
        var l := if 4 - hdrSize < |data| then 4 - hdrSize else |data|;
        d := data[l..];
        hdrSize := hdrSize + l;
      }
    }

    method CopyIn(offset: nat, bytes: seq<byte>)
      requires offset + |bytes| <= buffer.Length
      modifies buffer
      ensures buffer[..offset + |bytes|] == old(buffer[..offset]) + bytes
    {
      forall k | 0 <= k < |bytes| { buffer[offset + k] := bytes[k]; }
    }

    /** More payload for the frame that waits, if one does. */
    method Refill(data: seq<byte>) returns (d: seq<byte>)
      requires Valid() && Framed(Abs().pending + data) && (data != [] ==> Abs().skip == 0)
      modifies this, buffer
      ensures Valid() && hdrSize == old(hdrSize) && (d != [] ==> Abs() == State([], 0))
      ensures Framed(d) && delivered + Frames(d) == old(delivered) + Frames(old(Abs().pending) + data)
      ensures Abs().pending + Tail(d) == Tail(old(Abs().pending) + data) && Abs().skip == old(Abs().skip)
    {
      hide Frames, Tail, Framed, Whole, Seen;
      if remainSize == 0 {
        assert Abs().pending + data == data && Abs().pending + Tail(data) == Tail(data);
        return data;
      }
      ghost var p := Abs().pending;
      var l := if remainSize < |data| then remainSize else |data|;
      var offset := packetSize - remainSize;
      CopyIn(offset, data[..l]);
      remainSize := remainSize - l;
      d := data[l..];
      OneFrame(p, data, l, channel, packetSize, buffer[..offset + l]);
      if remainSize == 0 {
        Assoc(delivered, [Packet(channel, buffer[..packetSize])], Frames(d));
        delivered := delivered + [Packet(channel, buffer[..packetSize])];
        channel, packetSize := 0, 0;
      }
    }

    /** A frame whose payload is not all there waits for the next push. */
    method Wait(ch: byte, l: nat, payload: seq<byte>)
      requires Valid() && Abs() == State([], 0) && |payload| < l <= MAX
      modifies this, buffer
      ensures Valid() && Abs() == State(Header(ch, l) + payload, 0) && delivered == old(delivered)
    {
      hide Frames, Tail, Framed, Whole, Seen;
      channel, packetSize, remainSize := ch, l, l - |payload|;
      CopyIn(0, payload);
      assert buffer[..|payload|] == payload;
    }

    /** The loop over the frames in the data. */
    method Parse(data: seq<byte>)
      requires Valid() && Framed(data) && (data != [] ==> Abs() == State([], 0))
      modifies this, buffer
      ensures Valid() && delivered == old(delivered) + Frames(data)
      ensures Abs() == if data == [] then old(Abs()) else After(Tail(data), 0)
    {
      var d := data;
      ghost var had, done := delivered, false;
      while |d| > 0
        invariant Valid() && Framed(d)
        invariant delivered + Frames(d) == had + Frames(data)
        invariant !done ==> Abs() == old(Abs()) && Tail(d) == Tail(data) && (data == [] ==> d == [])
        invariant done ==> data != [] && d == [] && Abs() == After(Tail(data), 0)
        decreases |d|
      {
        if |d| < 4 {
          StillPartial(d);
          hdrSize := |d|;
          d := [];
          done := true;
        } else {
          var ch, l, payload := d[1], Size(d), d[4..];
          if |payload| < l {
            Partial(d);
            Wait(ch, l, payload);
            d := [];
            done := true;
          } else {
            OneDelivered(delivered, d);
            delivered := delivered + [Packet(ch, payload[..l])];
            d := payload[l..];
          }
        }
      }
    }
  }

  /** What one delivery adds, and the data goes on with. */
  lemma OneDelivered(del: seq<Packet>, d: seq<byte>)
    requires Whole(d) && Framed(d)
    ensures var payload, l := d[4..], Size(d);
      && del + [Packet(d[1], payload[..l])] + Frames(payload[l..]) == del + Frames(d)
      && Tail(payload[l..]) == Tail(d) && Framed(payload[l..])
  {
    var payload, l := d[4..], Size(d);
    HeaderIs(d);
    assert payload[..l] + payload[l..] == payload;
    assert d == Header(d[1], l) + payload[..l] + payload[l..];
    FirstFrame(d, d[1], l, payload[..l], payload[l..]);
    Assoc(del, [Packet(d[1], payload[..l])], Frames(payload[l..]));
  }

  lemma PushedIs(st: State, d: seq<byte>, s: seq<byte>)
    requires Ok(st) && st.pending + Tail(d) == Tail(s) && (d != [] ==> st == State([], 0))
    ensures After(Tail(s), st.skip) == if d == [] then st else After(Tail(d), 0)
  {
    if d == [] { assert st.pending + Tail(d) == st.pending; } else { assert [] + Tail(d) == Tail(d); }
  }

  lemma StillPartial(s: seq<byte>)
    requires !Whole(s)
    ensures Frames(s) == [] && Tail(s) == s
  {
  }

  lemma Partial(d: seq<byte>)
    requires |d| >= 4 && !Whole(d) && Framed(d)
    ensures Frames(d) == [] && Tail(d) == d && Size(d) <= MAX && Header(d[1], Size(d)) + d[4..] == d
  {
    HeaderIs(d);
  }

  lemma HeaderIs(d: seq<byte>)
    requires |d| >= 4 && d[0] == DOLLAR && Size(d) <= MAX
    ensures d == Header(d[1], Size(d)) + d[4..]
  {
    assert Size(d) / 256 == d[2] && Size(d) % 256 == d[3];
    assert Header(d[1], Size(d)) == d[..4];
    assert d[..4] + d[4..] == d;
  }

  /** What the buffer holds when l bytes of the data have come to the frame in p. */
  lemma OneFrame(p: seq<byte>, data: seq<byte>, l: nat, channel: byte, size: nat, filled: seq<byte>)
    requires size <= MAX && 4 <= |p| && l <= |data| && |filled| == |p| - 4 + l <= size
    requires l == |data| || |filled| == size
    requires p[..4] == Header(channel, size) && filled == p[4..] + data[..l]
    requires Framed(p + data)
    ensures |filled| < size ==>
      && data[l..] == [] && Framed([]) && Frames([]) == [] && Tail([]) == []
      && Frames(p + data) == [] && Tail(p + data) == Header(channel, size) + filled
    ensures |filled| == size ==>
      && Frames(p + data) == [Packet(channel, filled)] + Frames(data[l..])
      && Tail(p + data) == Tail(data[l..]) && Framed(data[l..])
  {
    OneFrameSlices(p, data, l, channel, size, filled);
    if |filled| == size {
      FirstFrame(p + data, channel, size, filled, data[l..]);
    }
  }

  lemma OneFrameSlices(p: seq<byte>, data: seq<byte>, l: nat, channel: byte, size: nat, filled: seq<byte>)
    requires size <= MAX && 4 <= |p| && l <= |data| && p[..4] == Header(channel, size) && filled == p[4..] + data[..l]
    ensures p + data == Header(channel, size) + filled + data[l..]
  {
    assert p == p[..4] + p[4..] && data == data[..l] + data[l..];
  }

  lemma FirstFrame(s: seq<byte>, channel: byte, size: nat, payload: seq<byte>, rest: seq<byte>)
    requires size <= MAX && |payload| == size && s == Header(channel, size) + payload + rest
    ensures Frames(s) == [Packet(channel, payload)] + Frames(rest)
    ensures Tail(s) == Tail(rest) && (Framed(s) ==> Framed(rest))
  {
    var h := Header(channel, size);
    assert s[1] == h[1] && s[2] == h[2] && s[3] == h[3];
    assert s[4..4 + size] == payload && s[4 + size..] == rest;
  }

  // ----- runs of pushes

  /** Every push of the run gets frames to parse, and no text. */
  ghost predicate Binary(st: State, chunks: seq<seq<byte>>)
    requires Ok(st)
    decreases |chunks|
  {
    chunks != [] ==> Framed(Seen(st, chunks[0])) && Binary(Next(st, chunks[0]), chunks[1..])
  }

  /** What a run delivers. */
  ghost function Delivered(st: State, chunks: seq<seq<byte>>): seq<Packet>
    requires Ok(st) && Binary(st, chunks)
    decreases |chunks|
  {
    if chunks == [] then [] else Frames(Seen(st, chunks[0])) + Delivered(Next(st, chunks[0]), chunks[1..])
  }

  /** The stream `a` and then the chunks: no cut falls into a frame header. */
  ghost predicate CleanCuts(a: seq<byte>, chunks: seq<seq<byte>>)
    decreases |chunks|
  {
    chunks != [] ==> !InHeader(a + chunks[0]) && CleanCuts(a + chunks[0], chunks[1..])
  }

  /** The state in step with the stream so far. */
  lemma InStep(a: seq<byte>, c: seq<byte>)
    requires Framed(a + c) && !InHeader(a)
    ensures var st := State(Tail(a), 0);
      && Ok(st) && Seen(st, c) == Tail(a) + c && Framed(Seen(st, c))
      && Frames(a + c) == Frames(a) + Frames(Seen(st, c))
      && Next(st, c) == After(Tail(a + c), 0)
  {
    ParseAppend(a, c);
    FramedAppend(a, c);
    TailShort(a);
    FramedPrefix(a, c);
    assert c[0..] == c;
  }

  lemma {:induction false} FramedPrefix(a: seq<byte>, c: seq<byte>)
    requires Framed(a + c)
    ensures Framed(a)
    decreases |a|
  {
    if Whole(a) {
      var n := 4 + Size(a);
      CutBehind(a, c, n);
      FramedPrefix(a[n..], c);
    } else if |a| >= 4 {
      assert Size(a + c) == Size(a);
    }
  }

  /** Clean cuts deliver what the whole stream delivers in one push. */
  lemma {:induction false} ChunksAgree(a: seq<byte>, chunks: seq<seq<byte>>)
    requires Framed(a + Flatten(chunks)) && !InHeader(a) && CleanCuts(a, chunks)
    ensures var st := State(Tail(a), 0);
      Ok(st) && Binary(st, chunks) && Frames(a) + Delivered(st, chunks) == Frames(a + Flatten(chunks))
    decreases |chunks|
  {
    if chunks == [] {
      assert a + [] == a;
      InStep(a, []);
    } else {
      var c, rest := chunks[0], Flatten(chunks[1..]);
      assert a + Flatten(chunks) == a + c + rest;
      FramedPrefix(a + c, rest);
      InStep(a, c);
      ChunksAgree(a + c, chunks[1..]);
      var st := State(Tail(a), 0);
      Assoc(Frames(a), Frames(Seen(st, c)), Delivered(Next(st, c), chunks[1..]));
    }
  }

  // ----- how many bytes the deliveries stand for

  ghost function Weight(ps: seq<Packet>): nat {
    if ps == [] then 0 else 4 + |ps[0].payload| + Weight(ps[1..])
  }

  lemma {:induction false} WeightAppend(a: seq<Packet>, b: seq<Packet>)
    ensures Weight(a + b) == Weight(a) + Weight(b)
  {
    if a == [] {
      assert a + b == b;
    } else {
      WeightAppend(a[1..], b);
      assert (a + b)[1..] == a[1..] + b;
    }
  }

  lemma {:induction false} WeightOfFrames(s: seq<byte>)
    ensures Weight(Frames(s)) + |Tail(s)| == |s|
    decreases |s|
  {
    if Whole(s) {
      var p, rest := Packet(s[1], s[4..4 + Size(s)]), s[4 + Size(s)..];
      WeightOfFrames(rest);
      assert ([p] + Frames(rest))[1..] == Frames(rest);
    }
  }

  /** A run never delivers more than came in. */
  lemma {:induction false} RunBound(st: State, chunks: seq<seq<byte>>)
    requires Ok(st) && Binary(st, chunks)
    ensures Weight(Delivered(st, chunks)) <= |st.pending| + |Flatten(chunks)|
    decreases |chunks|
  {
    if chunks != [] {
      var c := chunks[0];
      WeightOfFrames(Seen(st, c));
      RunBound(Next(st, c), chunks[1..]);
      WeightAppend(Frames(Seen(st, c)), Delivered(Next(st, c), chunks[1..]));
    }
  }

  /** A push that ends k bytes into a frame header: the other 4 - k bytes are dropped, and the next frame is looked for
      behind them. */
  lemma CutDrops(st: State, data: seq<byte>, more: seq<byte>)
    requires Ok(st) && Framed(Seen(st, data)) && InHeader(Seen(st, data))
    ensures var k, next := |Tail(Seen(st, data))|, Next(st, data);
      && next.skip == 4 - k && next.pending == []
      && Seen(next, more) == if 4 - k <= |more| then more[4 - k..] else []
  {
  }

  /** A cut inside a header loses bytes for good. */
  lemma {:induction false} CutLoses(a: seq<byte>, chunks: seq<seq<byte>>)
    requires Framed(a + Flatten(chunks)) && !InHeader(a) && !CleanCuts(a, chunks)
    requires Ok(State(Tail(a), 0)) && Binary(State(Tail(a), 0), chunks)
    ensures Weight(Delivered(State(Tail(a), 0), chunks)) < |Tail(a)| + |Flatten(chunks)|
    decreases |chunks|
  {
    hide Frames, Tail, Framed, Whole, Weight;
    var st, c, rest := State(Tail(a), 0), chunks[0], Flatten(chunks[1..]);
    assert a + Flatten(chunks) == a + c + rest;
    FramedPrefix(a + c, rest);
    InStep(a, c);
    WeightOfFrames(Seen(st, c));
    WeightAppend(Frames(Seen(st, c)), Delivered(Next(st, c), chunks[1..]));
    if InHeader(a + c) {
      ParseAppend(a, c);
      RunBound(Next(st, c), chunks[1..]);
    } else {
      ParseAppend(a, c);
      CutLoses(a + c, chunks[1..]);
    }
  }

  /** For a stream of whole frames: the pushes get only frames to parse, and deliver exactly its packets, if and
      only if no cut falls into a frame header. */
  lemma CutsExact(chunks: seq<seq<byte>>)
    requires var s := Flatten(chunks); Framed(s) && Tail(s) == []
    ensures var st := State([], 0);
      Binary(st, chunks) && Delivered(st, chunks) == Frames(Flatten(chunks)) <==> CleanCuts([], chunks)
  {
    var s := Flatten(chunks);
    assert [] + s == s;
    assert Tail([]) == [] && Frames([]) == [];
    if CleanCuts([], chunks) {
      ChunksAgree([], chunks);
    } else if Binary(State([], 0), chunks) {
      CutLoses([], chunks);
      WeightOfFrames(s);
    }
  }

  // ----- streams of packets

  /** The packets on the wire: a dollar sign, the channel, the length with its high byte first, and the payload. */
  ghost function Stream(ps: seq<Packet>): seq<byte>
    requires forall i :: 0 <= i < |ps| ==> |ps[i].payload| <= 8196
  {
    if ps == [] then []
    else
      var n := |ps[0].payload|;
      [36, ps[0].channel, n / 0x100, n % 0x100] + ps[0].payload + Stream(ps[1..])
  }

  lemma {:induction false} StreamReads(ps: seq<Packet>)
    requires forall i :: 0 <= i < |ps| ==> |ps[i].payload| <= 8196
    ensures var s := Stream(ps); Frames(s) == ps && Tail(s) == [] && Framed(s)
  {
    if ps != [] {
      var p, rest := ps[0], Stream(ps[1..]);
      StreamReads(ps[1..]);
      FirstFrame(Stream(ps), p.channel, |p.payload|, p.payload, rest);
      FirstFramed(Stream(ps), p.channel, |p.payload|, p.payload, rest);
      assert ps == [p] + ps[1..];
    }
  }

  lemma FirstFramed(s: seq<byte>, channel: byte, size: nat, payload: seq<byte>, rest: seq<byte>)
    requires size <= 8196 && |payload| == size && s == Header(channel, size) + payload + rest && Framed(rest)
    ensures Framed(s)
  {
    var h := Header(channel, size);
    assert s[0] == h[0] && s[2] == h[2] && s[3] == h[3];
    assert s[4 + size..] == rest;
  }

  /** For packets that fit the buffer, sent in any pushes: no push gets text to parse and exactly these packets are
      delivered, in order, if and only if no push ends inside a frame header. */
  lemma PacketsDelivered(ps: seq<Packet>, chunks: seq<seq<byte>>)
    requires forall i :: 0 <= i < |ps| ==> |ps[i].payload| <= 8196
    requires Flatten(chunks) == Stream(ps)
    ensures var st := State([], 0);
      Binary(st, chunks) && Delivered(st, chunks) == ps <==> CleanCuts([], chunks)
  {
    StreamReads(ps);
    CutsExact(chunks);
  }
}
