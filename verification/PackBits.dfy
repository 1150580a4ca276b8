/** The PackBits coder of src/xpr_utils.c (section 9 of TIFF 6.0). */
module PackBits {
  import opened Common

  // ----- what packed data says

  /** How long the packet in front is: a flag byte below 128 has its literal bytes behind it, one above 128
      the byte to repeat, 128 nothing. */
  ghost function PacketSize(flag: byte): (n: nat)
    ensures n >= 1
  {
    if flag == 128 then 1 else if flag > 128 then 2 else flag + 2
  }

  ghost function PacketBytes(p: seq<byte>): seq<byte>
    requires p != [] && |p| == PacketSize(p[0])
  {
    if p[0] == 128 then [] else if p[0] > 128 then Copies(p[1], 257 - p[0]) else p[1..]
  }

  ghost predicate Packed(d: seq<byte>)
    decreases |d|
  {
    d != [] ==> |d| >= 2 && PacketSize(d[0]) <= |d| && Packed(d[PacketSize(d[0])..])
  }

  ghost function Unpacked(d: seq<byte>): seq<byte>
    requires Packed(d)
    decreases |d|
  {
    if d == [] then []
    else
      var n := PacketSize(d[0]);
      PacketBytes(d[..n]) + Unpacked(d[n..])
  }

  lemma {:induction false} PackedAppend(a: seq<byte>, b: seq<byte>)
    requires Packed(a) && Packed(b)
    ensures Packed(a + b) && Unpacked(a + b) == Unpacked(a) + Unpacked(b)
    decreases |a|
  {
    hide Packed, Unpacked, PacketBytes;
    SplitPacket(a);
    if a == [] {
      assert a + b == b && [] + Unpacked(b) == Unpacked(b);
    } else {
      var n := PacketSize(a[0]);
      PackedAppend(a[n..], b);
      CutAt(a, b, n);
      FirstPacket(a + b, n, a[n..] + b);
      Assoc(PacketBytes(a[..n]), Unpacked(a[n..]), Unpacked(b));
    }
  }

  lemma SplitPacket(d: seq<byte>)
    requires Packed(d)
    ensures d == [] ==> Unpacked(d) == []
    ensures d != [] ==> var n := PacketSize(d[0]);
      |d| >= 2 && n <= |d| && Packed(d[n..]) && Unpacked(d) == PacketBytes(d[..n]) + Unpacked(d[n..])
  {
  }

  lemma FirstPacket(d: seq<byte>, n: nat, rest: seq<byte>)
    requires |d| >= 2 && n == PacketSize(d[0]) <= |d| && rest == d[n..] && Packed(rest)
    ensures Packed(d) && Unpacked(d) == PacketBytes(d[..n]) + Unpacked(rest)
  {
  }

  lemma CutAt(a: seq<byte>, b: seq<byte>, n: nat)
    requires 1 <= n <= |a|
    ensures (a + b)[n..] == a[n..] + b && (a + b)[..n] == a[..n] && (a + b)[0] == a[0]
  {
  }

  lemma OnePacket(p: seq<byte>)
    requires |p| >= 2 && |p| == PacketSize(p[0])
    ensures Packed(p) && Unpacked(p) == PacketBytes(p)
  {
    assert p[|p|..] == [] && p[..|p|] == p;
  }

  /** What a packet says, in front of more packed data: a flag of n - 1 stands before n bytes as they are, a flag of
      1 - n as a signed byte before one byte that stands n times, and 128 says nothing. */
  lemma PacketMeans(n: nat, v: byte, s: seq<byte>, rest: seq<byte>)
    requires 1 <= n <= 128 && |s| == n && Packed(rest)
    ensures var d := [n - 1] + s + rest; Packed(d) && Unpacked(d) == s + Unpacked(rest)
    ensures n > 1 ==> var d := [1 - n + 256, v] + rest; Packed(d) && Unpacked(d) == Copies(v, n) + Unpacked(rest)
    ensures rest != [] ==> var d := [128] + rest; Packed(d) && Unpacked(d) == Unpacked(rest)
  {
    hide Packed, Unpacked;
    var p := [n - 1] + s;
    assert (p + rest)[..n + 1] == p && (p + rest)[n + 1..] == rest && p[1..] == s;
    FirstPacket(p + rest, n + 1, rest);
    if n > 1 {
      var q := [1 - n + 256, v];
      assert (q + rest)[..2] == q && (q + rest)[2..] == rest;
      FirstPacket(q + rest, 2, rest);
    }
    if rest != [] {
      assert ([128] + rest)[..1] == [128] && ([128] + rest)[1..] == rest;
      FirstPacket([128] + rest, 1, rest);
      assert [] + Unpacked(rest) == Unpacked(rest);
    }
  }

  /** The worked example of Apple's Technical Note TN1023. */
  lemma PacketExample()
    ensures var d := [0xFE, 0xAA, 0x02, 0x80, 0x00, 0x2A, 0xFD, 0xAA, 0x03, 0x80, 0x00, 0x2A, 0x22, 0xF7, 0xAA];
      Packed(d) && Unpacked(d) == Copies(0xAA, 3) + [0x80, 0x00, 0x2A] + Copies(0xAA, 4) + [0x80, 0x00, 0x2A, 0x22]
        + Copies(0xAA, 10)
  {
    hide Packed, Unpacked, Copies;
    NothingPacked();
    var e: seq<byte> := [0xF7, 0xAA];
    PacketMeans(10, 0xAA, Copies(0xAA, 10), []);
    assert e == [0xF7, 0xAA] + [] && Copies(0xAA, 10) + [] == Copies(0xAA, 10);
    var d: seq<byte> := [0x03, 0x80, 0x00, 0x2A, 0x22] + e;
    PacketMeans(4, 0, [0x80, 0x00, 0x2A, 0x22], e);
    assert d == [0x03] + [0x80, 0x00, 0x2A, 0x22] + e;
    var c: seq<byte> := [0xFD, 0xAA] + d;
    PacketMeans(4, 0xAA, Copies(0xAA, 4), d);
    var b: seq<byte> := [0x02, 0x80, 0x00, 0x2A] + c;
    PacketMeans(3, 0, [0x80, 0x00, 0x2A], c);
    assert b == [0x02] + [0x80, 0x00, 0x2A] + c;
    PacketMeans(3, 0xAA, Copies(0xAA, 3), b);
    assert [0xFE, 0xAA] + b
      == [0xFE, 0xAA, 0x02, 0x80, 0x00, 0x2A, 0xFD, 0xAA, 0x03, 0x80, 0x00, 0x2A, 0x22, 0xF7, 0xAA];
    Assoc(Copies(0xAA, 4), [0x80, 0x00, 0x2A, 0x22], Copies(0xAA, 10));
    Assoc([0x80, 0x00, 0x2A], Copies(0xAA, 4) + [0x80, 0x00, 0x2A, 0x22], Copies(0xAA, 10));
    assert [0x80, 0x00, 0x2A] + (Copies(0xAA, 4) + [0x80, 0x00, 0x2A, 0x22])
      == [0x80, 0x00, 0x2A] + Copies(0xAA, 4) + [0x80, 0x00, 0x2A, 0x22];
    Assoc(Copies(0xAA, 3), [0x80, 0x00, 0x2A], Copies(0xAA, 4));
    Assoc(Copies(0xAA, 3), [0x80, 0x00, 0x2A] + Copies(0xAA, 4), [0x80, 0x00, 0x2A, 0x22]);
    Assoc(Copies(0xAA, 3), [0x80, 0x00, 0x2A] + Copies(0xAA, 4) + [0x80, 0x00, 0x2A, 0x22], Copies(0xAA, 10));
  }

  lemma NothingPacked()
    ensures Packed([]) && Unpacked([]) == []
  {
  }

  /** No three equal bytes in a row. */
  ghost predicate NoTriple(s: seq<byte>) {
    forall i :: 0 <= i < |s| - 2 ==> !(s[i] == s[i + 1] == s[i + 2])
  }

  /** Packed data that wastes nothing: three equal bytes in a row are never written as they are, only a run of three
      or more is written as one, and no packet says nothing. */
  ghost predicate Tight(d: seq<byte>)
    requires Packed(d)
    decreases |d|
  {
    d != [] ==>
      var n := PacketSize(d[0]);
      && (d[0] < 128 ==> NoTriple(d[1..n])) && (d[0] >= 128 ==> 3 <= 257 - d[0] as int <= 128)
      && Tight(d[n..])
  }

  /** One more packet behind packed data. */
  lemma Extend(done: seq<byte>, p: seq<byte>, data: seq<byte>, run: nat, end: nat)
    requires run <= end <= |data| && |p| >= 2 && |p| == PacketSize(p[0]) && PacketBytes(p) == data[run..end]
    requires Says(done, data[..run])
    requires p[0] < 128 ==> NoTriple(p[1..])
    requires p[0] >= 128 ==> 3 <= 257 - p[0] as int <= 128
    ensures Says(done + p, data[..end])
  {
    hide Packed, Unpacked, PacketBytes, Tight, NoTriple;
    OnePacket(p);
    OneTight(p);
    PackedAppend(done, p);
    TightAppend(done, p);
    assert data[..run] + data[run..end] == data[..end];
  }

  lemma OneTight(p: seq<byte>)
    requires |p| >= 2 && |p| == PacketSize(p[0]) && Packed(p)
    requires p[0] < 128 ==> NoTriple(p[1..])
    requires p[0] >= 128 ==> 3 <= 257 - p[0] as int <= 128
    ensures Tight(p)
  {
    assert p[1..|p|] == p[1..] && p[|p|..] == [];
  }

  lemma {:induction false} TightAppend(a: seq<byte>, b: seq<byte>)
    requires Packed(a) && Packed(b) && Packed(a + b) && Tight(a) && Tight(b)
    ensures Tight(a + b)
    decreases |a|
  {
    hide NoTriple;
    if a == [] {
      assert a + b == b;
    } else {
      var n := PacketSize(a[0]);
      CutAt(a, b, n);
      assert (a + b)[1..n] == a[1..n];
      TightAppend(a[n..], b);
    }
  }

  /** The packed data says `s`, and wastes nothing. */
  ghost predicate Says(d: seq<byte>, s: seq<byte>) {
    Packed(d) && Unpacked(d) == s && Tight(d)
  }

  // ----- packing

  predicate Triple(data: seq<byte>, i: nat)
    requires i <= |data|
  {
    i + 3 <= |data| && data[i + 1] == data[i] && data[i + 2] == data[i]
  }

  function CeilDiv(n: nat): nat { (n + 127) / 128 }

  /** What packing from i on costs at most: one flag byte in 128, and a run that starts here saves a byte. */
  ghost function Cost(data: seq<byte>, i: nat): int
    requires i <= |data|
  {
    |data| - i + CeilDiv(|data| - i) - if Triple(data, i) then 1 else 0
  }

  lemma RunCost(data: seq<byte>, i: nat, c: nat)
    requires 3 <= c <= |data| - i && Triple(data, i)
    ensures 2 <= 2 + Cost(data, i + c) <= Cost(data, i)
  {
  }

  lemma LiteralCost(data: seq<byte>, i: nat, c: nat)
    requires i + c <= |data| && !Triple(data, i) && 1 <= c <= 128
    requires c == 128 || i + c == |data| || Triple(data, i + c)
    ensures 1 + c <= 1 + c + Cost(data, i + c) <= Cost(data, i)
  {
  }

  /** The end of a run of equal bytes: at most maxrun bytes. */
  method RunEnd(data: seq<byte>, run: nat, maxrun: nat) returns (p: nat)
    requires 3 <= maxrun <= |data| - run && Triple(data, run)
    ensures run + 3 <= p <= run + maxrun
    ensures data[run..p] == Copies(data[run], p - run)
  {
    p := run + 3;
    while p < run + maxrun && data[p] == data[run]
      invariant run + 3 <= p <= run + maxrun
      invariant forall k :: run <= k < p ==> data[k] == data[run]
    {
      p := p + 1;
    }
  }

  /** The end of a literal block: at the limit, or where three equal bytes start. */
  method LiteralEnd(data: seq<byte>, run: nat, maxrun: nat) returns (p: nat)
    requires run + maxrun <= |data| && maxrun > 0 && !Triple(data, run)
    ensures run < p <= run + maxrun && (p == run + maxrun || Triple(data, p))
    ensures NoTriple(data[run..p])
  {
    p := run;
    while p < run + maxrun
      invariant run <= p <= run + maxrun
      invariant forall k :: run <= k < p ==> !Triple(data, k)
    {
      if Triple(data, p) {
        break;
      }
      p := p + 1;
    }
    forall i | 0 <= i < p - run - 2 ensures !(data[run..p][i] == data[run..p][i + 1] == data[run..p][i + 2]) {
      assert !Triple(data, run + i);
    }
  }

  /** XPR_PackBitse: the packed bytes unpack to the data, waste nothing, and are at most one in 128 more. */
  method Pack(data: seq<byte>, buffer: array<byte>) returns (q: nat)
    requires |data| + CeilDiv(|data|) <= buffer.Length
    modifies buffer
    ensures q <= |data| + CeilDiv(|data|)
    ensures Packed(buffer[..q]) && Unpacked(buffer[..q]) == data && Tight(buffer[..q])
  {
    var run := 0;
    q := 0;
    while run < |data|
      invariant run <= |data|
      invariant q + Cost(data, run) <= |data| + CeilDiv(|data|) && q <= buffer.Length
      invariant Says(buffer[..q], data[..run])
    {
      run, q := PackOne(data, run, buffer, q);
    }
    assert data[..run] == data;
  }

  /** One turn: a run of at least three equal bytes, or a literal block. */
  method PackOne(data: seq<byte>, run: nat, buffer: array<byte>, at: nat) returns (p: nat, q: nat)
    requires run < |data| && at + Cost(data, run) <= buffer.Length
    requires Says(buffer[..at], data[..run])
    modifies buffer
    ensures run < p <= |data| && 0 <= Cost(data, p) && q + Cost(data, p) <= at + Cost(data, run)
    ensures q <= buffer.Length && Says(buffer[..q], data[..p])
  {
    var maxrun := if |data| - run < 128 then |data| - run else 128;
    if Triple(data, run) {
      p := RunEnd(data, run, maxrun);
      q := PackRun(data, run, p, buffer, at);
    } else {
      p := LiteralEnd(data, run, maxrun);
      q := PackLiteral(data, run, p, buffer, at);
    }
  }

  method PackRun(data: seq<byte>, run: nat, p: nat, buffer: array<byte>, at: nat) returns (q: nat)
    requires run + 3 <= p <= |data| && p - run <= 128 && Triple(data, run) && data[run..p] == Copies(data[run], p - run)
    requires at + Cost(data, run) <= buffer.Length
    requires Says(buffer[..at], data[..run])
    modifies buffer
    ensures 0 <= Cost(data, p) && q + Cost(data, p) <= at + Cost(data, run)
    ensures q <= buffer.Length && Says(buffer[..q], data[..p])
  {
    ghost var done := buffer[..at];
    RunCost(data, run, p - run);
    q := PutRun(buffer, at, p - run, data[run]);
    Extend(done, [257 - (p - run), data[run]], data, run, p);
  }

  method PackLiteral(data: seq<byte>, run: nat, p: nat, buffer: array<byte>, at: nat) returns (q: nat)
    requires run < p <= |data| && p - run <= 128 && !Triple(data, run)
    requires (p == run + 128 || p == |data| || Triple(data, p)) && NoTriple(data[run..p])
    requires at + Cost(data, run) <= buffer.Length
    requires Says(buffer[..at], data[..run])
    modifies buffer
    ensures 0 <= Cost(data, p) && q + Cost(data, p) <= at + Cost(data, run)
    ensures q <= buffer.Length && Says(buffer[..q], data[..p])
  {
    ghost var done := buffer[..at];
    LiteralCost(data, run, p - run);
    q := PutLiteral(buffer, at, data[run..p]);
    Extend(done, [p - run - 1] + data[run..p], data, run, p);
  }

  /** A run in two bytes: the flag that counts it (129..254), and its byte. */
  method PutRun(buffer: array<byte>, q: nat, count: nat, v: byte) returns (end: nat)
    requires q + 2 <= buffer.Length && 3 <= count <= 128
    modifies buffer
    ensures end == q + 2 && buffer[..end] == old(buffer[..q]) + [257 - count, v]
  {
    buffer[q] := 1 + 256 - count;
    buffer[q + 1] := v;
    end := q + 2;
  }

  /** A literal block behind its flag (0..127). */
  method PutLiteral(buffer: array<byte>, q: nat, s: seq<byte>) returns (end: nat)
    requires q + 1 + |s| <= buffer.Length && 1 <= |s| <= 128
    modifies buffer
    ensures end == q + 1 + |s| && buffer[..end] == old(buffer[..q]) + ([|s| - 1] + s)
  {
    buffer[q] := |s| - 1;
    forall k | 0 <= k < |s| { buffer[q + 1 + k] := s[k]; }
    end := q + 1 + |s|;
  }

  // ----- unpacking

  /** What the loop takes from any data when there is room for so many bytes: a packet with more is left out, a run
      with its byte, but a literal block without its flag only, so that its bytes are read as flags; a literal
      block longer than the data ends the loop. */
  ghost function Accepted(d: seq<byte>, room: nat): (o: seq<byte>)
    ensures |o| <= room
    decreases |d|
  {
    if |d| <= 1 || room == 0 then []
    else if d[0] == 128 then Accepted(d[1..], room)
    else if d[0] > 128 then
      var n := 257 - d[0];
      if n <= room then Copies(d[1], n) + Accepted(d[2..], room - n) else Accepted(d[2..], room)
    else
      var n := d[0] as int + 1;
      if n > room then Accepted(d[1..], room)
      else if n > |d| - 1 then []
      else d[1..][..n] + Accepted(d[1..][n..], room - n)
  }

  /** Packed data comes out whole exactly when there is room for all of it. */
  lemma {:induction false} UnpacksExactly(d: seq<byte>, room: nat)
    requires Packed(d)
    ensures Accepted(d, room) == Unpacked(d) <==> |Unpacked(d)| <= room
    decreases |d|
  {
    hide Accepted, Unpacked, Packed;
    SplitPacket(d);
    if d == [] || room == 0 {
      AcceptedEnd(d, room);
    } else if |Unpacked(d)| <= room {
      var n := PacketSize(d[0]);
      UnpacksExactly(d[n..], room - |PacketBytes(d[..n])|);
      FirstAccepted(d, room, n);
    } else {
      AcceptedFits(d, room);
    }
  }

  lemma AcceptedFits(d: seq<byte>, room: nat)
    ensures |Accepted(d, room)| <= room
  {
  }

  /** A whole packet in front that there is room for. */
  lemma FirstAccepted(d: seq<byte>, room: nat, n: nat)
    requires |d| >= 2 && n == PacketSize(d[0]) <= |d| && |PacketBytes(d[..n])| <= room && room > 0
    ensures Accepted(d, room) == PacketBytes(d[..n]) + Accepted(d[n..], room - |PacketBytes(d[..n])|)
  {
    hide Accepted;
    AcceptedFirst(d, room);
    assert d[0] < 128 ==> d[1..][..n - 1] == d[..n][1..] && d[1..][n - 1..] == d[n..];
    assert [] + Accepted(d[n..], room) == Accepted(d[n..], room);
  }

  /** XPR_UnPackBits, for any data: nothing is written behind `size`. */
  method Unpack(data: seq<byte>, buffer: array<byte>, size: nat) returns (i: nat)
    requires size <= buffer.Length
    modifies buffer
    ensures i <= size && buffer[..i] == Accepted(data, size) && buffer[size..] == old(buffer[size..])
  {
    hide Accepted;
    var d := data;
    i := 0;
    assert [] + Accepted(d, size) == Accepted(d, size);
    while |d| > 1 && i < size
      invariant i <= size && buffer[size..] == old(buffer[size..])
      invariant buffer[..i] + Accepted(d, size - i) == Accepted(data, size)
      decreases |d|
    {
      i, d := UnpackOne(d, buffer, i, size);
    }
    AcceptedEnd(d, size - i);
    assert buffer[..i] + [] == buffer[..i];
  }

  lemma AcceptedEnd(d: seq<byte>, room: nat)
    requires |d| <= 1 || room == 0
    ensures Accepted(d, room) == []
  {
  }

  /** One turn: one packet, or what is done with one that does not fit. */
  method UnpackOne(packed: seq<byte>, buffer: array<byte>, at: nat, size: nat) returns (i: nat, d: seq<byte>)
    requires |packed| > 1 && at < size <= buffer.Length
    modifies buffer
    ensures i <= size && |d| < |packed| && buffer[size..] == old(buffer[size..])
    ensures buffer[..i] + Accepted(d, size - i) == old(buffer[..at]) + Accepted(packed, size - at)
  {
    hide Accepted;
    var flag, rest := packed[0], packed[1..];
    AcceptedFirst(packed, size - at);
    if flag == 128 {
      i, d := at, rest;
    } else if flag > 128 {
      i, d := at, rest[1..];
      var n := 257 - flag as int;
      if at + n <= size {
        i := PutBytes(buffer, at, seq(n, k => rest[0]));
        Assoc(old(buffer[..at]), Copies(rest[0], n), Accepted(d, size - i));
      } else {
        Spoil(buffer, at, size, seq(size - at, k => rest[0]));
      }
    } else {
      i, d := at, rest;
      var n := flag as int + 1;
      if at + n > size {
        // The source copies size - at bytes even where the data has fewer.
        Spoil(buffer, at, size, if size - at <= |rest| then rest[..size - at] else rest);
      } else if n > |rest| {
        d := [];
        AcceptedEnd(d, size - at);
      } else {
        i := PutBytes(buffer, at, rest[..n]);
        d := rest[n..];
        Assoc(old(buffer[..at]), rest[..n], Accepted(d, size - i));
      }
    }
  }

  lemma AcceptedFirst(d: seq<byte>, room: nat)
    requires |d| > 1 && room > 0
    ensures d[0] == 128 ==> Accepted(d, room) == Accepted(d[1..], room)
    ensures d[0] > 128 ==>
      var n := 257 - d[0] as int;
      && d[1..][0] == d[1] && d[1..][1..] == d[2..]
      && (n > room ==> Accepted(d, room) == Accepted(d[2..], room))
      && (n <= room ==> Accepted(d, room) == Copies(d[1], n) + Accepted(d[2..], room - n))
    ensures d[0] < 128 ==>
      var n, rest := d[0] as int + 1, d[1..];
      && (n > room ==> Accepted(d, room) == Accepted(rest, room))
      && (n <= room && n > |rest| ==> Accepted(d, room) == [])
      && (n <= room && n <= |rest| ==> Accepted(d, room) == rest[..n] + Accepted(rest[n..], room - n))
  {
  }

  /** What is written for a packet left out: the next packet is written over it. */
  method Spoil(buffer: array<byte>, at: nat, size: nat, s: seq<byte>)
    requires at + |s| <= size <= buffer.Length
    modifies buffer
    ensures buffer[..at] == old(buffer[..at]) && buffer[size..] == old(buffer[size..])
  {
    forall k | 0 <= k < |s| { buffer[at + k] := s[k]; }
  }

  method PutBytes(buffer: array<byte>, at: nat, s: seq<byte>) returns (end: nat)
    requires at + |s| <= buffer.Length
    modifies buffer
    ensures end == at + |s| && buffer[..end] == old(buffer[..at]) + s
    ensures forall k :: end <= k <= buffer.Length ==> buffer[k..] == old(buffer[k..])
  {
    forall k | 0 <= k < |s| { buffer[at + k] := s[k]; }
    end := at + |s|;
  }

  /** Packing and unpacking into a buffer of at least n bytes gives the n bytes back. */
  method PackThenUnpack(data: seq<byte>, packed: array<byte>, buffer: array<byte>, size: nat) returns (n: nat)
    requires |data| + CeilDiv(|data|) <= packed.Length && |data| <= size <= buffer.Length && packed != buffer
    modifies packed, buffer
    ensures n == |data| && buffer[..n] == data
  {
    var q := Pack(data, packed);
    UnpacksExactly(packed[..q], size);
    n := Unpack(packed[..q], buffer, size);
  }
}
