/** The start code scanner of src/xpr_h264.c:311-337. */
module H264 {
  import opened Common
  import opened ProgramStream

  datatype Nalu = Nalu(start: int, length: int)

  /** The scanner looks at this many bytes only. */
  const SCAN_LIMIT := 1024

  /** Length of the run of zero bytes that ends in front of index i. */
  ghost function ZeroRun(data: seq<byte>, i: nat): nat
    requires i <= |data|
  {
    if i > 0 && data[i - 1] == 0 then 1 + ZeroRun(data, i - 1) else 0
  }

  /** The scanner finds the start code that ends in the 0x01 at index i: exactly when the whole run of
      zeros in front of it has length 3 modulo 4. Annex B of ITU-T H.264 accepts any run of two or more. */
  ghost predicate IsHit(data: seq<byte>, i: nat)
    requires i < |data|
  {
    data[i] == 1 && ZeroRun(data, i) % 4 == 3
  }

  /** The hits below index i, in order. */
  ghost function Hits(data: seq<byte>, i: nat): (h: seq<nat>)
    requires i <= |data|
    ensures forall j :: 0 <= j < |h| ==> h[j] < i
  {
    if i == 0 then []
    else Hits(data, i - 1) + if IsHit(data, i - 1) then [i - 1] else []
  }

  ghost function Window(data: seq<byte>): (l: nat)
    ensures l <= |data|
  {
    if |data| < SCAN_LIMIT then |data| else SCAN_LIMIT
  }

  lemma {:induction false} ZeroRunIsZeros(data: seq<byte>, i: nat)
    requires i <= |data|
    ensures ZeroRun(data, i) <= i
    ensures forall j :: i - ZeroRun(data, i) <= j < i ==> data[j] == 0
    ensures ZeroRun(data, i) < i ==> data[i - ZeroRun(data, i) - 1] != 0
  {
    if i > 0 && data[i - 1] == 0 { ZeroRunIsZeros(data, i - 1); }
  }

  lemma HitApart(data: seq<byte>, i: nat)
    requires i < |data| && IsHit(data, i)
    ensures i >= 3 && forall k :: 0 <= k < i && data[k] == 1 ==> k + 4 <= i
    ensures data[i - 3] == 0 && data[i - 2] == 0 && data[i - 1] == 0
  {
    ZeroRunIsZeros(data, i);
    assert ZeroRun(data, i) >= 3;
  }

  /** The hits are all the positions below i where a start code is found, and nothing else. */
  lemma {:induction false} HitsAll(data: seq<byte>, i: nat, k: nat)
    requires i <= |data| && k < |data|
    ensures k in Hits(data, i) <==> k < i && IsHit(data, k)
  {
    if i > 0 { HitsAll(data, i - 1, k); }
  }

  /** They come in order, at least four bytes apart. */
  lemma {:induction false} HitsApart(data: seq<byte>, i: nat)
    requires i <= |data|
    ensures forall j :: 0 < j < |Hits(data, i)| ==> Hits(data, i)[j - 1] + 4 <= Hits(data, i)[j]
    ensures forall j :: 0 <= j < |Hits(data, i)| ==> IsHit(data, Hits(data, i)[j])
  {
    if i > 0 {
      HitsApart(data, i - 1);
      var h := Hits(data, i - 1);
      if IsHit(data, i - 1) && h != [] {
        assert data[h[|h| - 1]] == 1;
        HitApart(data, i - 1);
      }
    }
  }

  /** The units made of the first n hits: each reaches to the next start code, the last to the end. */
  ghost predicate Units(data: seq<byte>, h: seq<nat>, n: nat, us: seq<Nalu>) {
    && n <= |h| && n <= |us|
    && (forall j :: 0 <= j < n ==> us[j].start == h[j] + 1)
    && (forall j :: 0 <= j < n - 1 ==> us[j].length == us[j + 1].start - us[j].start - 4)
    && (n > 0 ==> us[n - 1].length == |data| - us[n - 1].start)
  }

  /** One character through the scanner's counter: it counts zeros modulo 4. */
  lemma Advance(data: seq<byte>, i: nat, m: int)
    requires i < |data| && m == ZeroRun(data, i) % 4
    ensures ZeroRun(data, i + 1) % 4 == if data[i] == 0 && m < 3 then m + 1 else 0
    ensures IsHit(data, i) <==> data[i] == 1 && m == 3
    ensures Hits(data, i + 1) == Hits(data, i) + if data[i] == 1 && m == 3 then [i] else []
    ensures 0 <= m < 4
  {
  }

  /** The units of the first n hits while the last one is still open: it has no length yet. */
  ghost predicate Opened(h: seq<nat>, us: seq<Nalu>, n: nat) {
    && n <= |h| && n <= |us|
    && (forall j :: 0 <= j < n ==> us[j].start == h[j] + 1)
    && (forall j :: 0 <= j < n - 1 ==> us[j].length == us[j + 1].start - us[j].start - 4)
  }

  /** A unit starts behind a position of the first 1024 bytes exactly where a start code is found. */
  ghost predicate AllReported(data: seq<byte>, us: seq<Nalu>) {
    forall k :: 0 <= k < |data| && k < 1024 ==>
      (IsHit(data, k) <==> exists j :: 0 <= j < |us| && us[j].start == k + 1)
  }

  lemma HitsReported(data: seq<byte>, us: seq<Nalu>)
    requires var h := Hits(data, Window(data)); |us| == |h| && forall j :: 0 <= j < |h| ==> us[j].start == h[j] + 1
    ensures AllReported(data, us)
  {
    hide Hits, IsHit;
    forall k | 0 <= k < Window(data)
      ensures IsHit(data, k) <==> exists j :: 0 <= j < |us| && us[j].start == k + 1
    {
      HitsAll(data, Window(data), k);
      assert forall j :: 0 <= j < |us| && us[j].start == k + 1 ==> Hits(data, Window(data))[j] == k;
    }
  }

  /** The array has room for `maxNalus` units. */
  method ScanNALU(data: seq<byte>, nalus: array<Nalu>) returns (n: nat)
    requires nalus.Length > 0
    modifies nalus
    ensures var h := Hits(data, Window(data));
      n == (if |h| < nalus.Length then |h| else nalus.Length) && Units(data, h, n, nalus[..])
    ensures n < nalus.Length ==> AllReported(data, nalus[..n])
  {
    var kStartCode: seq<byte> := [0, 0, 0, 1];
    var i, m := 0, 0;
    var l := if |data| < SCAN_LIMIT then |data| else SCAN_LIMIT;
    n := 0;
    while i < l
      invariant 0 <= i <= l && n < nalus.Length
      invariant m == ZeroRun(data, i) % 4
      invariant n == |Hits(data, i)| && Opened(Hits(data, i), nalus[..], n)
    {
      Advance(data, i, m);
      if data[i] != kStartCode[m] {
        m, i := 0, i + 1;
        continue;
      }
      m, i := m + 1, i + 1;
      if m > 3 {
        n := AddUnit(data, nalus, n, i - 1);
        if n > nalus.Length - 1 {
          break;
        }
        m := 0;
      }
    }
    CloseLast(data, nalus, n, i);
    if n < nalus.Length { HitsReported(data, nalus[..n]); }
  }

  /** The scan stopped at i, at the end of its window or with a full array: the last unit reaches to the
      end of the buffer. */
  method CloseLast(data: seq<byte>, nalus: array<Nalu>, n: nat, ghost i: nat)
    requires i <= Window(data) && (i < Window(data) ==> n == nalus.Length)
    requires n == |Hits(data, i)| <= nalus.Length && Opened(Hits(data, i), nalus[..], n)
    modifies nalus
    ensures var h := Hits(data, Window(data));
      n == (if |h| < nalus.Length then |h| else nalus.Length) && Units(data, h, n, nalus[..])
  {
    HitsPrefix(data, i, Window(data));
    if n > 0 {
      nalus[n - 1] := Nalu(nalus[n - 1].start, |data| - nalus[n - 1].start);
    }
  }

  /** Record the start code that ends at i and close the unit before it. */
  method AddUnit(data: seq<byte>, nalus: array<Nalu>, n: nat, i: nat) returns (m: nat)
    requires i < |data| && n < nalus.Length && IsHit(data, i)
    requires n == |Hits(data, i)| && Opened(Hits(data, i), nalus[..], n)
    modifies nalus
    ensures m == n + 1 == |Hits(data, i + 1)| && Opened(Hits(data, i + 1), nalus[..], m)
  {
    ghost var h := Hits(data, i);
    assert Hits(data, i + 1) == h + [i];
    nalus[n] := Nalu(i + 1, nalus[n].length);
    if n > 0 {
      nalus[n - 1] := Nalu(nalus[n - 1].start, nalus[n].start - nalus[n - 1].start - 4);
    }
    assert Opened(h + [i], nalus[..], n + 1);
    m := n + 1;
  }

  lemma {:induction false} HitsPrefix(data: seq<byte>, i: nat, l: nat)
    requires i <= l <= |data|
    ensures Hits(data, i) <= Hits(data, l)
    decreases l
  {
    if i < l { HitsPrefix(data, i, l - 1); }
  }

  /** A unit with its start code. */
  ghost function Piece(data: seq<byte>, u: Nalu): seq<byte>
    requires Framed(data, u)
  {
    data[u.start - 4..u.start + u.length]
  }

  /** The unit lies in the buffer, behind a four-byte start code. */
  ghost predicate Framed(data: seq<byte>, u: Nalu) {
    && 4 <= u.start && 0 <= u.length && u.start + u.length <= |data|
    && data[u.start - 4..u.start] == [0, 0, 0, 1]
  }

  ghost function PiecesOf(data: seq<byte>, us: seq<Nalu>): (ps: seq<seq<byte>>)
    requires forall u :: u in us ==> Framed(data, u)
    ensures |ps| == |us|
  {
    if us == [] then []
    else
      assert us[0] in us && forall u :: u in us[1..] ==> u in us;
      [Piece(data, us[0])] + PiecesOf(data, us[1..])
  }

  lemma UnitsFramed(data: seq<byte>, n: nat, us: seq<Nalu>)
    requires Units(data, Hits(data, Window(data)), n, us)
    ensures forall j :: 0 <= j < n ==> Framed(data, us[j])
  {
    var h := Hits(data, Window(data));
    HitsApart(data, Window(data));
    forall j | 0 <= j < n ensures Framed(data, us[j]) {
      HitApart(data, h[j]);
      if j + 1 < n { assert h[j] + 4 <= h[j + 1]; }
      assert data[h[j] - 3..h[j] + 1] == [0, 0, 0, 1];
    }
  }

  /** Each unit ends where the next start code begins, the last at the end of the buffer. */
  ghost predicate EndToEnd(data: seq<byte>, us: seq<Nalu>) {
    && (forall j :: 0 <= j < |us| - 1 ==> us[j].start + us[j].length == us[j + 1].start - 4)
    && (us != [] ==> us[|us| - 1].start + us[|us| - 1].length == |data|)
  }

  lemma JoinSlices<T>(s: seq<T>, a: nat, b: nat)
    requires a <= b <= |s|
    ensures s[a..b] + s[b..] == s[a..]
  {
  }

  /** From the first start code on, the pieces tile the buffer to its end. */
  lemma {:induction false} PiecesTile(data: seq<byte>, us: seq<Nalu>)
    requires us != [] && EndToEnd(data, us) && forall u :: u in us ==> Framed(data, u)
    ensures Framed(data, us[0]) && Flatten(PiecesOf(data, us)) == data[us[0].start - 4..]
    decreases |us|
  {
    var u := us[0];
    assert u in us;
    if |us| > 1 {
      var rest := us[1..];
      assert forall v :: v in rest ==> v in us;
      assert forall j :: 0 <= j < |rest| ==> rest[j] == us[j + 1];
      PiecesTile(data, rest);
    } else {
      assert us[1..] == [];
    }
    JoinSlices(data, u.start - 4, u.start + u.length);
  }

  /** The j-th of the units made of the first n hits. */
  ghost function UnitAt(data: seq<byte>, h: seq<nat>, n: nat, j: nat): Nalu
    requires j < n <= |h|
  {
    Nalu(h[j] + 1, if j + 1 < n then h[j + 1] - h[j] - 4 else |data| - h[j] - 1)
  }

  /** The units the scanner reports for an array of `room` elements. */
  ghost function UnitSeq(data: seq<byte>, room: nat): (us: seq<Nalu>)
  {
    var h := Hits(data, Window(data));
    var n := if |h| < room then |h| else room;
    seq(n, j requires 0 <= j < n => UnitAt(data, h, n, j))
  }

  lemma UnitSeqUnits(data: seq<byte>, room: nat)
    ensures var us := UnitSeq(data, room);
      Units(data, Hits(data, Window(data)), |us|, us) && |us| <= room && forall u :: u in us ==> Framed(data, u)
  {
    var h, us := Hits(data, Window(data)), UnitSeq(data, room);
    var n := |us|;
    assert forall j :: 0 <= j < n ==> us[j] == UnitAt(data, h, n, j);
    UnitsOf(data, h, us);
    UnitsFramed(data, n, us);
  }

  lemma UnitsOf(data: seq<byte>, h: seq<nat>, us: seq<Nalu>)
    requires |us| <= |h| && forall j :: 0 <= j < |us| ==> us[j] == UnitAt(data, h, |us|, j)
    ensures Units(data, h, |us|, us)
  {
  }

  lemma UnitSeqIs(data: seq<byte>, room: nat, us: seq<Nalu>, n: nat)
    requires Units(data, Hits(data, Window(data)), n, us)
    requires n == if |Hits(data, Window(data))| < room then |Hits(data, Window(data))| else room
    ensures us[..n] == UnitSeq(data, room)
  {
    var h := Hits(data, Window(data));
    forall j | 0 <= j < n ensures us[j] == UnitAt(data, h, n, j) {
      assert us[j].start == h[j] + 1;
      if j + 1 < n { assert us[j].length == us[j + 1].start - us[j].start - 4; }
    }
  }

  /** The units with their start codes tile the buffer from the first start code found to its end. */
  lemma UnitsTile(data: seq<byte>, room: nat)
    ensures var us := UnitSeq(data, room);
      (forall u :: u in us ==> Framed(data, u)) &&
      (us != [] ==> 4 <= us[0].start <= |data| + 4 && Flatten(PiecesOf(data, us)) == data[us[0].start - 4..])
  {
    hide UnitSeq, Hits, PiecesOf, Flatten;
    UnitSeqUnits(data, room);
    var us := UnitSeq(data, room);
    if us != [] { PiecesTile(data, us); }
  }

  /** The unit type of a non-empty unit. */
  function TypeOf(data: seq<byte>, u: Nalu): int
    requires 0 <= u.start < |data|
  {
    data[u.start] as int % 0x20
  }

  /** Every unit's type byte lies in the buffer: all but a start code at its very end has one. */
  ghost predicate Typed(data: seq<byte>, us: seq<Nalu>) {
    forall u :: u in us ==> Framed(data, u) && u.start < |data|
  }

  /** Another start code stands right behind the unit's own. */
  ghost predicate Followed(data: seq<byte>, u: Nalu) {
    0 <= u.start && u.start + 4 <= |data| && data[u.start..u.start + 4] == START_CODE
  }

  /** No two start codes side by side. */
  ghost predicate Solid(us: seq<Nalu>) {
    forall u :: u in us ==> u.length > 0
  }

  /** Only a unit that is followed by another start code at once is empty, and then its type byte is zero. */
  lemma EmptyIsFollowed(data: seq<byte>, room: nat, u: Nalu)
    requires Typed(data, UnitSeq(data, room)) && u in UnitSeq(data, room)
    ensures u.length == 0 ==> Followed(data, u) && TypeOf(data, u) == 0
  {
    var us := UnitSeq(data, room);
    UnitSeqUnits(data, room);
    var j :| 0 <= j < |us| && us[j] == u;
    if j + 1 < |us| && u.length == 0 {
      assert us[j + 1] in us && us[j + 1].start == u.start + 4;
      assert data[u.start..u.start + 4][0] == 0;
    }
  }

  /** Is there a unit of this type? */
  ghost predicate HasType(data: seq<byte>, us: seq<Nalu>, t: int)
    requires Typed(data, us)
  {
    exists j :: 0 <= j < |us| && TypeOf(data, us[j]) == t
  }

  /** The pieces of the units that are not of type t. */
  ghost function Kept(data: seq<byte>, us: seq<Nalu>, t: int): seq<seq<byte>>
    requires Typed(data, us)
  {
    if us == [] then []
    else
      assert us[0] in us && forall u :: u in us[1..] ==> u in us;
      (if TypeOf(data, us[0]) == t then [] else [Piece(data, us[0])]) + Kept(data, us[1..], t)
  }

  lemma {:induction false} KeptSnoc(data: seq<byte>, us: seq<Nalu>, u: Nalu, t: int)
    requires Typed(data, us + [u])
    ensures Typed(data, us)
    ensures Flatten(Kept(data, us + [u], t)) ==
              Flatten(Kept(data, us, t)) + if TypeOf(data, u) == t then [] else Piece(data, u)
  {
    assert u in us + [u] && forall v :: v in us ==> v in us + [u];
    if us == [] {
      assert us + [u] == [u] && [u][1..] == [];
    } else {
      assert (us + [u])[1..] == us[1..] + [u] && (us + [u])[0] == us[0];
      assert forall v :: v in us[1..] + [u] ==> v in us + [u];
      KeptSnoc(data, us[1..], u, t);
      assert us[0] in us + [u];
      var head := if TypeOf(data, us[0]) == t then [] else [Piece(data, us[0])];
      var last := if TypeOf(data, u) == t then [] else Piece(data, u);
      FlattenAppend(head, Kept(data, us[1..] + [u], t));
      FlattenAppend(head, Kept(data, us[1..], t));
      Assoc(Flatten(head), Flatten(Kept(data, us[1..], t)), last);
    }
  }

  /** With no unit of type t, nothing is left out. */
  lemma {:induction false} KeptAll(data: seq<byte>, us: seq<Nalu>, t: int)
    requires Typed(data, us) && !HasType(data, us, t)
    ensures Kept(data, us, t) == PiecesOf(data, us)
  {
    if us != [] {
      assert us[0] in us && forall u :: u in us[1..] ==> u in us;
      assert TypeOf(data, us[0]) != t;
      assert forall j :: 0 <= j < |us[1..]| ==> us[1..][j] == us[j + 1];
      KeptAll(data, us[1..], t);
    }
  }

  /** What is kept of a frame without units of type t is the buffer from its first start code on. */
  lemma KeptTile(data: seq<byte>, room: nat, t: int)
    requires Typed(data, UnitSeq(data, room)) && !HasType(data, UnitSeq(data, room), t)
    ensures var us := UnitSeq(data, room);
      us != [] ==> 4 <= us[0].start <= |data| + 4 && Flatten(Kept(data, us, t)) == data[us[0].start - 4..]
  {
    hide UnitSeq, Flatten, Kept, PiecesOf;
    UnitsTile(data, room);
    KeptAll(data, UnitSeq(data, room), t);
  }

  // ----- what the scanner finds of a written stream

  /** A start code in the sense of Annex B of ITU-T H.264 ends at index i. */
  ghost predicate AnnexB(data: seq<byte>, i: nat)
    requires i < |data|
  {
    data[i] == 1 && ZeroRun(data, i) >= 2
  }

  /** Every hit is a start code, but a start code behind four zeros, or behind two, is not found. */
  lemma StartCodesMissed(data: seq<byte>, i: nat)
    requires i < |data|
    ensures IsHit(data, i) ==> AnnexB(data, i)
    ensures var d := [0, 0, 0, 0, 1]; AnnexB(d, 4) && Hits(d, 5) == []
    ensures var d := [0, 0, 1]; AnnexB(d, 2) && Hits(d, 3) == []
  {
    var d := [0, 0, 0, 0, 1];
    assert ZeroRun(d, 2) == 2 && ZeroRun(d, 4) == 4;
    assert Hits(d, 3) == [] && Hits(d, 5) == [];
    var e := [0, 0, 1];
    assert ZeroRun(e, 2) == 2;
    assert Hits(e, 2) == [] && Hits(e, 3) == [];
  }

  /** The units, each behind its start code. */
  ghost function Written(us: seq<seq<byte>>): seq<byte> {
    if us == [] then [] else Written(us[..|us| - 1]) + START_CODE + us[|us| - 1]
  }

  /** Where the start codes of the units end. */
  ghost function Marks(us: seq<seq<byte>>): (h: seq<nat>)
    ensures |h| == |us|
  {
    if us == [] then [] else Marks(us[..|us| - 1]) + [|Written(us[..|us| - 1])| + 3]
  }

  /** No byte of the unit is taken for the end of a start code. */
  ghost predicate Clean(u: seq<byte>) {
    forall i :: 0 <= i < |u| ==> !IsHit(u, i)
  }

  /** Behind a byte that is not zero, runs count afresh. */
  lemma {:induction false} RunBehind(a: seq<byte>, b: seq<byte>, i: nat)
    requires a != [] && a[|a| - 1] != 0 && i <= |b|
    ensures ZeroRun(a + b, |a| + i) == ZeroRun(b, i)
    decreases i
  {
    if i > 0 { RunBehind(a, b, i - 1); }
  }

  lemma {:induction false} RunInFront(a: seq<byte>, b: seq<byte>, i: nat)
    requires i <= |a|
    ensures ZeroRun(a + b, i) == ZeroRun(a, i)
    decreases i
  {
    if i > 0 { RunInFront(a, b, i - 1); }
  }

  lemma {:induction false} HitsInFront(a: seq<byte>, b: seq<byte>, i: nat)
    requires i <= |a|
    ensures Hits(a + b, i) == Hits(a, i)
    decreases i
  {
    if i > 0 {
      HitsInFront(a, b, i - 1);
      RunInFront(a, b, i - 1);
    }
  }

  /** The start code behind `a` is found if and only if `a` ends in a run of zeros of length 0 modulo 4. */
  lemma StartCodeFound(a: seq<byte>, u: seq<byte>)
    ensures var d := a + START_CODE + u;
      && (IsHit(d, |a| + 3) <==> ZeroRun(a, |a|) % 4 == 0)
      && Hits(d, |a| + 4) == (if ZeroRun(a, |a|) % 4 == 0 then Hits(a, |a|) + [|a| + 3] else Hits(a, |a|))
  {
    var d, z := a + START_CODE + u, |a|;
    hide Hits, ZeroRun, IsHit;
    assert d == a + (START_CODE + u);
    HitsInFront(a, START_CODE + u, z);
    RunInFront(a, START_CODE + u, z);
    assert d[z..z + 4] == START_CODE;
    CodeAt(d, z);
  }

  lemma CodeAt(d: seq<byte>, z: nat)
    requires z + 4 <= |d| && d[z..z + 4] == START_CODE
    ensures IsHit(d, z + 3) <==> ZeroRun(d, z) % 4 == 0
    ensures Hits(d, z + 4) == if ZeroRun(d, z) % 4 == 0 then Hits(d, z) + [z + 3] else Hits(d, z)
  {
    hide Hits, ZeroRun, IsHit;
    assert d[z..z + 4][0] == 0 && d[z..z + 4][1] == 0 && d[z..z + 4][2] == 0 && d[z..z + 4][3] == 1;
    ScanStep(d, z);
    ScanStep(d, z + 1);
    ScanStep(d, z + 2);
    ScanStep(d, z + 3);
  }

  lemma ScanStep(d: seq<byte>, i: nat)
    requires i < |d|
    ensures ZeroRun(d, i + 1) == if d[i] == 0 then ZeroRun(d, i) + 1 else 0
    ensures IsHit(d, i) <==> d[i] == 1 && ZeroRun(d, i) % 4 == 3
    ensures d[i] != 1 ==> Hits(d, i + 1) == Hits(d, i)
    ensures Hits(d, i + 1) == if IsHit(d, i) then Hits(d, i) + [i] else Hits(d, i)
  {
  }

  /** In a clean unit behind a start code nothing is found. */
  lemma {:induction false} NothingFound(a: seq<byte>, u: seq<byte>, i: nat)
    requires Clean(u) && i <= |u|
    ensures var d := a + START_CODE + u;
      Hits(d, |a| + 4 + i) == Hits(d, |a| + 4) && ZeroRun(d, |a| + 4 + i) == ZeroRun(u, i)
    decreases i
  {
    hide Hits, ZeroRun, IsHit;
    var d, s := a + START_CODE + u, a + START_CODE;
    assert s[|s| - 1] == 1;
    RunBehind(s, u, i);
    if i > 0 {
      NothingFound(a, u, i - 1);
      assert !IsHit(u, i - 1);
      assert d[|a| + 4 + i - 1] == u[i - 1];
      ScanStep(u, i - 1);
      ScanStep(d, |a| + 4 + i - 1);
    }
  }

  /** Each start code of the stream, and no more, is found, up to any place in its last unit. */
  lemma {:induction false} HitsOfWritten(us: seq<seq<byte>>, i: nat)
    requires us != [] && (forall u :: u in us ==> Clean(u)) && i <= |us[|us| - 1]|
    requires forall j :: 0 <= j < |us| - 1 ==> ZeroRun(us[j], |us[j]|) % 4 == 0
    ensures Hits(Written(us), |Written(us[..|us| - 1])| + 4 + i) == Marks(us)
    ensures ZeroRun(Written(us), |Written(us)|) == ZeroRun(us[|us| - 1], |us[|us| - 1]|)
    decreases |us|
  {
    hide Hits, ZeroRun, Written, Marks, Clean;
    var n := |us| - 1;
    var rest, u := us[..n], us[n];
    NothingWritten();
    WrittenSnoc(us);
    if n > 0 {
      assert rest[n - 1] in us && forall v :: v in rest ==> v in us;
      HitsOfWritten(rest, |rest[n - 1]|);
      WrittenSnoc(rest);
    } else {
      assert rest == [];
    }
    assert u in us;
    StartCodeFound(Written(rest), u);
    NothingFound(Written(rest), u, i);
    NothingFound(Written(rest), u, |u|);
  }

  lemma NothingWritten()
    ensures Written([]) == [] && Marks([]) == [] && Hits([], 0) == [] && ZeroRun([], 0) == 0
  {
  }

  lemma WrittenSnoc(us: seq<seq<byte>>)
    requires us != []
    ensures var n := |us| - 1; var w := Written(us[..n]);
      && Written(us) == w + START_CODE + us[n] && |Written(us)| == |w| + 4 + |us[n]|
      && Marks(us) == Marks(us[..n]) + [|w| + 3]
  {
  }

  lemma {:induction false} WrittenPrefix(us: seq<seq<byte>>, j: nat)
    requires j < |us|
    ensures var w := |Written(us[..j])|;
      && Marks(us)[j] == w + 3 && w + 4 + |us[j]| <= |Written(us)|
      && Written(us)[w + 4..w + 4 + |us[j]|] == us[j]
      && |Written(us[..j + 1])| == w + 4 + |us[j]|
    decreases |us|
  {
    hide Written, Marks;
    WrittenSnoc(us);
    var n := |us| - 1;
    if j < n {
      WrittenPrefix(us[..n], j);
      assert us[..n][..j] == us[..j] && us[..n][..j + 1] == us[..j + 1] && us[..n][j] == us[j];
      var w := |Written(us[..j])|;
      assert Written(us)[w + 4..w + 4 + |us[j]|] == Written(us[..n])[w + 4..w + 4 + |us[j]|];
    } else {
      assert us[..j + 1] == us;
    }
  }

  /** Units written behind four-byte start codes are scanned back: when no byte of them is taken for a start code,
      each but the last ends in a run of zeros of length 0 modulo 4, all start codes lie in the bytes looked at,
      and there is room. */
  lemma ScanReadsBack(us: seq<seq<byte>>, room: nat)
    requires us != [] && |us| <= room && (forall u :: u in us ==> Clean(u))
    requires forall j :: 0 <= j < |us| - 1 ==> ZeroRun(us[j], |us[j]|) % 4 == 0
    requires |Written(us[..|us| - 1])| + 4 <= SCAN_LIMIT
    ensures var data := Written(us);
      var found := UnitSeq(data, room);
      |found| == |us| && forall j :: 0 <= j < |us| ==>
        0 <= found[j].start <= found[j].start + found[j].length <= |data|
        && data[found[j].start..found[j].start + found[j].length] == us[j]
  {
    hide Hits, ZeroRun, Written, Marks, Clean, UnitSeq;
    var data, n := Written(us), |us| - 1;
    WrittenSnoc(us);
    HitsOfWritten(us, Window(data) - |Written(us[..n])| - 4);
    UnitSeqIsMarks(data, room, Marks(us));
    forall j | 0 <= j < |us|
      ensures var u := UnitSeq(data, room)[j];
        0 <= u.start <= u.start + u.length <= |data| && data[u.start..u.start + u.length] == us[j]
    {
      WrittenPrefix(us, j);
      if j < n { WrittenPrefix(us, j + 1); } else { assert us[..j + 1] == us; }
    }
  }

  lemma UnitSeqIsMarks(data: seq<byte>, room: nat, h: seq<nat>)
    requires Hits(data, Window(data)) == h && |h| <= room
    ensures |UnitSeq(data, room)| == |h|
    ensures forall j :: 0 <= j < |h| ==> UnitSeq(data, room)[j] == UnitAt(data, h, |h|, j)
  {
  }

  /** The frame probe succeeds when it meets a sequence parameter set; the parse of it is not modelled. */
  method ProbeFrameInfo(data: seq<byte>, nalus: array<Nalu>, n: nat, sps: int) returns (found: bool)
    requires n <= nalus.Length && Typed(data, nalus[..n])
    ensures found <==> HasType(data, nalus[..n], sps)
  {
    for i := 0 to n
      invariant forall j :: 0 <= j < i ==> TypeOf(data, nalus[..n][j]) != sps
    {
      assert nalus[..n][i] in nalus[..n];
      if data[nalus[i].start] as int % 0x20 == sps {
        assert TypeOf(data, nalus[..n][i]) == sps;
        return true;
      }
    }
    found := false;
  }
}
