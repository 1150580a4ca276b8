/** The UTF-8 conversions of src/xpr_utils.c. UTF-8 is section 3 of RFC 3629, and UTF-16 section 2.1 of RFC 2781. */
module Utf8 {
  import opened Common
  import Bits

  // ----- the forms of a character

  /** A Unicode scalar value, other than zero, which ends a text. */
  predicate Scalar(v: nat) {
    0 < v <= 0x10FFFF && !(0xD800 <= v < 0xE000)
  }

  function Tail(v: nat): byte { 0x80 + v % 64 }

  /** The UTF-8 form. */
  function Form8(v: nat): (s: seq<byte>)
    requires Scalar(v)
    ensures 1 <= |s| <= 4
  {
    if v < 0x80 then [v]
    else if v < 0x800 then [0xC0 + v / 64, Tail(v)]
    else if v < 0x1_0000 then [0xE0 + v / 0x1000, Tail(v / 64), Tail(v)]
    else [0xF0 + v / 0x4_0000, Tail(v / 0x1000), Tail(v / 64), Tail(v)]
  }

  /** The UTF-16 form. */
  function Form16(v: nat): (s: seq<nat>)
    requires Scalar(v)
    ensures 1 <= |s| <= 2
  {
    if v < 0x1_0000 then [v]
    else
      var w := v - 0x1_0000;
      [0xD800 + w / 0x400, 0xDC00 + w % 0x400]
  }

  ghost predicate Scalars(vs: seq<nat>) { forall v :: v in vs ==> Scalar(v) }

  ghost function Text8(vs: seq<nat>): seq<byte>
    requires Scalars(vs)
  {
    if vs == [] then [] else Form8(vs[0]) + Text8(vs[1..])
  }

  ghost function Text16(vs: seq<nat>): seq<nat>
    requires Scalars(vs)
  {
    if vs == [] then [] else Form16(vs[0]) + Text16(vs[1..])
  }

  // ----- what the loop reads

  predicate Continues(c: byte) { 0x80 <= c < 0xC0 }

  /** How far a byte below 0xFE moves the read position; a continuation byte that stands alone is skipped. */
  function Size(c: byte): (n: nat)
    requires c < 0xFE
    ensures 1 <= n <= 6
  {
    if c < 0xC0 then 1
    else if c < 0xE0 then 2
    else if c < 0xF0 then 3
    else if c < 0xF8 then 4
    else if c < 0xFC then 5
    else 6
  }

  /** The bits of a lead byte that count, in a sequence of n bytes. */
  function Lead(c: byte, n: nat): nat
    requires 1 <= n <= 6
  {
    c as int % (
      if n == 1 then 0x80
      else if n == 2 then 0x20
      else if n == 3 then 0x10
      else if n == 4 then 8
      else if n == 5 then 4
      else 2)
  }

  /** Six more bits from each byte. */
  function More(v: nat, p: seq<byte>): nat
    decreases |p|
  {
    if p == [] then v else More(64 * v + p[0] as int % 64, p[1..])
  }

  /** The number a sequence of bytes spells. */
  function Number(p: seq<byte>): nat
    requires 1 <= |p| <= 6
  {
    More(Lead(p[0], |p|), p[1..])
  }

  /** UTF8C_UTF16C: one unit for up to three bytes; for more, two units, with 32-bit arithmetic. */
  function Units(p: seq<byte>): (u: seq<nat>)
    requires 1 <= |p| <= 6
    ensures 1 <= |u| <= 2
  {
    if |p| < 4 then [Number(p)]
    else
      var w := (Number(p) - 0x1_0000) % 0x1_0000_0000;
      [0xD800 + w / 0x400 % 0x400, 0xDC00 + w % 0x400]
  }

  /** What one sequence puts out: UTF8C_UTF32C's unit is the number. */
  function UnitsOf(p: seq<byte>, wide: bool): (u: seq<nat>)
    requires 1 <= |p| <= 6
    ensures 1 <= |u| <= if wide then 1 else 2
  {
    if wide then [Number(p)] else Units(p)
  }

  function Behind(s: seq<byte>, n: nat): seq<byte> { if n <= |s| then s[n..] else [] }

  /** Can the loop read `s` to its end? The bytes 0xFE and 0xFF meet none of its tests, so it takes the step n8 of
      the turn before; without one it stands still. The bytes of every other sequence must be there. */
  ghost predicate Readable(s: seq<byte>, left: int, n8: nat)
    decreases left
  {
    left > 0 ==>
      && s != []
      && (s[0] >= 0xFE ==> n8 > 0 && Readable(Behind(s, n8), left - n8, n8))
      && (0 < s[0] < 0xFE ==> Size(s[0]) <= |s| && Readable(s[Size(s[0])..], left - Size(s[0]), Size(s[0])))
  }

  /** What the loop puts out, from the step n8 and the nu units of the turn before. A turn that repeats them moves
      over nu places without writing them. */
  ghost function Out(s: seq<byte>, left: int, n8: nat, nu: nat, wide: bool): seq<Option<nat>>
    requires Readable(s, left, n8)
    decreases left
  {
    if left <= 0 || s[0] == 0 then []
    else if s[0] >= 0xFE then Skipped(nu) + Out(Behind(s, n8), left - n8, n8, nu, wide)
    else if Continues(s[0]) then Out(s[1..], left - 1, 1, nu, wide)
    else
      var n := Size(s[0]);
      var u := UnitsOf(s[..n], wide);
      Written(u) + Out(s[n..], left - n, n, |u|, wide)
  }

  ghost function Skipped(n: nat): (o: seq<Option<nat>>)
    ensures |o| == n
  {
    seq(n, i => None)
  }

  ghost function Written(u: seq<nat>): (o: seq<Option<nat>>)
    ensures |o| == |u|
  {
    seq(|u|, i requires 0 <= i < |u| => Some(u[i]))
  }

  /** `now` is `was` with what was put out written over its front. */
  ghost predicate Stored(now: seq<nat>, was: seq<nat>, o: seq<Option<nat>>) {
    && |now| == |was| && |o| <= |now|
    && (forall i :: 0 <= i < |o| ==> now[i] == if o[i].Some? then o[i].value else was[i])
  }

  // ----- the conversions meet the standards

  lemma FormIsRead(v: nat)
    requires Scalar(v)
    ensures var s := Form8(v); s[0] != 0 && !Continues(s[0]) && s[0] < 0xFE && Size(s[0]) == |s| && Number(s) == v
  {
    hide Number;
    NumberOfForm(v);
  }

  lemma NumberOfForm(v: nat)
    requires Scalar(v)
    ensures Number(Form8(v)) == v
  {
    hide Number, Tail;
    if v < 0x80 {
      NumberIs(v, 0, 0, 0);
    } else if v < 0x800 {
      NumberIs(0xC0 + v / 64, Tail(v), 0, 0);
      LowBits(v, v / 64, 0x20, 6);
    } else if v < 0x1_0000 {
      NumberIs(0xE0 + v / 0x1000, Tail(v / 64), Tail(v), 0);
      LowBits(v / 64, v / 0x1000, 0x10, 14);
      LowBits(v, 0, 0x10, 0);
    } else {
      NumberIs(0xF0 + v / 0x4_0000, Tail(v / 0x1000), Tail(v / 64), Tail(v));
      LowBits(v / 0x1000, v / 0x4_0000, 8, 30);
      LowBits(v / 64, 0, 8, 0);
      LowBits(v, 0, 8, 0);
    }
  }

  /** The value bits behind the marks, and the shift by six that joins them. */
  lemma LowBits(x: nat, lead: nat, m: nat, k: nat)
    requires lead < m
    ensures (m * k + lead) % m == lead
    ensures Tail(x) as int % 64 == x % 64 && x == 64 * (x / 64) + x % 64
    ensures x / 64 / 64 == x / 0x1000 && x / 0x1000 / 64 == x / 0x4_0000
  {
    Bits.DivModUnique(m * k + lead, m, k, lead);
  }

  lemma NumberIs(a: byte, b: byte, c: byte, d: byte)
    ensures var b', c', d' := b as int % 64, c as int % 64, d as int % 64;
      && Number([a]) == a as int % 0x80
      && Number([a, b]) == 64 * (a as int % 0x20) + b'
      && Number([a, b, c]) == 64 * (64 * (a as int % 0x10) + b') + c'
      && Number([a, b, c, d]) == 64 * (64 * (64 * (a as int % 8) + b') + c') + d'
  {
    assert [a][1..] == [] && [a, b][1..] == [b] && [a, b, c][1..] == [b, c] && [a, b, c, d][1..] == [b, c, d];
    forall v: nat ensures More(v, [b]) == 64 * v + b as int % 64 { assert [b][1..] == []; }
    forall v: nat ensures More(v, [b, c]) == 64 * (64 * v + b as int % 64) + c as int % 64 { More2(v, b, c); }
    forall v: nat ensures More(v, [b, c, d]) == 64 * (64 * (64 * v + b as int % 64) + c as int % 64) + d as int % 64 {
      assert [b, c, d][1..] == [c, d];
      More2(64 * v + b as int % 64, c, d);
    }
  }

  lemma More2(v: nat, b: byte, c: byte)
    ensures More(v, [b, c]) == 64 * (64 * v + b as int % 64) + c as int % 64
  {
    assert [b, c][1..] == [c] && [c][1..] == [];
    assert More(64 * v + b as int % 64, [c]) == 64 * (64 * v + b as int % 64) + c as int % 64;
  }

  /** The forms by what they say: the lead byte's range tells the length of the UTF-8 form, and its low bits with six
      from each byte behind are the number; a surrogate pair is the number less 0x10000, ten bits in each. */
  lemma FormsAre(v: nat)
    requires Scalar(v)
    ensures var f := Form8(v);
      && (forall i :: 1 <= i < |f| ==> 0x80 <= f[i] < 0xC0)
      && (v < 0x80 ==> f == [v])
      && (0x80 <= v < 0x800 ==> |f| == 2 && 0xC0 <= f[0] < 0xE0 && v == 0x40 * (f[0] as int - 0xC0) + Low(f, 1))
      && (0x800 <= v < 0x1_0000 ==>
            |f| == 3 && 0xE0 <= f[0] < 0xF0 && v == 0x1000 * (f[0] as int - 0xE0) + 0x40 * Low(f, 1) + Low(f, 2))
      && (v >= 0x1_0000 ==> |f| == 4 && 0xF0 <= f[0] < 0xF8)
      && (v >= 0x1_0000 ==>
            v == 0x4_0000 * (f[0] as int - 0xF0) + 0x1000 * Low(f, 1) + 0x40 * Low(f, 2) + Low(f, 3))
    ensures var u := Form16(v);
      if v < 0x1_0000 then u == [v]
      else |u| == 2 && 0xD800 <= u[0] < 0xDC00 && 0xDC00 <= u[1] < 0xE000
           && v == 0x1_0000 + 0x400 * (u[0] - 0xD800) + (u[1] - 0xDC00)
  {
    LowBits(v, 0, 8, 0);
    LowBits(v / 64, 0, 8, 0);
    LowBits(v / 0x1000, 0, 8, 0);
  }

  /** The six bits of a byte behind the lead byte. */
  ghost function Low(f: seq<byte>, i: nat): int
    requires i < |f|
  {
    f[i] as int - 0x80
  }

  /** The sequences of five and six bytes that RFC 2279 still had: two bits or one from the lead byte, six from each
      byte behind. */
  lemma LongForms(a: nat, b: byte, c: byte, d: byte, e: byte, f: byte)
    requires a < 4
    ensures Size(0xF8 + a) == 5
    ensures var n := 64 * (64 * (64 * (64 * a + b as int % 64) + c as int % 64) + d as int % 64) + e as int % 64;
      && Number([0xF8 + a, b, c, d, e]) == n
      && (a < 2 ==> Size(0xFC + a) == 6 && Number([0xFC + a, b, c, d, e, f]) == 64 * n + f as int % 64)
  {
    MoreSnoc([b, c, d], e);
    MoreSnoc([b, c], d);
    MoreSnoc([b], c);
    MoreSnoc([], b);
    MoreSnoc([b, c, d, e], f);
    assert [b, c, d, e] == [b, c, d] + [e] && [b, c, d] == [b, c] + [d] && [b, c] == [b] + [c] && [b] == [] + [b];
    assert [b, c, d, e, f] == [b, c, d, e] + [f];
    assert [0xF8 + a, b, c, d, e][1..] == [b, c, d, e];
    assert a < 2 ==> [0xFC + a, b, c, d, e, f][1..] == [b, c, d, e, f];
  }

  lemma {:induction false} MoreSnoc(p: seq<byte>, x: byte)
    ensures forall v: nat :: More(v, p + [x]) == 64 * More(v, p) + x as int % 64
    decreases |p|
  {
    forall v: nat ensures More(v, p + [x]) == 64 * More(v, p) + x as int % 64 {
      if p == [] {
        assert p + [x] == [x] && [x][1..] == [];
      } else {
        assert (p + [x])[1..] == p[1..] + [x];
        MoreSnoc(p[1..], x);
      }
    }
  }

  lemma FormIs16(v: nat)
    requires Scalar(v)
    ensures Units(Form8(v)) == Form16(v)
  {
    hide Number, Tail, Size;
    FormIsRead(v);
  }

  /** One character in front of a text. */
  lemma ReadOne(v: nat, s: seq<byte>, length: nat, n8: nat, nu: nat, wide: bool)
    requires Scalar(v) && Readable(s, length, |Form8(v)|)
    ensures var t, n, u := Form8(v) + s, |Form8(v)|, UnitsOf(Form8(v), wide);
      && Readable(t, n + length, n8)
      && Out(t, n + length, n8, nu, wide) == Written(u) + Out(s, length, n, |u|, wide)
  {
    FormIsRead(v);
    hide Form8, Number, Units;
    var t, n := Form8(v) + s, |Form8(v)|;
    assert t[0] == Form8(v)[0] && t[n..] == s && t[..n] == Form8(v);
  }

  /** For every text the UTF-16 units are its standard form, and the UTF-32 units its characters; there are never
      more units than bytes. The turn before the text does not matter. */
  lemma {:induction false} TextConverts(vs: seq<nat>, n8: nat, nu: nat)
    requires Scalars(vs)
    ensures var s := Text8(vs);
      && Readable(s, |s|, n8)
      && Out(s, |s|, n8, nu, false) == Written(Text16(vs)) && Out(s, |s|, n8, nu, true) == Written(vs)
      && |Text16(vs)| <= |s| && |vs| <= |s|
    decreases |vs|
  {
    hide Form8, Form16, Number, Units, Readable, Out;
    ReadEnd([], 0, n8, nu);
    if vs != [] {
      var v, s := vs[0], Text8(vs[1..]);
      TextConverts(vs[1..], |Form8(v)|, |UnitsOf(Form8(v), false)|);
      TextConverts(vs[1..], |Form8(v)|, 1);
      ReadOne(v, s, |s|, n8, nu, false);
      ReadOne(v, s, |s|, n8, nu, true);
      FormIsRead(v);
      FormIs16(v);
      Shorter(v);
      assert vs == [v] + vs[1..];
    }
  }

  lemma Shorter(v: nat)
    requires Scalar(v)
    ensures |Form16(v)| <= |Form8(v)|
  {
  }

  // ----- the conversions

  function StrLen(s: seq<byte>): nat {
    if s == [] || s[0] == 0 then 0 else 1 + StrLen(s[1..])
  }

  /** How many bytes the call looks at: a negative length asks for all up to the zero byte. */
  function Span(s: seq<byte>, length: int): nat { if length < 0 then StrLen(s) else length }

  /** One turn: the bytes it takes, the units the next turn may repeat, and the place behind those put out. */
  method Turn(s: seq<byte>, ghost left: int, n8: nat, nu: nat, out: array<nat>, at: nat, wide: bool,
              ghost was: seq<nat>, ghost done: seq<Option<nat>>)
    returns (n: nat, m: nat, len: nat, ghost now: seq<Option<nat>>)
    requires left > 0 && Readable(s, left, n8) && s != [] && s[0] != 0
    requires at == |done| && out.Length == |was| && |done + Out(s, left, n8, nu, wide)| < out.Length
    requires Stored(out[..], was, done) && out[at..] == was[at..]
    modifies out
    ensures n > 0 && Readable(Behind(s, n), left - n, n)
    ensures now + Out(Behind(s, n), left - n, n, m, wide) == done + Out(s, left, n8, nu, wide)
    ensures len == |now| <= out.Length && Stored(out[..], was, now) && out[len..] == was[len..]
  {
    hide Units, UnitsOf, Number, Readable, Out, Continues, Size, Stored, Skipped, Written, Behind;
    ReadNext(s, left, n8, nu, wide);
    var c := s[0];
    n, m, len, now := n8, nu, at, done;
    if Continues(c) {
      n := 1;
    } else {
      if c < 0xFE {
        n := Size(c);
        var u := UnitsOf(s[..n], wide);
        now := done + Written(u);
        ghost var before := out[..];
        m := PutUnits(out, at, u);
        StoredWritten(out[..], before, was, done, u);
        Assoc(done, Written(u), Out(Behind(s, n), left - n, n, m, wide));
      } else {
        now := done + Skipped(nu);
        StoredSkipped(out[..], was, done, nu);
        Assoc(done, Skipped(nu), Out(Behind(s, n), left - n, n, m, wide));
      }
      len := len + m;
    }
  }

  /** The loop that both conversions share: their units differ. */
  method Convert(utf8: seq<byte>, length: int, out: array<nat>, wide: bool) returns (len: nat)
    requires Readable(utf8, Span(utf8, length), 0) && |Out(utf8, Span(utf8, length), 0, 0, wide)| < out.Length
    modifies out
    ensures len == |Out(utf8, Span(utf8, length), 0, 0, wide)| && out[len] == 0
    ensures Stored(out[..len], old(out[..len]), Out(utf8, Span(utf8, length), 0, 0, wide))
  {
    hide Units, UnitsOf, Number, Readable, Out, Continues, Size, Span, Stored, Skipped, Written;
    var s, left: int := utf8, Span(utf8, length);
    var n8, nu := 0, 0;
    ghost var was, all, done := out[..], Out(utf8, left, 0, 0, wide), [];
    StoredNone(was);
    len := 0;
    assert done + all == all;
    while left > 0
      invariant Readable(s, left, n8) && len == |done| && out.Length == |was|
      invariant done + Out(s, left, n8, nu, wide) == all
      invariant Stored(out[..], was, done) && out[len..] == was[len..]
      decreases left
    {
      ReadNext(s, left, n8, nu, wide);
      if s[0] == 0x00 {
        break;
      }
      n8, nu, len, done := Turn(s, left, n8, nu, out, len, wide, was, done);
      s, left := Behind(s, n8), left - n8;
    }
    ReadEnd(s, left, n8, nu);
    StoredFront(out[..], was, done);
    assert done + [] == done == all;
    assert out[..][..len] == out[..len] && was[..len] == old(out[..len]);
    ghost var front := out[..len];
    out[len] := 0;
    assert out[..len] == front;
  }

  method PutUnits(out: array<nat>, at: nat, u: seq<nat>) returns (n: nat)
    requires 1 <= |u| <= 2 && at + |u| <= out.Length
    modifies out
    ensures n == |u| && out[..] == old(out[..at]) + u + old(out[at + n..])
  {
    out[at] := u[0];
    if |u| == 2 {
      out[at + 1] := u[1];
    }
    n := |u|;
  }

  lemma StoredNone(was: seq<nat>)
    ensures Stored(was, was, [])
  {
  }

  lemma StoredWritten(now: seq<nat>, before: seq<nat>, was: seq<nat>, done: seq<Option<nat>>, u: seq<nat>)
    requires Stored(before, was, done) && |done| + |u| <= |before|
    requires now == before[..|done|] + u + before[|done| + |u|..] && before[|done|..] == was[|done|..]
    ensures Stored(now, was, done + Written(u)) && now[|done| + |u|..] == was[|done| + |u|..]
  {
    assert was[|done| + |u|..] == was[|done|..][|u|..];
  }

  lemma StoredSkipped(now: seq<nat>, was: seq<nat>, done: seq<Option<nat>>, n: nat)
    requires Stored(now, was, done) && |done| + n <= |now| && now[|done|..] == was[|done|..]
    ensures Stored(now, was, done + Skipped(n)) && now[|done| + n..] == was[|done| + n..]
  {
    assert was[|done| + n..] == was[|done|..][n..];
    forall i | |done| <= i < |done| + n ensures now[i] == was[i] { assert now[|done|..][i - |done|] == now[i]; }
  }

  lemma StoredFront(now: seq<nat>, was: seq<nat>, done: seq<Option<nat>>)
    requires Stored(now, was, done)
    ensures Stored(now[..|done|], was[..|done|], done)
  {
  }

  /** XPR_UTF8_UTF16 */
  method ToUtf16(utf8: seq<byte>, length: int, utf16: array<nat>) returns (u16len: nat)
    requires Readable(utf8, Span(utf8, length), 0) && |Out(utf8, Span(utf8, length), 0, 0, false)| < utf16.Length
    modifies utf16
    ensures u16len == |Out(utf8, Span(utf8, length), 0, 0, false)| && utf16[u16len] == 0
    ensures Stored(utf16[..u16len], old(utf16[..u16len]), Out(utf8, Span(utf8, length), 0, 0, false))
  {
    hide *;
    u16len := Convert(utf8, length, utf16, false);
  }

  /** XPR_UTF8_UTF32 */
  method ToUtf32(utf8: seq<byte>, length: int, utf32: array<nat>) returns (u32len: nat)
    requires Readable(utf8, Span(utf8, length), 0) && |Out(utf8, Span(utf8, length), 0, 0, true)| < utf32.Length
    modifies utf32
    ensures u32len == |Out(utf8, Span(utf8, length), 0, 0, true)| && utf32[u32len] == 0
    ensures Stored(utf32[..u32len], old(utf32[..u32len]), Out(utf8, Span(utf8, length), 0, 0, true))
  {
    hide *;
    u32len := Convert(utf8, length, utf32, true);
  }

  /** One turn. */
  lemma ReadNext(s: seq<byte>, left: int, n8: nat, nu: nat, wide: bool)
    requires left > 0 && Readable(s, left, n8)
    ensures s != []
    ensures s[0] >= 0xFE ==>
      && n8 > 0 && !Continues(s[0]) && Readable(Behind(s, n8), left - n8, n8)
      && Out(s, left, n8, nu, wide) == Skipped(nu) + Out(Behind(s, n8), left - n8, n8, nu, wide)
    ensures 0 < s[0] < 0xFE ==>
      && Size(s[0]) <= |s| && Behind(s, Size(s[0])) == s[Size(s[0])..]
      && Readable(s[Size(s[0])..], left - Size(s[0]), Size(s[0]))
    ensures 0 < s[0] < 0xFE && !Continues(s[0]) ==>
      var n := Size(s[0]);
      var u := UnitsOf(s[..n], wide);
      Out(s, left, n8, nu, wide) == Written(u) + Out(s[n..], left - n, n, |u|, wide)
    ensures Continues(s[0]) ==> Size(s[0]) == 1 && Out(s, left, n8, nu, wide) == Out(s[1..], left - 1, 1, nu, wide)
  {
    hide UnitsOf, Written, Skipped;
  }

  lemma ReadEnd(s: seq<byte>, left: int, n8: nat, nu: nat)
    requires left > 0 ==> s != [] && s[0] == 0
    ensures Readable(s, left, n8) && Out(s, left, n8, nu, false) == [] && Out(s, left, n8, nu, true) == []
  {
  }

  // ----- counting characters

  /** The bytes that are no continuation, up to the first zero. */
  ghost function Leads(s: seq<byte>): nat {
    if s == [] || s[0] == 0 then 0 else (if Continues(s[0]) then 0 else 1) + Leads(s[1..])
  }

  /** XPR_UTF8_GetChars: without a positive length, all up to the zero byte. */
  method GetChars(utf8: seq<byte>, length: int) returns (chars: nat)
    requires length <= |utf8| && (length <= 0 ==> 0 in utf8)
    ensures chars == Leads(if length > 0 then utf8[..length] else utf8)
  {
    ghost var t := if length > 0 then utf8[..length] else utf8;
    assert t[0..] == t;
    var i := 0;
    chars := 0;
    while (length > 0 ==> i < length) && utf8[i] != 0
      invariant i <= |t| && chars + Leads(t[i..]) == Leads(t)
      invariant length <= 0 ==> 0 in utf8[i..]
      decreases |t| - i
    {
      assert t[i] == utf8[i] && t[i..][1..] == t[i + 1..];
      assert length <= 0 ==> utf8[i..] == [utf8[i]] + utf8[i + 1..];
      if !Continues(utf8[i]) {
        chars := chars + 1;
      }
      i := i + 1;
    }
  }

  /** It is the number of characters, for every text. */
  lemma {:induction false} CharsOfText(vs: seq<nat>, s: seq<byte>)
    requires Scalars(vs) && (s != [] ==> s[0] == 0)
    ensures Leads(Text8(vs) + s) == |vs|
  {
    if vs == [] {
      assert [] + s == s;
    } else {
      CharsOfText(vs[1..], s);
      LeadsOfForm(vs[0], Text8(vs[1..]) + s);
      Assoc(Form8(vs[0]), Text8(vs[1..]), s);
    }
  }

  lemma LeadsOfForm(v: nat, t: seq<byte>)
    requires Scalar(v)
    ensures Leads(Form8(v) + t) == 1 + Leads(t)
  {
    var f := Form8(v);
    FormIsRead(v);
    assert forall i :: 1 <= i < |f| ==> Continues(f[i]);
    hide Form8, Number, Continues;
    LeadsSkip(f[1..], t);
    assert (f + t)[1..] == f[1..] + t;
  }

  lemma {:induction false} LeadsSkip(f: seq<byte>, t: seq<byte>)
    requires forall c :: c in f ==> Continues(c)
    ensures Leads(f + t) == Leads(t)
  {
    if f == [] {
      assert f + t == t;
    } else {
      assert (f + t)[1..] == f[1..] + t && (f + t)[0] == f[0];
      assert f[0] in f && forall c :: c in f[1..] ==> c in f;
      LeadsSkip(f[1..], t);
    }
  }

  // ----- where the loop fails

  /** Where the loop stands after some turns: its read position and the step it took last. The bytes 0xFE and
      0xFF meet none of the tests, so the step is the one of the turn before. */
  datatype Point = Point(at: nat, n8: nat)

  ghost predicate Stops(s: seq<byte>, q: Point) { q.at >= |s| || s[q.at] == 0 }

  ghost function Stands(s: seq<byte>, k: nat): Point {
    if k == 0 then Point(0, 0)
    else
      var q := Stands(s, k - 1);
      if Stops(s, q) then q
      else
        var n := if s[q.at] >= 0xFE then q.n8 else Size(s[q.at]);
        Point(q.at + n, n)
  }

  /** The loop ends for exactly the inputs that do not start with 0xFE or 0xFF. */
  lemma LoopEndsExactly(s: seq<byte>)
    ensures (exists k :: Stops(s, Stands(s, k))) <==> (s == [] || s[0] < 0xFE)
  {
    if s == [] || s[0] < 0xFE {
      LoopMoves(s, |s|);
    } else {
      forall k ensures !Stops(s, Stands(s, k)) { LoopStands(s, k); }
    }
  }

  lemma {:induction false} LoopMoves(s: seq<byte>, k: nat)
    requires s == [] || s[0] < 0xFE
    ensures var q := Stands(s, k); Stops(s, q) || (q.at >= k && (k > 0 ==> q.n8 > 0))
  {
    if k > 0 { LoopMoves(s, k - 1); }
  }

  lemma {:induction false} LoopStands(s: seq<byte>, k: nat)
    requires s != [] && s[0] >= 0xFE
    ensures Stands(s, k) == Point(0, 0)
  {
    if k > 0 { LoopStands(s, k - 1); }
  }

  // ----- how much room the units need

  /** Some turn repeats two units over a step of one byte: a byte 0xFE or 0xFF behind a lone continuation byte
      behind a long sequence. */
  ghost predicate Gains(s: seq<byte>, left: int, n8: nat, nu: nat)
    requires Readable(s, left, n8)
    decreases left
  {
    left > 0 && s[0] != 0 &&
    if s[0] >= 0xFE then nu > n8 || Gains(Behind(s, n8), left - n8, n8, nu)
    else
      var n := Size(s[0]);
      Gains(s[n..], left - n, n, if Continues(s[0]) then nu else if n < 4 then 1 else 2)
  }

  /** Only turns of one byte and one unit, and then one byte of a sequence of four or more that the length cuts off. */
  ghost predicate CutShort(s: seq<byte>, length: nat)
    requires length <= |s|
  {
    length > 0 && 0xF0 <= s[length - 1] < 0xFE && forall i :: 0 <= i < length - 1 ==> 0 < s[i] < 0x80 || s[i] >= 0xFE
  }

  /** For all inputs: 32-bit units never need more places than there are bytes, 16-bit units never more than twice
      as many, and one place more than bytes at most when no turn gains. */
  lemma {:induction false} RoomNeeded(s: seq<byte>, left: int, n8: nat, nu: nat)
    requires Readable(s, left, n8) && nu <= 2
    ensures left > 0 ==> |Out(s, left, n8, nu, false)| <= 2 * left
    ensures left > 0 && !Gains(s, left, n8, nu) ==> |Out(s, left, n8, nu, false)| <= left + 1
    ensures left <= 0 ==> Out(s, left, n8, nu, false) == []
    decreases left
  {
    if left <= 0 || s[0] == 0 {
      ReadEnd(s, left, n8, nu);
    } else {
      var q, n, m := NextTurn(s, left, n8, nu);
      RoomNeeded(q, left - n, n, m);
    }
  }

  /** A turn in numbers: the bytes it takes, the units it repeats next, and those it puts out. */
  lemma NextTurn(s: seq<byte>, left: int, n8: nat, nu: nat) returns (q: seq<byte>, n: nat, m: nat)
    requires left > 0 && Readable(s, left, n8) && s[0] != 0 && nu <= 2
    ensures n > 0 && q == Behind(s, n) && Readable(q, left - n, n) && m <= 2
    ensures n == if s[0] >= 0xFE then n8 else Size(s[0])
    ensures m == if s[0] >= 0xFE || Continues(s[0]) then nu else if n < 4 then 1 else 2
    ensures |Out(s, left, n8, nu, false)| == (if Continues(s[0]) then 0 else m) + |Out(q, left - n, n, m, false)|
    ensures !Gains(s, left, n8, nu) ==> !Gains(q, left - n, n, m) && (s[0] >= 0xFE ==> m <= n)
  {
    ReadNext(s, left, n8, nu, false);
    n := if s[0] >= 0xFE then n8 else Size(s[0]);
    q := Behind(s, n);
    m := if s[0] >= 0xFE || Continues(s[0]) then nu else if n < 4 then 1 else 2;
  }

  lemma {:induction false} WideRoomNeeded(s: seq<byte>, left: int, n8: nat, nu: nat)
    requires Readable(s, left, n8) && nu <= 1
    ensures |Out(s, left, n8, nu, true)| <= if left > 0 then left else 0
    decreases left
  {
    if left <= 0 || s[0] == 0 {
      ReadEnd(s, left, n8, nu);
    } else {
      ReadNext(s, left, n8, nu, true);
      hide Out, Number;
      var n := if s[0] >= 0xFE then n8 else Size(s[0]);
      WideRoomNeeded(Behind(s, n), left - n, n, if s[0] >= 0xFE || Continues(s[0]) then nu else 1);
    }
  }

  /** The buffer that XPR_UTF8_UTF16 allocates is one unit longer than the length. Unless a turn gains, it holds all
      units and the zero behind them for exactly the inputs that are not cut short. */
  lemma BufferHoldsExactly(s: seq<byte>, length: nat)
    requires length <= |s| && Readable(s, length, 0)
    ensures !Gains(s, length, 0, 0) ==> (|Out(s, length, 0, 0, false)| <= length <==> !CutShort(s, length))
  {
    if !Gains(s, length, 0, 0) { HoldsFrom(s, length, 0, 0); }
  }

  lemma {:induction false} HoldsFrom(s: seq<byte>, left: nat, n8: nat, nu: nat)
    requires left <= |s| && Readable(s, left, n8) && !Gains(s, left, n8, nu) && n8 == nu <= 1
    ensures |Out(s, left, n8, nu, false)| <= left <==> !CutShort(s, left)
    decreases left
  {
    hide Out, Gains, Readable, CutShort, Number, Units;
    CutStep(s, left);
    if left <= 0 || s[0] == 0 {
      ReadEnd(s, left, n8, nu);
    } else {
      var q, n, m := NextTurn(s, left, n8, nu);
      if n == m == 1 && !Continues(s[0]) {
        HoldsFrom(q, left - 1, 1, 1);
        CutStep(q, left - 1);
      } else {
        RoomNeeded(q, left - n, n, m);
      }
    }
  }

  lemma CutStep(s: seq<byte>, length: nat)
    requires length <= |s|
    ensures length == 0 ==> !CutShort(s, length)
    ensures length == 1 ==> (CutShort(s, length) <==> 0xF0 <= s[0] < 0xFE)
    ensures length > 1 ==> (CutShort(s, length) <==> (0 < s[0] < 0x80 || s[0] >= 0xFE) && CutShort(s[1..], length - 1))
  {
    assert forall i :: 0 <= i < length - 1 ==> s[1..][i] == s[i + 1];
    assert forall i :: 0 < i < length ==> s[i] == s[1..][i - 1];
  }

  /** Turns that gain: a sequence of four bytes, a lone continuation byte, and k times 0xFF put out 2 * k + 2 units for
      k + 5 bytes. From four on that is more than the allocated buffer takes. */
  lemma StaleUnitsOverrun(k: nat)
    ensures var s := [0xF0, 0x90, 0x80, 0x80, 0x80] + Copies(0xFF, k);
      && Readable(s, k + 5, 0) && |Out(s, k + 5, 0, 0, false)| == 2 * k + 2
      && (|Out(s, k + 5, 0, 0, false)| <= k + 5 <==> k < 4)
  {
    var t := Copies(0xFF, k);
    var s := [0xF0, 0x90, 0x80, 0x80, 0x80] + t;
    StaleTail(k);
    assert s[4..] == [0x80] + t && ([0x80] + t)[1..] == t;
    assert Readable([0x80] + t, k + 1, 4) && |Out([0x80] + t, k + 1, 4, 2, false)| == 2 * k;
    assert Size(0xF0) == 4 && |Units(s[..4])| == 2;
  }

  lemma {:induction false} StaleTail(k: nat)
    ensures Readable(Copies(0xFF, k), k, 1) && |Out(Copies(0xFF, k), k, 1, 2, false)| == 2 * k
  {
    if k > 0 {
      StaleTail(k - 1);
      assert Copies(0xFF, k)[1..] == Copies(0xFF, k - 1);
    }
  }
}
