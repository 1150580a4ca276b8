/** What the two digests of src/xpr_sha1.c and src/xpr_md5.c share: folding a transform over 64-byte
    blocks, a 64-bit count of bits kept in two words, and the padded message. */
module BlockHash {
  import opened Common

  type Word = w: int | 0 <= w < W32

  const W32 := 0x1_0000_0000

  /** The state after all whole blocks of the message. */
  ghost function Fold<S>(f: (S, seq<byte>) -> S, s: S, m: seq<byte>): S
    decreases |m|
  {
    if |m| < 64 then s else Fold(f, f(s, m[..64]), m[64..])
  }

  /** The bytes behind the last whole block. */
  ghost function Rest(m: seq<byte>): (r: seq<byte>)
    ensures |r| == |m| % 64
  {
    m[|m| - |m| % 64..]
  }

  lemma RestDrop(m: seq<byte>)
    requires |m| >= 64
    ensures Rest(m[64..]) == Rest(m)
  {
    var k := |m| - |m| % 64;
    assert m[64..][k - 64..] == m[k..];
  }

  /** Blocks taken from the front of a message leave the same tail, wherever the message is cut. */
  lemma {:induction false} FoldAppend<S>(f: (S, seq<byte>) -> S, s: S, a: seq<byte>, b: seq<byte>)
    ensures Fold(f, s, a + b) == Fold(f, Fold(f, s, a), Rest(a) + b)
    ensures Rest(a + b) == Rest(Rest(a) + b)
    decreases |a|
  {
    if |a| < 64 {
      RestAll(a);
    } else {
      Step64(a, b);
      FoldAppend(f, f(s, a[..64]), a[64..], b);
      RestDrop(a);
      RestDrop(a + b);
    }
  }

  lemma Step64(a: seq<byte>, b: seq<byte>)
    requires |a| >= 64
    ensures (a + b)[..64] == a[..64] && (a + b)[64..] == a[64..] + b
  {
  }

  /** A buffer that fills up is one more block. */
  lemma FoldBlock<S>(f: (S, seq<byte>) -> S, s: S, block: seq<byte>, b: seq<byte>)
    requires |block| == 64
    ensures Fold(f, s, block + b) == Fold(f, f(s, block), b)
    ensures Rest(block + b) == Rest(b)
  {
    assert (block + b)[..64] == block && (block + b)[64..] == b;
    RestDrop(block + b);
  }

  /** The transforms of one update: the filled buffer first, then every whole block of the data. */
  lemma {:induction false} FoldFrom<S>(f: (S, seq<byte>) -> S, s: S, d: seq<byte>, i: nat)
    requires i + 64 <= |d|
    ensures Fold(f, s, d[i..]) == Fold(f, f(s, d[i..i + 64]), d[i + 64..])
    ensures Rest(d[i..]) == Rest(d[i + 64..])
  {
    assert d[i..][..64] == d[i..i + 64] && d[i..][64..] == d[i + 64..];
    RestDrop(d[i..]);
  }

  // ----- the bit counter

  /** The 64-bit number of bits of n bytes, low word and high word. */
  ghost function Low(n: nat): Word { 8 * n % W32 }

  ghost function High(n: nat): Word { 8 * n / W32 % W32 }

  /** Adding the low word with a carry, and the high bits of the length, counts exactly modulo 2^64. */
  lemma CounterAdds(n: nat, len: nat)
    ensures var low := (Low(n) + 8 * len) % W32;
      && low == Low(n + len)
      && ((High(n) + if low < Low(n) then 1 else 0) % W32 + len / 0x2000_0000) % W32 == High(n + len)
  {
    var q, c := 8 * n / W32, Low(n);
    var h, l := len / 0x2000_0000, 8 * (len % 0x2000_0000);
    assert 8 * n == W32 * q + c && 8 * len == W32 * h + l && 0 <= l < W32;
    var low := (c + l) % W32;
    ModAdds(c + l, h);
    assert (c + 8 * len) % W32 == low;
    var carry := if c + l >= W32 then 1 else 0;
    assert c + l == W32 * carry + low;
    assert low < c <==> carry == 1;
    assert 8 * (n + len) == W32 * (q + h + carry) + low;
    DivIs(8 * (n + len), q + h + carry, low);
    ModSum(q, carry, h);
  }

  lemma ModAdds(x: int, h: int)
    ensures (x + W32 * h) % W32 == x % W32
  {
    var q := x / W32;
    assert x + W32 * h == W32 * (q + h) + x % W32;
    DivIs(x + W32 * h, q + h, x % W32);
  }

  lemma DivIs(x: int, q: int, r: int)
    requires x == W32 * q + r && 0 <= r < W32
    ensures x / W32 == q && x % W32 == r
  {
  }

  lemma ModSum(q: nat, carry: nat, h: nat)
    ensures ((q % W32 + carry) % W32 + h) % W32 == (q + h + carry) % W32
  {
    ModAdds(q % W32 + carry, q / W32);
    var y := (q + carry) % W32;
    assert (q % W32 + carry) % W32 == y;
    ModAdds(y + h, (q + carry) / W32);
  }

  // ----- padding

  /** How many zero bytes follow the 0x80: as few as make room for eight more in a whole block. */
  ghost function ZeroCount(n: nat): (k: nat)
    ensures k < 64 && (n + 1 + k + 8) % 64 == 0
  {
    (119 - n % 64) % 64
  }

  /** The message, 0x80, zeros, and the eight bytes that hold its length in bits. */
  ghost function Padded(m: seq<byte>, lengthBytes: seq<byte>): (p: seq<byte>)
    requires |lengthBytes| == 8
    ensures |p| % 64 == 0
  {
    m + [0x80] + Copies(0, ZeroCount(|m|)) + lengthBytes
  }

  // ----- bytes of words

  function BigEndian(w: Word): (b: seq<byte>)
    ensures |b| == 4
  {
    [w / 0x100_0000 % 256, w / 0x1_0000 % 256, w / 0x100 % 256, w % 256]
  }

  function LittleEndian(w: Word): (b: seq<byte>)
    ensures |b| == 4
  {
    [w % 256, w / 0x100 % 256, w / 0x1_0000 % 256, w / 0x100_0000 % 256]
  }

  /** The bytes say the word. */
  lemma BytesSayWord(w: Word)
    ensures var b := BigEndian(w); ((b[0] as int * 256 + b[1]) * 256 + b[2]) * 256 + b[3] == w
    ensures var b := LittleEndian(w); ((b[3] as int * 256 + b[2]) * 256 + b[1]) * 256 + b[0] == w
  {
    var x, y := w / 0x100, w / 0x1_0000;
    assert w == x * 256 + w % 256 && x == y * 256 + x % 256 && y == w / 0x100_0000 * 256 + y % 256;
  }

  ghost function BigEndianAll(ws: seq<Word>): (b: seq<byte>)
    ensures |b| == 4 * |ws|
  {
    if ws == [] then [] else BigEndian(ws[0]) + BigEndianAll(ws[1..])
  }

  ghost function LittleEndianAll(ws: seq<Word>): (b: seq<byte>)
    ensures |b| == 4 * |ws|
  {
    if ws == [] then [] else LittleEndian(ws[0]) + LittleEndianAll(ws[1..])
  }

  lemma {:induction false} BigEndianAt(ws: seq<Word>, i: nat)
    requires i < 4 * |ws|
    ensures BigEndianAll(ws)[i] == BigEndian(ws[i / 4])[i % 4]
  {
    if i >= 4 { BigEndianAt(ws[1..], i - 4); }
  }

  lemma {:induction false} LittleEndianAt(ws: seq<Word>, i: nat)
    requires i < 4 * |ws|
    ensures LittleEndianAll(ws)[i] == LittleEndian(ws[i / 4])[i % 4]
  {
    if i >= 4 { LittleEndianAt(ws[1..], i - 4); }
  }

  // ----- what a digest is, word by word

  /** The number the bytes spell, first byte highest. */
  ghost function BigNumber(b: seq<byte>): nat {
    if b == [] then 0 else 256 * BigNumber(b[..|b| - 1]) + b[|b| - 1] as int
  }

  /** The number the bytes spell, last byte highest. */
  ghost function LittleNumber(b: seq<byte>): nat {
    if b == [] then 0 else b[0] as int + 256 * LittleNumber(b[1..])
  }

  lemma {:induction false} BigNumberSays(a: seq<byte>, b: seq<byte>)
    requires |a| == |b| && BigNumber(a) == BigNumber(b)
    ensures a == b
  {
    if a != [] {
      var n := |a| - 1;
      BigNumberSays(a[..n], b[..n]);
      assert a == a[..n] + [a[n]] && b == b[..n] + [b[n]];
    }
  }

  lemma {:induction false} LittleNumberSays(a: seq<byte>, b: seq<byte>)
    requires |a| == |b| && LittleNumber(a) == LittleNumber(b)
    ensures a == b
  {
    if a != [] {
      LittleNumberSays(a[1..], b[1..]);
      assert a == [a[0]] + a[1..] && b == [b[0]] + b[1..];
    }
  }

  lemma BigNumberSnoc(a: seq<byte>, x: byte)
    ensures BigNumber(a + [x]) == 256 * BigNumber(a) + x as int
  {
    assert (a + [x])[..|a|] == a;
  }

  lemma LittleNumberCons(x: byte, b: seq<byte>)
    ensures LittleNumber([x] + b) == x as int + 256 * LittleNumber(b)
  {
    assert ([x] + b)[1..] == b;
  }

  /** Four bytes more, at the low end. */
  lemma BigNumberJoins(a: seq<byte>, w: Word)
    ensures BigNumber(a + BigEndian(w)) == W32 * BigNumber(a) + w
  {
    hide BigNumber;
    var b := BigEndian(w);
    BytesSayWord(w);
    BigNumberSnoc(a, b[0]);
    BigNumberSnoc(a + [b[0]], b[1]);
    BigNumberSnoc(a + [b[0]] + [b[1]], b[2]);
    BigNumberSnoc(a + [b[0]] + [b[1]] + [b[2]], b[3]);
    assert a + b == a + [b[0]] + [b[1]] + [b[2]] + [b[3]];
  }

  lemma LittleNumberJoins(w: Word, c: seq<byte>)
    ensures LittleNumber(LittleEndian(w) + c) == w + W32 * LittleNumber(c)
  {
    hide LittleNumber;
    var b := LittleEndian(w);
    BytesSayWord(w);
    LittleNumberCons(b[3], c);
    LittleNumberCons(b[2], [b[3]] + c);
    LittleNumberCons(b[1], [b[2]] + ([b[3]] + c));
    LittleNumberCons(b[0], [b[1]] + ([b[2]] + ([b[3]] + c)));
    assert b + c == [b[0]] + ([b[1]] + ([b[2]] + ([b[3]] + c)));
  }

  lemma WordNumbers(w: Word)
    ensures BigNumber(BigEndian(w)) == w && LittleNumber(LittleEndian(w)) == w
  {
    BigNumberJoins([], w);
    LittleNumberJoins(w, []);
    assert [] + BigEndian(w) == BigEndian(w) && LittleEndian(w) + [] == LittleEndian(w);
  }

  /** The number of bits in two words. */
  lemma CountNumber(n: nat)
    ensures W32 * High(n) + Low(n) == 8 * n % 0x1_0000_0000_0000_0000
  {
    var low, q := CutWord(8 * n);
    var high, h := CutWord(q);
    assert Low(n) == low && High(n) == high;
    ModIs(8 * n, h, W32 * high + low);
  }

  lemma CutWord(x: nat) returns (low: nat, q: nat)
    ensures low == x % W32 < W32 && q == x / W32 && x == W32 * q + low
  {
    low, q := x % W32, x / W32;
  }

  lemma ModIs(x: int, h: int, r: int)
    requires x == 0x1_0000_0000_0000_0000 * h + r && 0 <= r < 0x1_0000_0000_0000_0000
    ensures x % 0x1_0000_0000_0000_0000 == r
  {
  }

  /** A padded message: the message, one bit, as few zeros as make whole blocks with eight bytes more, and those. */
  ghost predicate IsPadded(p: seq<byte>, m: seq<byte>) {
    && |p| % 64 == 0 && |m| + 9 <= |p| < |m| + 9 + 64
    && p[..|m|] == m && p[|m|] == 0x80
    && forall i :: |m| < i < |p| - 8 ==> p[i] == 0
  }

  lemma PaddedIs(p: seq<byte>, m: seq<byte>, lengthBytes: seq<byte>)
    requires IsPadded(p, m) && |lengthBytes| == 8 && p[|p| - 8..] == lengthBytes
    ensures p == Padded(m, lengthBytes)
  {
    var k := ZeroCount(|m|);
    assert |p| == |m| + 9 + k;
    assert p == p[..|m|] + [p[|m|]] + p[|m| + 1..|p| - 8] + p[|p| - 8..];
    assert p[|m| + 1..|p| - 8] == Copies(0, k);
  }

  /** The states that lead from one block to the next. */
  ghost predicate Chained<S>(f: (S, seq<byte>) -> S, s: S, p: seq<byte>, states: seq<S>) {
    && |p| % 64 == 0 && |states| == |p| / 64 + 1 && states[0] == s
    && forall i :: 0 <= i < |p| / 64 ==> states[i + 1] == f(states[i], p[64 * i..64 * i + 64])
  }

  lemma {:induction false} FoldIsLast<S>(f: (S, seq<byte>) -> S, s: S, p: seq<byte>, states: seq<S>)
    requires Chained(f, s, p, states)
    ensures Fold(f, s, p) == states[|states| - 1]
    decreases |p|
  {
    if |p| >= 64 {
      var q, rest := p[64..], states[1..];
      assert p[64 * 0..64 * 0 + 64] == p[..64];
      forall i | 0 <= i < |q| / 64 ensures rest[i + 1] == f(rest[i], q[64 * i..64 * i + 64]) {
        assert q[64 * i..64 * i + 64] == p[64 * (i + 1)..64 * (i + 1) + 64];
        assert states[i + 1 + 1] == f(states[i + 1], p[64 * (i + 1)..64 * (i + 1) + 64]);
      }
      FoldIsLast(f, states[1], q, rest);
    }
  }

  // ----- the buffer

  lemma ShortRest<S>(f: (S, seq<byte>) -> S, s: S, r: seq<byte>)
    requires |r| < 64
    ensures Fold(f, s, r) == s && Rest(r) == r
  {
    RestAll(r);
  }

  lemma RestAll(r: seq<byte>)
    requires |r| < 64
    ensures Rest(r) == r
  {
    var k := |r| - |r| % 64;
    assert k == 0;
  }

  /** What waits in the buffer and the data that follows. */
  lemma RestParts(rest: seq<byte>, data: seq<byte>, i: nat)
    requires i + |rest| == 64 && i <= |data|
    ensures rest + data == (rest + data[..i]) + data[i..]
    ensures |rest + data[..i]| == 64
  {
  }

  /** How an update moves data into the state and the buffer, of which the first j bytes are taken. */
  method Absorb<S>(f: (S, seq<byte>) -> S, s: S, buffer: array<byte>, j: nat, data: seq<byte>) returns (state: S)
    requires j < 64 == buffer.Length
    modifies buffer
    ensures state == Fold(f, s, old(buffer[..j]) + data)
    ensures var r := Rest(old(buffer[..j]) + data); buffer[..|r|] == r
  {
    if j + |data| > 63 {
      var i;
      state, i := Fill(f, s, buffer, j, data);
      Store(buffer, 0, data[i..]);
    } else {
      ShortRest(f, s, buffer[..j] + data);
      state := s;
      Store(buffer, j, data);
    }
  }

  /** Transform the filled buffer and every whole block behind it. */
  method Fill<S>(f: (S, seq<byte>) -> S, s: S, buffer: array<byte>, j: nat, data: seq<byte>) returns (state: S, i: nat)
    requires j < 64 == buffer.Length && j + |data| > 63
    modifies buffer
    ensures i <= |data| < i + 64
    ensures state == Fold(f, s, old(buffer[..j]) + data)
    ensures data[i..] == Rest(old(buffer[..j]) + data)
  {
    ghost var rest := buffer[..j];
    i := 64 - j;
    forall k | 0 <= k < i { buffer[j + k] := data[k]; }
    ghost var block := rest + data[..i];
    assert buffer[..] == block;
    RestParts(rest, data, i);
    FoldBlock(f, s, block, data[i..]);
    state := f(s, buffer[..]);
    while i + 63 < |data|
      invariant i <= |data|
      invariant Fold(f, state, data[i..]) == Fold(f, s, rest + data)
      invariant Rest(data[i..]) == Rest(rest + data)
    {
      FoldFrom(f, state, data, i);
      state := f(state, data[i..i + 64]);
      i := i + 64;
    }
    ShortRest(f, state, data[i..]);
  }

  method Store(buffer: array<byte>, j: nat, tail: seq<byte>)
    requires j + |tail| <= buffer.Length
    modifies buffer
    ensures buffer[..j + |tail|] == old(buffer[..j]) + tail
  {
    forall k | 0 <= k < |tail| { buffer[j + k] := tail[k]; }
  }

  // ----- positions and cuts

  lemma PositionIs(n: nat)
    ensures Low(n) / 8 % 64 == n % 64
  {
    var q, r := n / 0x2000_0000, n % 0x2000_0000;
    DivIs(8 * n, q, 8 * r);
    assert n == 64 * (q * 0x80_0000) + r;
    Mod64(q * 0x80_0000, r);
  }

  lemma Mod64(q: nat, r: nat)
    ensures (64 * q + r) % 64 == r % 64
  {
  }

  lemma ZerosLeft(n: nat, k: nat)
    requires k <= (120 - n % 64) % 64
    ensures (n + k) % 64 == 56 <==> k == (120 - n % 64) % 64
  {
  }

  lemma OneZero(m: seq<byte>, k: nat)
    ensures m + Copies(0, k) + [0] == m + Copies(0, k + 1)
  {
  }

  /** The 0x80, the zeros of the loop and the count are the padding. */
  lemma PaddingIs(m: seq<byte>, p: seq<byte>, count: seq<byte>)
    requires |count| == 8 && p == m + [0x80] + Copies(0, (120 - (|m| + 1) % 64) % 64)
    ensures p + count == Padded(m, count)
  {
    ZeroCountIs(|m|);
    hide ZeroCount;
  }

  lemma ZeroCountIs(n: nat)
    ensures (120 - (n + 1) % 64) % 64 == ZeroCount(n)
  {
  }

  /** Cutting the message into pieces in any two ways leads to the same digest. */
  lemma {:induction false} CutsAgree<S>(f: (S, seq<byte>) -> S, init: S, pieces: seq<seq<byte>>, s: S, m: seq<byte>)
    requires s == Fold(f, init, m)
    ensures Feed(f, s, Rest(m), pieces) == (Fold(f, init, m + Flatten(pieces)), Rest(m + Flatten(pieces)))
    decreases |pieces|
  {
    hide Fold, Rest;
    if pieces == [] {
      assert m + [] == m;
    } else {
      FoldAppend(f, init, m, pieces[0]);
      CutsAgree(f, init, pieces[1..], Fold(f, s, Rest(m) + pieces[0]), m + pieces[0]);
      assert m + pieces[0] + Flatten(pieces[1..]) == m + Flatten(pieces);
    }
  }

  /** Chaining state and buffered bytes after feeding the pieces one by one. */
  ghost function Feed<S>(f: (S, seq<byte>) -> S, s: S, rest: seq<byte>, pieces: seq<seq<byte>>): (S, seq<byte>)
    decreases |pieces|
  {
    if pieces == [] then (s, rest)
    else Feed(f, Fold(f, s, rest + pieces[0]), Rest(rest + pieces[0]), pieces[1..])
  }
}
