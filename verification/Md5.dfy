/** Buffering, counting and padding of src/xpr_md5.c. The rounds of MD5Transform are a parameter. */
module Md5 {
  import opened BlockHash
  import opened Common

  type State = s: seq<Word> | |s| == 4 witness [0, 0, 0, 0]

  const INIT: State := [0x67452301, 0xefcdab89, 0x98badcfe, 0x10325476]

  /** The length field: the number of bits modulo 2^64, low word first, little-endian. */
  ghost function LengthBytes(n: nat): (b: seq<byte>)
    ensures |b| == 8
  {
    LittleEndian(Low(n)) + LittleEndian(High(n))
  }

  /** Sections 3.1 to 3.5 of RFC 1321: fold the transform over the padded message. */
  ghost function Digest(f: (State, seq<byte>) -> State, m: seq<byte>): (d: seq<byte>)
    ensures |d| == 16
  {
    LittleEndianAll(Fold(f, INIT, Padded(m, LengthBytes(|m|))))
  }

  /** The eight bytes spell the number of bits. */
  lemma LengthReads(n: nat)
    ensures LittleNumber(LengthBytes(n)) == 8 * n % 0x1_0000_0000_0000_0000
  {
    CountNumber(n);
    WordNumbers(High(n));
    LittleNumberJoins(Low(n), LittleEndian(High(n)));
  }

  /** The digest word by word: pad the message with its number of bits, start from the standard's words, transform
      block by block; then each four bytes spell a word of the last state. */
  lemma DigestMeans(f: (State, seq<byte>) -> State, m: seq<byte>, p: seq<byte>, states: seq<State>, i: nat)
    requires IsPadded(p, m) && LittleNumber(p[|p| - 8..]) == 8 * |m| % 0x1_0000_0000_0000_0000
    requires Chained(f, [0x67452301, 0xefcdab89, 0x98badcfe, 0x10325476], p, states)
    requires i < 4
    ensures LittleNumber(Digest(f, m)[4 * i..4 * i + 4]) == states[|states| - 1][i]
  {
    LengthReads(|m|);
    LittleNumberSays(p[|p| - 8..], LengthBytes(|m|));
    PaddedIs(p, m, LengthBytes(|m|));
    FoldIsLast(f, INIT, p, states);
    var s := states[|states| - 1];
    forall k | 0 <= k < 4 ensures Digest(f, m)[4 * i + k] == LittleEndian(s[i])[k] { LittleEndianAt(s, 4 * i + k); }
    assert Digest(f, m)[4 * i..4 * i + 4] == LittleEndian(s[i]);
    WordNumbers(s[i]);
  }

  const PADDING: seq<byte> := [0x80] + seq(63, i => 0)

  // ----- what the 32-bit variables of XPR_MD5Update cut off

  /** The loop index starts at `partLen` and should stop at the last multiple of 64 behind it. */
  ghost function Stop(partLen: nat, len: nat): (i: nat)
    requires partLen <= len
    ensures i <= len < i + 64
  {
    partLen + (len - partLen) / 64 * 64
  }

  /** The index of the loop's k-th turn, and its test, in 32 bits. */
  ghost function IndexAt(partLen: nat, k: nat): Word { (partLen + 64 * k) % W32 }

  ghost predicate GoesOn(partLen: nat, k: nat, len: nat) { (IndexAt(partLen, k) + 63) % W32 < len }

  /** Which lengths the call can take when `index` bytes are buffered: those that do not fill the buffer, and
      those whose last whole block starts at 2^32 - 64 or before. */
  ghost predicate Takes(index: nat, len: nat)
    requires index < 64
  {
    len < 64 - index || Stop(64 - index, len) <= W32 - 64
  }

  /** The loop ends exactly for the lengths the call can take; for every other length it goes round for ever. */
  lemma LoopEndsExactly(index: nat, partLen: nat, len: nat)
    requires index < 64 && partLen == 64 - index && partLen <= len
    ensures (exists k :: !GoesOn(partLen, k, len)) <==> Takes(index, len)
  {
    var s, n := Stop(partLen, len), (len - partLen) / 64;
    if Takes(index, len) {
      assert IndexAt(partLen, n) == s;
      assert !GoesOn(partLen, n, len);
    }
    forall k: nat | !GoesOn(partLen, k, len) ensures Takes(index, len) { EndsInRange(partLen, len, k); }
  }

  lemma EndsInRange(partLen: nat, len: nat, k: nat)
    requires 0 < partLen <= 64 && partLen <= len && !GoesOn(partLen, k, len)
    ensures Stop(partLen, len) <= W32 - 64
  {
    SameResidue(partLen, len, k);
    EndOfBlock(IndexAt(partLen, k));
  }

  lemma EndOfBlock(i: Word)
    ensures (i + 63) % W32 == if i + 63 < W32 then i + 63 else i + 63 - W32
  {
  }

  /** All indices, and the stop, leave the same rest modulo 64, for 2^32 is a multiple of 64. */
  lemma SameResidue(partLen: nat, len: nat, k: nat)
    requires partLen <= len
    ensures IndexAt(partLen, k) % 64 == partLen % 64 && Stop(partLen, len) % 64 == partLen % 64
  {
    var x := partLen + 64 * k;
    var q := x / W32;
    assert x == W32 * q + IndexAt(partLen, k);
    Mod64(k, partLen);
    assert W32 * q == 64 * (0x400_0000 * q);
    Mod64(0x400_0000 * q, IndexAt(partLen, k));
    Mod64((len - partLen) / 64, partLen);
  }

  /** Four gigabytes in one call, with an empty buffer: the loop does not end. */
  lemma FourGigabytesNeverEnd()
    ensures !Takes(0, W32) && forall k :: GoesOn(64, k, W32)
  {
    LoopEndsExactly(0, 64, W32);
  }

  /** The length is cut to 32 bits before it is counted: the counter is right for one call exactly when
      what is cut off is a multiple of 2^61 bytes. */
  lemma CounterExact(n: nat, len: nat)
    ensures Low(n + len % W32) == Low(n + len)
    ensures High(n + len % W32) == High(n + len) <==> len / W32 % 0x2000_0000 == 0
  {
    var h := len / W32;
    var a := 8 * (n + len % W32);
    assert len == W32 * h + len % W32;
    assert 8 * (n + len) == a + W32 * (8 * h);
    ModAdds(a, 8 * h);
    DivIs(a + W32 * (8 * h), a / W32 + 8 * h, a % W32);
    ModEqual(a / W32, 8 * h);
    assert 8 * h % W32 == 8 * (h % 0x2000_0000) by { EightTimes(h); }
  }

  lemma ModEqual(x: nat, y: nat)
    ensures x % W32 == (x + y) % W32 <==> y % W32 == 0
  {
    var q := x / W32;
    if y % W32 == 0 {
      ModAdds(x, y / W32);
    } else {
      ModAdds(x % W32 + y % W32, q + y / W32);
      assert x + y == x % W32 + y % W32 + W32 * (q + y / W32);
    }
  }

  lemma EightTimes(h: nat)
    ensures 8 * h % W32 == 8 * (h % 0x2000_0000)
  {
    DivIs(8 * h, h / 0x2000_0000, 8 * (h % 0x2000_0000));
  }

  class Context {
    const transform: (State, seq<byte>) -> State
    var state: State
    var count0: Word
    var count1: Word
    const buffer: array<byte>
    ghost var msg: seq<byte>

    /** The context stands for the message so far, however it came in. */
    ghost predicate Valid()
      reads this, buffer
    {
      && buffer.Length == 64
      && state == Fold(transform, INIT, msg)
      && count0 == Low(|msg|) && count1 == High(|msg|)
      && buffer[..|msg| % 64] == Rest(msg)
    }

    constructor (transform: (State, seq<byte>) -> State)
      ensures Valid() && msg == [] && this.transform == transform && fresh(buffer)
    {
      this.transform := transform;
      state := INIT;
      count0, count1 := 0, 0;
      buffer := new byte[64];
      msg := [];
    }

    /** The 64-bit count, of the length cut to 32 bits. */
    method Count(len: nat)
      requires count0 == Low(|msg|) && count1 == High(|msg|)
      modifies `count0, `count1
      ensures count0 == Low(|msg| + len % W32) && count1 == High(|msg| + len % W32)
      ensures count0 == Low(|msg| + len) && (count1 == High(|msg| + len) <==> len / W32 % 0x2000_0000 == 0)
    {
      CounterExact(|msg|, len);
      var n := len % W32;
      CounterSteps(|msg|, n);
      count0 := (count0 + 8 * n % W32) % W32;
      if count0 < 8 * n % W32 {
        count1 := (count1 + 1) % W32;
      }
      count1 := (count1 + n / 0x2000_0000) % W32;
    }

    /** XPR_MD5Update: the message grows by the data, for exactly the lengths at which the call ends. */
    method Update(data: seq<byte>)
      requires Valid() && Takes(|msg| % 64, |data|)
      modifies this, buffer
      ensures Valid() && msg == old(msg) + data
    {
      PositionIs(|msg|);
      var index := count0 / 8 % 64;
      Count(|data|);
      ShortLength(index, |data|);
      state := Absorb32(transform, state, buffer, index, data);
      FoldAppend(transform, INIT, msg, data);
      msg := msg + data;
    }

    /** XPR_MD5Final: the digest of the message, and the context wiped. */
    method Final(digest: array<byte>)
      requires Valid() && digest.Length == 16 && digest != buffer
      modifies this, buffer, digest
      ensures digest[..] == Digest(transform, old(msg))
      ensures state == [0, 0, 0, 0] && count0 == 0 && count1 == 0 && buffer[..] == Copies(0, 64)
    {
      ghost var m := msg;
      var bits := LittleEndian(count0) + LittleEndian(count1);
      PositionIs(|msg|);
      var index := count0 / 8 % 64;
      var padLen := if index < 56 then 56 - index else 120 - index;
      PaddingBytes(|m|, padLen);
      Update(PADDING[..padLen]);
      PaddingIs(m, msg, bits);
      Update(bits);
      WriteState(digest);
      state, count0, count1 := [0, 0, 0, 0], 0, 0;
      forall k | 0 <= k < 64 { buffer[k] := 0; }
    }

    /** Encode: four bytes a word, low byte first. */
    method WriteState(digest: array<byte>)
      requires digest.Length == 16
      modifies digest
      ensures digest[..] == LittleEndianAll(state)
    {
      var i, j := 0, 0;
      while j < 16
        invariant 0 <= i <= 4 && j == 4 * i
        invariant forall k :: 0 <= k < j ==> digest[k] == LittleEndianAll(state)[k]
      {
        forall k | 0 <= k < 4 ensures LittleEndianAll(state)[j + k] == LittleEndian(state[i])[k] {
          LittleEndianAt(state, j + k);
        }
        var w := LittleEndian(state[i]);
        digest[j], digest[j + 1], digest[j + 2], digest[j + 3] := w[0], w[1], w[2], w[3];
        i, j := i + 1, j + 4;
      }
    }
  }

  /** The two words after the steps of Count: as CounterAdds, with the carry seen against the other summand. */
  lemma CounterSteps(m: nat, n: nat)
    ensures var low := (Low(m) + 8 * n % W32) % W32;
      && low == Low(m + n)
      && ((if low < 8 * n % W32 then (High(m) + 1) % W32 else High(m)) + n / 0x2000_0000) % W32 == High(m + n)
  {
    CounterAdds(m, n);
    CarryOther(Low(m), 8 * n % W32);
    ModAdds(Low(m) + 8 * n % W32, 8 * n / W32);
    assert (Low(m) + 8 * n) % W32 == (Low(m) + 8 * n % W32) % W32;
  }

  lemma ShortLength(index: nat, len: nat)
    requires index < 64 && Takes(index, len)
    ensures len / W32 % 0x2000_0000 == 0
  {
    assert len < W32;
  }

  /** How XPR_MD5Update moves data into the state and the buffer, with a 32-bit index. */
  method Absorb32(f: (State, seq<byte>) -> State, s: State, buffer: array<byte>, index: nat, data: seq<byte>)
    returns (state: State)
    requires index < 64 == buffer.Length && Takes(index, |data|)
    modifies buffer
    ensures state == Fold(f, s, old(buffer[..index]) + data)
    ensures var r := Rest(old(buffer[..index]) + data); buffer[..|r|] == r
  {
    var partLen := 64 - index;
    if |data| >= partLen {
      var i;
      state, i := Fill32(f, s, buffer, index, data);
      Store(buffer, 0, data[i..]);
    } else {
      ShortRest(f, s, buffer[..index] + data);
      state := s;
      Store(buffer, index, data);
    }
  }

  method Fill32(f: (State, seq<byte>) -> State, s: State, buffer: array<byte>, index: nat, data: seq<byte>)
    returns (state: State, i: Word)
    requires index < 64 == buffer.Length && 64 - index <= |data| && Takes(index, |data|)
    modifies buffer
    ensures i <= |data| < i + 64
    ensures state == Fold(f, s, old(buffer[..index]) + data)
    ensures data[i..] == Rest(old(buffer[..index]) + data)
  {
    ghost var rest := buffer[..index];
    i := 64 - index;
    forall k | 0 <= k < i { buffer[index + k] := data[k]; }
    ghost var block := rest + data[..i];
    assert buffer[..] == block;
    RestParts(rest, data, i);
    FoldBlock(f, s, block, data[i..]);
    state := f(s, buffer[..]);
    ghost var left := (|data| - i) / 64;
    while (i + 63) % W32 < |data|
      invariant i + 64 * left == Stop(64 - index, |data|) && left >= 0
      invariant Fold(f, state, data[i..]) == Fold(f, s, rest + data)
      invariant Rest(data[i..]) == Rest(rest + data)
      decreases left
    {
      FoldFrom(f, state, data, i);
      state := f(state, data[i..i + 64]);
      i := (i + 64) % W32;
      left := left - 1;
    }
    ShortRest(f, state, data[i..]);
  }

  /** The carry shows against either summand. */
  lemma CarryOther(a: Word, b: Word)
    ensures (a + b) % W32 < b <==> (a + b) % W32 < a
  {
  }

  lemma PaddingBytes(n: nat, padLen: nat)
    requires padLen == if n % 64 < 56 then 56 - n % 64 else 120 - n % 64
    ensures 0 < padLen <= 64 && PADDING[..padLen] == [0x80] + Copies(0, (120 - (n + 1) % 64) % 64)
  {
    PadLenIs(n, padLen);
    assert PADDING[..padLen] == [0x80] + Copies(0, padLen - 1);
  }

  lemma PadLenIs(n: nat, padLen: nat)
    requires padLen == if n % 64 < 56 then 56 - n % 64 else 120 - n % 64
    ensures 0 < padLen <= 64 && (120 - (n + 1) % 64) % 64 == padLen - 1
  {
  }
}
