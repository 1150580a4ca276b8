/** Buffering, counting and padding of src/xpr_sha1.c. The rounds of XPR_SHA1Transform are a parameter. */
module Sha1 {
  import opened BlockHash
  import opened Common

  type State = s: seq<Word> | |s| == 5 witness [0, 0, 0, 0, 0]

  const INIT: State := [0x67452301, 0xEFCDAB89, 0x98BADCFE, 0x10325476, 0xC3D2E1F0]

  /** The length field: the number of bits modulo 2^64, high word first, big-endian. */
  ghost function LengthBytes(n: nat): (b: seq<byte>)
    ensures |b| == 8
  {
    BigEndian(High(n)) + BigEndian(Low(n))
  }

  /** Section 5.1.1 and 6.1 of FIPS 180-4: fold the transform over the padded message. */
  ghost function Digest(f: (State, seq<byte>) -> State, m: seq<byte>): (d: seq<byte>)
    ensures |d| == 20
  {
    BigEndianAll(Fold(f, INIT, Padded(m, LengthBytes(|m|))))
  }

  /** The eight bytes spell the number of bits. */
  lemma LengthReads(n: nat)
    ensures BigNumber(LengthBytes(n)) == 8 * n % 0x1_0000_0000_0000_0000
  {
    CountNumber(n);
    WordNumbers(High(n));
    BigNumberJoins(BigEndian(High(n)), Low(n));
  }

  /** The digest word by word: pad the message with its number of bits, start from the standard's words, transform
      block by block; then each four bytes spell a word of the last state. */
  lemma DigestMeans(f: (State, seq<byte>) -> State, m: seq<byte>, p: seq<byte>, states: seq<State>, i: nat)
    requires IsPadded(p, m) && BigNumber(p[|p| - 8..]) == 8 * |m| % 0x1_0000_0000_0000_0000
    requires Chained(f, [0x67452301, 0xEFCDAB89, 0x98BADCFE, 0x10325476, 0xC3D2E1F0], p, states)
    requires i < 5
    ensures BigNumber(Digest(f, m)[4 * i..4 * i + 4]) == states[|states| - 1][i]
  {
    LengthReads(|m|);
    BigNumberSays(p[|p| - 8..], LengthBytes(|m|));
    PaddedIs(p, m, LengthBytes(|m|));
    FoldIsLast(f, INIT, p, states);
    var s := states[|states| - 1];
    forall k | 0 <= k < 4 ensures Digest(f, m)[4 * i + k] == BigEndian(s[i])[k] { BigEndianAt(s, 4 * i + k); }
    assert Digest(f, m)[4 * i..4 * i + 4] == BigEndian(s[i]);
    WordNumbers(s[i]);
  }

  class Context {
    const transform: (State, seq<byte>) -> State
    var state: State
    var count0: Word
    var count1: Word
    const buffer: array<byte>
    ghost var msg: seq<byte>

    /** The context stands for the message so far, however it came in. */
    ghost predicate Valid()
      reads this, buffer
    {
      && buffer.Length == 64
      && state == Fold(transform, INIT, msg)
      && count0 == Low(|msg|) && count1 == High(|msg|)
      && buffer[..|msg| % 64] == Rest(msg)
    }

    constructor (transform: (State, seq<byte>) -> State)
      ensures Valid() && msg == [] && this.transform == transform && fresh(buffer)
    {
      this.transform := transform;
      state := INIT;
      count0, count1 := 0, 0;
      buffer := new byte[64];
      msg := [];
    }

    /** The 64-bit count, kept in two words with a carry between them. */
    method Count(len: nat)
      modifies `count0, `count1
      requires count0 == Low(|msg|) && count1 == High(|msg|)
      ensures count0 == Low(|msg| + len) && count1 == High(|msg| + len)
    {
      CounterAdds(|msg|, len);
      var j := count0;
      count0 := (count0 + 8 * len) % W32;
      if count0 < j {
        count1 := (count1 + 1) % W32;
      }
      count1 := (count1 + len / 0x2000_0000) % W32;
    }

    /** XPR_SHA1Update: the message grows by the data. */
    method Update(data: seq<byte>)
      requires Valid()
      modifies this, buffer
      ensures Valid() && msg == old(msg) + data
    {
      PositionIs(|msg|);
      var j := count0 / 8 % 64;
      Count(|data|);
      state := Absorb(transform, state, buffer, j, data);
      FoldAppend(transform, INIT, msg, data);
      msg := msg + data;
    }

    /** The padding loop: zeros until 56 bytes are in the last block. */
    method PadZeros() returns (ghost k: nat)
      requires Valid()
      modifies this, buffer
      ensures Valid() && msg == old(msg) + Copies(0, k) && k == (120 - |old(msg)| % 64) % 64
    {
      ghost var m, n := msg, (120 - |msg| % 64) % 64;
      k := 0;
      PositionIs(|m|);
      assert m == m + Copies(0, 0);
      while count0 / 8 % 64 != 56  // (count[0] & 504) != 448
        invariant Valid() && msg == m + Copies(0, k)
        invariant count0 / 8 % 64 == (|m| + k) % 64 && k <= n
        decreases n - k
      {
        OneZero(m, k);
        Update([0]);
        k := k + 1;
        PositionIs(|msg|);
        ZerosLeft(|m|, k - 1);
      }
      ZerosLeft(|m|, k);
    }

    /** XPR_SHA1Final: the digest of the message, and the context wiped. */
    method Final(digest: array<byte>)
      requires Valid() && digest.Length == 20 && digest != buffer
      modifies this, buffer, digest
      ensures digest[..] == Digest(transform, old(msg))
      ensures state == [0, 0, 0, 0, 0] && count0 == 0 && count1 == 0 && buffer[..] == Copies(0, 64)
    {
      ghost var m := msg;
      var finalcount := BigEndian(count1) + BigEndian(count0);
      Update([0x80]);
      ghost var k := PadZeros();
      PaddingIs(m, msg, finalcount);
      Update(finalcount);
      WriteState(digest);
      state, count0, count1 := [0, 0, 0, 0, 0], 0, 0;
      forall k | 0 <= k < 64 { buffer[k] := 0; }
    }

    method WriteState(digest: array<byte>)
      requires digest.Length == 20
      modifies digest
      ensures digest[..] == BigEndianAll(state)
    {
      var i := 0;
      while i < 20
        invariant 0 <= i <= 20
        invariant forall k :: 0 <= k < i ==> digest[k] == BigEndianAll(state)[k]
      {
        BigEndianAt(state, i);
        digest[i] := BigEndian(state[i / 4])[i % 4];
        i := i + 1;
      }
    }
  }
}
