/** The bit reader and writer of src/xpr_bitvector.c, proved against bit strings. */
module BitVector {
  import opened Common
  import opened Bits

  const MAX_LENGTH := 32

  // ----- ranges of bits

  lemma BitsAtAppend(s: seq<byte>, p: nat, m: nat, n: nat)
    requires p + m + n <= 8 * |s|
    ensures BitsAt(s, p, m + n) == BitsAt(s, p, m) + BitsAt(s, p + m, n)
  {
    var both := BitsAt(s, p, m) + BitsAt(s, p + m, n);
    forall i | 0 <= i < m + n ensures BitsAt(s, p, m + n)[i] == both[i] {
      assert i >= m ==> p + i == p + m + (i - m);
    }
  }

  lemma Div8(p: nat, q: nat, r: nat)
    requires p == 8 * q + r && r < 8
    ensures p / 8 == q && p % 8 == r
  {
  }

  /** Setting bit p of a buffer changes that bit and no other. */
  lemma SetBitAt(s: seq<byte>, p: nat, v: bool, q: nat)
    requires p < 8 * |s| && q < 8 * |s|
    ensures BitAt(s[p / 8 := SetBit(s[p / 8], p % 8, v)], q) == if q == p then v else BitAt(s, q)
  {
    var b, r := s[p / 8], SetBit(s[p / 8], p % 8, v);
    assert BitsOf(r)[q % 8] == Bit(r, q % 8) && BitsOf(b)[q % 8] == Bit(b, q % 8);
    if q / 8 == p / 8 && q % 8 == p % 8 { assert q == p; }
  }

  /** Four bytes as a word, high byte first. */
  function Word(s: seq<byte>): (w: nat)
    requires |s| == 4
    ensures w < 0x1_0000_0000
  {
    var a, b, c, d := s[0] as int, s[1] as int, s[2] as int, s[3] as int;
    0x100_0000 * a + 0x1_0000 * b + 0x100 * c + d
  }

  /** The bits of four bytes are those of the word they spell. */
  lemma WordBits(s: seq<byte>)
    requires |s| == 4
    ensures BitsAt(s, 0, 32) == Binary(Word(s), 32)
  {
    hide Binary, BitsAt;
    var y := 256 * s[0] as int + s[1] as int;
    var x := 256 * y + s[2] as int;
    LowByte(s[0], s[1], 8);
    LowByte(y, s[2], 16);
    LowByte(x, s[3], 24);
    assert Word(s) == 256 * x + s[3] as int;
    FourBytes(s);
  }

  lemma FourBytes(s: seq<byte>)
    requires |s| == 4
    ensures BitsAt(s, 0, 32) == Binary(s[0], 8) + Binary(s[1], 8) + Binary(s[2], 8) + Binary(s[3], 8)
  {
    OneByte(s, 0);
    OneByte(s, 1);
    OneByte(s, 2);
    OneByte(s, 3);
    BitsAtAppend(s, 0, 24, 8);
    BitsAtAppend(s, 0, 16, 8);
    BitsAtAppend(s, 0, 8, 8);
  }

  lemma LowBits(x: nat, b: nat, n: nat, m: nat)
    requires b < Pow2(m)
    ensures Binary(Pow2(m) * x + b, n + m) == Binary(x, n) + Binary(b, m)
  {
    var w := Pow2(m) * x + b;
    DivModUnique(w, Pow2(m), x, b);
    ShrIsDiv(w, m);
    BinaryMod(w, m, m);
    BinaryAppend(w, n, m);
  }

  lemma LowByte(x: nat, b: byte, n: nat)
    ensures Binary(256 * x + b as int, n + 8) == Binary(x, n) + Binary(b, 8)
  {
    Pow2Is8();
    LowBits(x, b, n, 8);
  }

  lemma OneByte(s: seq<byte>, j: nat)
    requires j < |s|
    ensures BitsAt(s, 8 * j, 8) == Binary(s[j], 8)
  {
    hide Bit, Binary, Val;
    ByteBits(s[j]);
    forall i | 0 <= i < 8 ensures BitsAt(s, 8 * j, 8)[i] == BitsOf(s[j])[i] {
      Div8(8 * j + i, j, i);
      assert BitAt(s, 8 * j + i) == Bit(s[j], i);
    }
  }

  /** Bits are counted from the high end of a byte: whole bytes at a byte's border read as numbers, the first byte
      highest. */
  lemma AlignedBytes(s: seq<byte>, j: nat)
    requires j < |s|
    ensures Val(BitsAt(s, 8 * j, 8)) == s[j] as int
    ensures j + 1 < |s| ==> Val(BitsAt(s, 8 * j, 16)) == 256 * s[j] as int + s[j + 1] as int
    ensures BitAt(s, 8 * j) <==> s[j] >= 128
    ensures BitAt(s, 8 * j + 7) <==> s[j] % 2 == 1
  {
    hide BitsAt, Val, Binary;
    OneByte(s, j);
    Pow2Is8();
    ValOfBinary(s[j], 8);
    Div8(8 * j, j, 0);
    Div8(8 * j + 7, j, 7);
    if j + 1 < |s| {
      OneByte(s, j + 1);
      BitsAtAppend(s, 8 * j, 8, 8);
      LowByte(s[j], s[j + 1], 8);
      ValOfBinary(256 * s[j] as int + s[j + 1] as int, 16);
      assert Pow2(16) == 0x1_0000 by { Pow2Add(8, 8); }
    }
  }

  // ----- copying bits

  /** `to` is the old buffer with n bits from `from`, first bit `fromOff`, written over those from `toOff` on. */
  ghost predicate Copied(to: seq<byte>, was: seq<byte>, toOff: nat, from: seq<byte>, fromOff: nat, n: nat)
    requires |to| == |was| && toOff + n <= 8 * |to| && fromOff + n <= 8 * |from|
  {
    forall q {:trigger BitAt(to, q)} :: 0 <= q < 8 * |to| ==>
      BitAt(to, q) == if toOff <= q < toOff + n then BitAt(from, fromOff + (q - toOff)) else BitAt(was, q)
  }

  /** ShiftBits copies exactly numBits bits and changes nothing else; the buffers may be one when the source
      lies behind the target. */
  method ShiftBits(to: array<byte>, toOff: nat, from: array<byte>, fromOff: nat, numBits: nat)
    requires toOff + numBits <= 8 * to.Length && fromOff + numBits <= 8 * from.Length
    requires to == from ==> fromOff >= toOff
    modifies to
    ensures Copied(to[..], old(to[..]), toOff, old(from[..]), fromOff, numBits)
  {
    hide Copied, Bit, SetBit;
    ghost var was, src := to[..], from[..];
    CopiedNone(was, toOff, src, fromOff);
    var fromByte: nat, fromRem: nat := fromOff / 8, fromOff % 8;
    var toByte: nat, toRem: nat := toOff / 8, toOff % 8;
    var left: nat := numBits;
    ghost var i: nat := 0;
    while left > 0
      invariant i <= numBits && left + i == numBits && to.Length == |was|
      invariant 8 * fromByte + fromRem == fromOff + i && fromRem < 8
      invariant 8 * toByte + toRem == toOff + i && toRem < 8
      invariant Copied(to[..], was, toOff, src, fromOff, i)
      invariant from != to ==> from[..] == src
      decreases left
    {
      Div8(fromOff + i, fromByte, fromRem);
      Div8(toOff + i, toByte, toRem);
      ghost var before := to[..];
      var fromBit := Bit(from[fromByte], fromRem);
      Untouched(before, was, toOff, src, fromOff, i, from[..], from == to);
      to[toByte] := SetBit(to[toByte], toRem, fromBit);
      assert to[..] == before[toByte := SetBit(before[toByte], toRem, fromBit)];
      CopyOne(before, was, toOff, src, fromOff, i, fromBit);
      left := left - 1;
      i := i + 1;
      fromRem := fromRem + 1;
      if fromRem == 8 {
        fromByte, fromRem := fromByte + 1, 0;
      }
      toRem := toRem + 1;
      if toRem == 8 {
        toByte, toRem := toByte + 1, 0;
      }
    }
  }

  lemma CopiedNone(was: seq<byte>, toOff: nat, src: seq<byte>, fromOff: nat)
    requires toOff <= 8 * |was| && fromOff <= 8 * |src|
    ensures Copied(was, was, toOff, src, fromOff, 0)
  {
  }

  /** The source bit to copy next is still what it was. */
  lemma Untouched(to: seq<byte>, was: seq<byte>, toOff: nat, src: seq<byte>, fromOff: nat, i: nat,
                  now: seq<byte>, same: bool)
    requires |to| == |was| && toOff + i < 8 * |to| && fromOff + i < 8 * |src|
    requires Copied(to, was, toOff, src, fromOff, i)
    requires if same then now == to && src == was && fromOff >= toOff else now == src
    ensures |now| == |src| && BitAt(now, fromOff + i) == BitAt(src, fromOff + i)
  {
  }

  lemma CopyOne(to: seq<byte>, was: seq<byte>, toOff: nat, src: seq<byte>, fromOff: nat, i: nat, v: bool)
    requires |to| == |was| && toOff + i < 8 * |to| && fromOff + i < 8 * |src|
    requires Copied(to, was, toOff, src, fromOff, i) && v == BitAt(src, fromOff + i)
    ensures var p := toOff + i; Copied(to[p / 8 := SetBit(to[p / 8], p % 8, v)], was, toOff, src, fromOff, i + 1)
  {
    var p := toOff + i;
    var r := to[p / 8 := SetBit(to[p / 8], p % 8, v)];
    forall q | 0 <= q < 8 * |r|
      ensures BitAt(r, q) == if toOff <= q < toOff + i + 1 then BitAt(src, fromOff + (q - toOff)) else BitAt(was, q)
    {
      SetBitAt(to, p, v, q);
    }
  }

  /** The copied range reads like its source. */
  lemma CopiedRange(to: seq<byte>, was: seq<byte>, toOff: nat, from: seq<byte>, fromOff: nat, n: nat)
    requires |to| == |was| && toOff + n <= 8 * |to| && fromOff + n <= 8 * |from|
    requires Copied(to, was, toOff, from, fromOff, n)
    ensures BitsAt(to, toOff, n) == BitsAt(from, fromOff, n)
  {
    forall i | 0 <= i < n ensures BitsAt(to, toOff, n)[i] == BitsAt(from, fromOff, n)[i] {
      assert BitAt(to, toOff + i) == BitAt(from, fromOff + i);
    }
  }

  // ----- reading and writing

  class BitVector {
    const data: array<byte>
    const offset: nat
    const totalBits: nat
    var curPos: nat

    ghost predicate Valid()
      reads this
    {
      curPos <= totalBits && offset + totalBits <= 8 * data.Length
    }

    constructor (data: array<byte>, offset: nat, totalBits: nat)
      requires offset + totalBits <= 8 * data.Length
      ensures Valid() && this.data == data && this.offset == offset && this.totalBits == totalBits && curPos == 0
    {
      this.data, this.offset, this.totalBits, curPos := data, offset, totalBits, 0;
    }

    /** How many of numBits bits a call moves: not more than 32, and not more than are left. */
    function Room(numBits: nat): (k: nat)
      requires Valid()
      reads this
      ensures k <= numBits && k <= 32 && curPos + k <= totalBits
    {
      var n := if numBits > MAX_LENGTH then MAX_LENGTH else numBits;
      if n > totalBits - curPos then totalBits - curPos else n
    }

    /** As many as all three allow. */
    lemma RoomIs(numBits: nat)
      requires Valid()
      ensures var k := Room(numBits); k == numBits || k == 32 || k == totalBits - curPos
    {
    }

    /** XPR_BitVectorPutBits: the first of the low numBits bits of the word, as many as there is room for. */
    method PutBits(bits: nat, numBits: nat)
      requires Valid() && bits < 0x1_0000_0000
      modifies this`curPos, data
      ensures Valid() && curPos == old(curPos) + old(Room(numBits))
      ensures var n, k := if numBits > 32 then 32 else numBits, old(Room(numBits));
        && BitsAt(data[..], offset + old(curPos), k) == Binary(bits, n)[..k]
        && SameBut(data[..], old(data[..]), offset + old(curPos), k)
    {
      var n := numBits;
      if n > MAX_LENGTH {
        n := MAX_LENGTH;
      }
      var overflowing := 0;
      if n > totalBits - curPos {
        overflowing := n - (totalBits - curPos);
      }
      var k := n - overflowing;
      WriteWord(data, offset + curPos, bits, n, k);
      curPos := curPos + k;
    }

    /** XPR_BitVectorGetBits: the number the next bits say, with zeros for the bits beyond the end. Reading
        32 bits at the very end shifts a word by 32, which C leaves undefined. */
    method GetBits(numBits: nat) returns (result: nat)
      requires Valid() && (numBits >= 32 ==> curPos < totalBits)
      modifies this`curPos
      ensures Valid() && curPos == old(curPos) + old(Room(numBits))
      ensures var n, k := if numBits > 32 then 32 else numBits, old(Room(numBits));
        result == Shl(Val(BitsAt(data[..], offset + old(curPos), k)), n - k)
    {
      if numBits == 0 {
        return 0;
      }
      var n := numBits;
      if n > MAX_LENGTH {
        n := MAX_LENGTH;
      }
      var overflowing := 0;
      if n > totalBits - curPos {
        overflowing := n - (totalBits - curPos);
      }
      var k := n - overflowing;
      result := ReadWord(data, offset + curPos, n, k);
      curPos := curPos + k;
    }

    /** XPR_BitVectorGet1Bit: the next bit, but zero for the very last one. */
    method Get1Bit() returns (bit: bool)
      requires Valid() && curPos < totalBits
      modifies this`curPos
      ensures Valid() && curPos == old(curPos) + 1
      ensures bit <==> curPos < totalBits && BitAt(data[..], offset + old(curPos))
    {
      var at := offset + curPos;
      curPos := curPos + 1;
      bit := Bit(data[at / 8], at % 8);
      if curPos >= totalBits {
        return false;
      }
    }

    /** XPR_BitVectorGetExpGolomb, with the 32-bit arithmetic of its result. More than 31 zeros at the very
        end run into the undefined shift of GetBits. */
    method GetExpGolomb() returns (result: nat)
      requires Valid() && curPos < totalBits
      requires var z := LeadingZeros(data[..], offset + curPos, offset + totalBits - 1);
        z >= 32 ==> curPos + z + 1 < totalBits
      modifies this`curPos
      ensures Valid()
      ensures var p, z := offset + old(curPos), LeadingZeros(data[..], offset + old(curPos), offset + totalBits - 1);
        && old(curPos) + z + 1 <= curPos
        && var k := curPos - old(curPos) - z - 1;
        k <= z && (old(curPos) + 2 * z + 1 <= totalBits && z <= 32 ==> k == z)
        && (z < 32 ==> result == Pow2(z) - 1 + Shl(Val(BitsAt(data[..], p + z + 1, k)), z - k))
    {
      var numLeadingZeroBits, codeStart := CountZeros();
      ghost var at := curPos;
      var more := GetBits(numLeadingZeroBits);
      if numLeadingZeroBits < 32 {
        ghost var k := curPos - at;
        GolombWord(numLeadingZeroBits, codeStart, BitsAt(data[..], offset + at, k));
      }
      result := (codeStart + 0xFFFF_FFFF + more) % 0x1_0000_0000;
    }

    /** The loop of XPR_BitVectorGetExpGolomb. */
    method CountZeros() returns (numLeadingZeroBits: nat, codeStart: nat)
      requires Valid() && curPos < totalBits
      modifies this`curPos
      ensures Valid() && curPos == old(curPos) + numLeadingZeroBits + 1
      ensures numLeadingZeroBits == LeadingZeros(data[..], offset + old(curPos), offset + totalBits - 1)
      ensures codeStart == Pow2(numLeadingZeroBits) % 0x1_0000_0000
    {
      hide LeadingZeros, Pow2, Bit;
      ghost var p, last := offset + curPos, offset + totalBits - 1;
      assert Pow2(0) == 1 by { NoZeros(data[..], p, last); }
      numLeadingZeroBits, codeStart := 0, 1;
      var bit := Get1Bit();
      while !bit && curPos < totalBits
        invariant Valid() && curPos == old(curPos) + numLeadingZeroBits + 1
        invariant bit <==> curPos < totalBits && BitAt(data[..], offset + curPos - 1)
        invariant codeStart == Pow2(numLeadingZeroBits) % 0x1_0000_0000
        invariant LeadingZeros(data[..], p, last)
          == numLeadingZeroBits + LeadingZeros(data[..], p + numLeadingZeroBits, last)
        decreases totalBits - curPos
      {
        TwiceMod(Pow2(numLeadingZeroBits));
        OneMoreZero(data[..], p, numLeadingZeroBits, last);
        codeStart := codeStart * 2 % 0x1_0000_0000;
        numLeadingZeroBits := numLeadingZeroBits + 1;
        bit := Get1Bit();
      }
      NoZeros(data[..], p + numLeadingZeroBits, last);
    }

    /** XPR_BitVectorRollback */
    method Rollback(numBits: nat)
      requires Valid()
      modifies this`curPos
      ensures Valid() && curPos == if numBits > old(curPos) then 0 else old(curPos) - numBits
    {
      if numBits > curPos {
        curPos := 0;
      } else {
        curPos := curPos - numBits;
      }
    }
  }

  // ----- Exp-Golomb codes

  /** The zeros the decoder counts from bit p on: it stops at a one, and at the last bit whatever it is. */
  ghost function LeadingZeros(s: seq<byte>, p: nat, last: nat): (z: nat)
    requires last < 8 * |s|
    ensures p <= last ==> p + z <= last
    decreases last - p
  {
    if p >= last || BitAt(s, p) then 0 else 1 + LeadingZeros(s, p + 1, last)
  }

  /** The position of the highest one. */
  ghost function Log2(x: nat): (k: nat)
    requires x > 0
    ensures Pow2(k) <= x < Pow2(k + 1)
  {
    if x == 1 then 0 else 1 + Log2(x / 2)
  }

  /** The ue(v) code of section 9.1 of ITU-T H.264: v + 1 in binary behind as many zeros as it has bits
      behind its leading one. */
  ghost function Ue(v: nat): (c: seq<bool>)
    ensures |c| == 2 * Log2(v + 1) + 1
  {
    var k := Log2(v + 1);
    seq(k, i => false) + Binary(v + 1, k + 1)
  }

  /** The first codes of table 9-2. */
  lemma UeTable()
    ensures Ue(0) == [true]
    ensures Ue(1) == [false, true, false] && Ue(2) == [false, true, true]
    ensures Ue(3) == [false, false, true, false, false] && Ue(6) == [false, false, true, true, true]
  {
    hide Binary, Log2;
    Logs();
    Binaries();
  }

  lemma Logs()
    ensures Log2(1) == 0 && Log2(2) == 1 && Log2(3) == 1 && Log2(4) == 2 && Log2(7) == 2
  {
  }

  lemma Binaries()
    ensures Binary(1, 1) == [true] && Binary(2, 2) == [true, false] && Binary(3, 2) == [true, true]
    ensures Binary(4, 3) == [true, false, false] && Binary(7, 3) == [true, true, true]
  {
  }

  lemma TwiceMod(x: nat)
    ensures x % 0x1_0000_0000 * 2 % 0x1_0000_0000 == 2 * x % 0x1_0000_0000
  {
    var q, r := x / 0x1_0000_0000, x % 0x1_0000_0000;
    var c := if 2 * r >= 0x1_0000_0000 then 1 else 0;
    assert 2 * x == 0x1_0000_0000 * (2 * q + c) + (2 * r - 0x1_0000_0000 * c);
  }

  lemma OneMoreZero(s: seq<byte>, p: nat, n: nat, last: nat)
    requires p + n < last < 8 * |s| && !BitAt(s, p + n)
    ensures n + LeadingZeros(s, p + n, last) == n + 1 + LeadingZeros(s, p + (n + 1), last)
    ensures Pow2(n + 1) == 2 * Pow2(n)
  {
    assert p + (n + 1) == p + n + 1;
  }

  lemma NoZeros(s: seq<byte>, p: nat, last: nat)
    requires p <= last < 8 * |s|
    ensures p == last || BitAt(s, p) ==> LeadingZeros(s, p, last) == 0
    ensures Pow2(0) == 1
  {
  }

  lemma {:induction false} ZerosCount(s: seq<byte>, p: nat, last: nat, k: nat)
    requires p + k <= last < 8 * |s|
    requires forall i :: p <= i < p + k ==> !BitAt(s, i)
    requires p + k < last ==> BitAt(s, p + k)
    ensures LeadingZeros(s, p, last) == k
    decreases k
  {
    if k > 0 { ZerosCount(s, p + 1, last, k - 1); }
  }

  /** Fewer than 32 zeros leave the 32-bit arithmetic exact. */
  lemma GolombWord(z: nat, codeStart: nat, bs: seq<bool>)
    requires |bs| <= z < 32 && codeStart == Pow2(z) % 0x1_0000_0000
    ensures (codeStart + 0xFFFF_FFFF + Shl(Val(bs), z - |bs|)) % 0x1_0000_0000 == Pow2(z) - 1 + Shl(Val(bs), z - |bs|)
  {
    ShlBound(bs, z);
    Pow2Below(z, 31);
    Pow2Is31();
    Below(Pow2(z), Shl(Val(bs), z - |bs|));
  }

  lemma Below(p: nat, m: nat)
    requires m < p <= 0x8000_0000
    ensures (p % 0x1_0000_0000 + 0xFFFF_FFFF + m) % 0x1_0000_0000 == p - 1 + m
  {
  }

  lemma ShlBound(bs: seq<bool>, z: nat)
    requires |bs| <= z
    ensures Shl(Val(bs), z - |bs|) < Pow2(z)
  {
    hide Pow2, Val;
    BinaryOfVal(bs);
    Pow2Add(|bs|, z - |bs|);
    Scaled(Val(bs), Pow2(|bs|), Pow2(z - |bs|));
  }

  lemma Scaled(a: nat, b: nat, c: nat)
    requires a < b && c > 0
    ensures a * c < b * c
  {
  }

  /** The decoder inverts the code, for every value and wherever the code lies, also at the very end: it
      counts k zeros, skips the one, reads k bits, and the number is v. */
  lemma GolombInverts(s: seq<byte>, p: nat, last: nat, v: nat)
    requires p + |Ue(v)| <= last + 1 && last < 8 * |s| && BitsAt(s, p, |Ue(v)|) == Ue(v)
    ensures var z := LeadingZeros(s, p, last);
      && |Ue(v)| == 2 * z + 1
      && Pow2(z) - 1 + Val(BitsAt(s, p + z + 1, z)) == v
      && (v < 0xFFFF_FFFF ==> z < 32)
  {
    UeIs(v);
    GolombAt(s, p, last, Log2(v + 1), v);
    ShortCode(v);
  }

  lemma UeIs(v: nat)
    ensures var k := Log2(v + 1); Ue(v) == seq(k, i => false) + ([true] + Binary(v + 1, k))
  {
    TopBit(v + 1, Log2(v + 1));
  }

  lemma GolombAt(s: seq<byte>, p: nat, last: nat, k: nat, v: nat)
    requires Pow2(k) <= v + 1 < Pow2(k + 1) && p + 2 * k <= last < 8 * |s|
    requires BitsAt(s, p, 2 * k + 1) == seq(k, i => false) + ([true] + Binary(v + 1, k))
    ensures LeadingZeros(s, p, last) == k && Pow2(k) - 1 + Val(BitsAt(s, p + k + 1, k)) == v
  {
    UeParts(s, p, k, Binary(v + 1, k));
    ZerosCount(s, p, last, k);
    ValOfBinary(v + 1, k);
    TopBit(v + 1, k);
  }

  lemma ShortCode(v: nat)
    ensures v < 0xFFFF_FFFF ==> Log2(v + 1) < 32
  {
    var k := Log2(v + 1);
    if k >= 32 { Pow2Below(32, k); Pow2Is32(); }
  }

  /** The three parts of a code in the buffer. */
  lemma UeParts(s: seq<byte>, p: nat, k: nat, d: seq<bool>)
    requires |d| == k && p + 2 * k + 1 <= 8 * |s| && BitsAt(s, p, 2 * k + 1) == seq(k, i => false) + ([true] + d)
    ensures forall i :: p <= i < p + k ==> !BitAt(s, i)
    ensures BitAt(s, p + k) && BitsAt(s, p + k + 1, k) == d
  {
    BitsAtAppend(s, p, k, k + 1);
    SameParts(BitsAt(s, p, k), BitsAt(s, p + k, k + 1), seq(k, i => false), [true] + d);
    BitsAtAppend(s, p + k, 1, k);
    SameParts(BitsAt(s, p + k, 1), BitsAt(s, p + k + 1, k), [true], d);
    ZerosAre(s, p, k);
    assert BitsAt(s, p + k, 1)[0] == BitAt(s, p + k);
  }

  lemma ZerosAre(s: seq<byte>, p: nat, k: nat)
    requires p + k <= 8 * |s| && BitsAt(s, p, k) == seq(k, i => false)
    ensures forall i :: p <= i < p + k ==> !BitAt(s, i)
  {
    forall i | p <= i < p + k ensures !BitAt(s, i) { assert BitsAt(s, p, k)[i - p] == BitAt(s, p + (i - p)); }
  }

  lemma TopBit(x: nat, k: nat)
    requires Pow2(k) <= x < Pow2(k + 1)
    ensures Binary(x, k + 1) == [true] + Binary(x, k)
    ensures x % Pow2(k) == x - Pow2(k)
  {
    DivModUnique(x, Pow2(k), 1, x - Pow2(k));
    ShrIsDiv(x, k);
    BinaryAppend(x, 1, k);
    assert Binary(1, 1) == [true];
  }

  lemma {:induction false} Pow2Below(a: nat, b: nat)
    requires a <= b
    ensures Pow2(a) <= Pow2(b)
    decreases b
  {
    if a < b { Pow2Below(a, b - 1); }
  }

  /** Put n bits, roll back n, get n: the low n bits of the word come back. */
  method PutRollbackGet(bv: BitVector, bits: nat, n: nat) returns (r: nat)
    requires bv.Valid() && bits < 0x1_0000_0000 && n <= 32 && bv.curPos + n <= bv.totalBits
    modifies bv`curPos, bv.data
    ensures bv.Valid() && bv.curPos == old(bv.curPos) + n
    ensures r == bits % Pow2(n)
  {
    bv.PutBits(bits, n);
    assert Binary(bits, n)[..n] == Binary(bits, n);
    ValOfBinary(bits, n);
    bv.Rollback(n);
    r := bv.GetBits(n);
    assert Pow2(0) == 1;
  }

  /** Where the code of v stands at the cursor, v comes out, and the cursor moves behind the code. */
  method GetUe(bv: BitVector, ghost v: nat) returns (r: nat)
    requires bv.Valid() && v < 0xFFFF_FFFF && bv.curPos + |Ue(v)| <= bv.totalBits
    requires BitsAt(bv.data[..], bv.offset + bv.curPos, |Ue(v)|) == Ue(v)
    modifies bv`curPos
    ensures bv.Valid() && r == v && bv.curPos == old(bv.curPos) + |Ue(v)|
  {
    GolombInverts(bv.data[..], bv.offset + bv.curPos, bv.offset + bv.totalBits - 1, v);
    r := bv.GetExpGolomb();
    assert Pow2(0) == 1;
  }

  function Shl(x: nat, n: nat): nat { x * Pow2(n) }

  /** The middle of XPR_BitVectorGetBits: k bits into a word, and the word moved so that n bits are its number,
      the last n - k of them zero. */
  method ReadWord(data: array<byte>, pos: nat, n: nat, k: nat) returns (result: nat)
    requires pos + k <= 8 * data.Length && k <= n <= 32
    ensures result == Shl(Val(BitsAt(data[..], pos, k)), n - k)
  {
    var tmp := new byte[4];
    ghost var was := tmp[..];
    ShiftBits(tmp, 0, data, pos, k);
    CopiedRange(tmp[..], was, 0, data[..], pos, k);
    HeadBits(tmp[..], n, k);
    result := Shr(Word(tmp[..]), MAX_LENGTH - n);
    result := Shl(Shr(result, n - k), n - k);  // the mask 0xFFFFFFFF << (n - k)
  }

  /** The middle of XPR_BitVectorPutBits. */
  method WriteWord(data: array<byte>, pos: nat, bits: nat, n: nat, k: nat)
    requires pos + k <= 8 * data.Length && k <= n <= 32 && bits < 0x1_0000_0000
    modifies data
    ensures BitsAt(data[..], pos, k) == Binary(bits, n)[..k]
    ensures SameBut(data[..], old(data[..]), pos, k)
  {
    var tmp := Spread(bits);
    ghost var was := data[..];
    ShiftBits(data, pos, tmp, MAX_LENGTH - n, k);
    CopiedRange(data[..], was, pos, tmp[..], MAX_LENGTH - n, k);
    TailBits(tmp[..], bits, n, k);
  }

  /** Bits outside the k from pos on are as they were. */
  ghost predicate SameBut(to: seq<byte>, was: seq<byte>, pos: nat, k: nat)
    requires |to| == |was|
  {
    forall q {:trigger BitAt(to, q)} :: 0 <= q < 8 * |to| && !(pos <= q < pos + k) ==> BitAt(to, q) == BitAt(was, q)
  }

  /** The four bytes of a word. */
  method Spread(bits: nat) returns (tmp: array<byte>)
    requires bits < 0x1_0000_0000
    ensures fresh(tmp) && tmp.Length == 4 && Word(tmp[..]) == bits
  {
    tmp := new byte[4];
    tmp[0] := bits / 0x100_0000 % 256;
    tmp[1] := bits / 0x1_0000 % 256;
    tmp[2] := bits / 0x100 % 256;
    tmp[3] := bits % 256;
    SpreadIs(bits);
  }

  lemma SpreadIs(bits: nat)
    requires bits < 0x1_0000_0000
    ensures bits == 0x100_0000 * (bits / 0x100_0000 % 256) + 0x1_0000 * (bits / 0x1_0000 % 256)
      + 0x100 * (bits / 0x100 % 256) + bits % 256
  {
    var x, y := bits / 0x100, bits / 0x1_0000;
    assert y == x / 0x100 && bits / 0x100_0000 == y / 0x100;
    assert bits == 0x100 * x + bits % 0x100 && x == 0x100 * y + x % 0x100 && y == 0x100 * (y / 0x100) + y % 0x100;
  }

  /** The last n bits of a word, and the first k of them. */
  lemma TailBits(s: seq<byte>, bits: nat, n: nat, k: nat)
    requires |s| == 4 && Word(s) == bits && k <= n <= 32
    ensures BitsAt(s, 32 - n, k) == Binary(bits, n)[..k]
  {
    WordBits(s);
    BinaryAppend(bits, 32 - n, n);
    BitsAtAppend(s, 0, 32 - n, n);
    BitsAtAppend(s, 32 - n, k, n - k);
    SameParts(BitsAt(s, 0, 32 - n), BitsAt(s, 32 - n, n), Binary(Shr(bits, n), 32 - n), Binary(bits, n));
  }

  /** The first k bits of a word, by two shifts. */
  lemma HeadBits(s: seq<byte>, n: nat, k: nat)
    requires |s| == 4 && k <= n <= 32
    ensures Shr(Shr(Word(s), 32 - n), n - k) == Val(BitsAt(s, 0, k))
  {
    hide Word, Shr, Val, Binary, BitsAt, Pow2;
    WordBits(s);
    var w := Word(s);
    ShrShr(w, 32 - n, n - k);
    BinaryAppend(w, k, 32 - k);
    BitsAtAppend(s, 0, k, 32 - k);
    SameParts(BitsAt(s, 0, k), BitsAt(s, k, 32 - k), Binary(Shr(w, 32 - k), k), Binary(w, 32 - k));
    ValOfBinary(Shr(w, 32 - k), k);
    assert Pow2(32) == 0x1_0000_0000 by { Pow2Is32(); }
    ShrBound(w, k, 32 - k);
    SmallMod(Shr(w, 32 - k), Pow2(k));
  }

  lemma Pow2Is31()
    ensures Pow2(31) == 0x8000_0000
  {
    Pow2Is32();
    Pow2Add(31, 1);
  }

  lemma Pow2Is32()
    ensures Pow2(32) == 0x1_0000_0000
  {
    Pow2Is8();
    Pow2Add(8, 8);
    Pow2Add(16, 16);
  }

  lemma {:induction false} Pow2Add(m: nat, n: nat)
    ensures Pow2(m + n) == Pow2(m) * Pow2(n)
    decreases n
  {
    if n > 0 {
      Pow2Add(m, n - 1);
      assert 2 * (Pow2(m) * Pow2(n - 1)) == Pow2(m) * (2 * Pow2(n - 1));
    }
  }

  lemma {:induction false} ShrShr(x: nat, m: nat, n: nat)
    ensures Shr(Shr(x, m), n) == Shr(x, m + n)
    decreases m
  {
    if m > 0 { ShrShr(x / 2, m - 1, n); }
  }

  lemma {:induction false} ShrBound(x: nat, m: nat, n: nat)
    requires x < Pow2(m + n)
    ensures Shr(x, n) < Pow2(m)
    decreases n
  {
    if n > 0 { ShrBound(x / 2, m, n - 1); }
  }

  lemma SmallMod(x: nat, p: nat)
    requires x < p
    ensures x % p == x
  {
    DivModUnique(x, p, 0, x);
  }

  lemma SameParts(a: seq<bool>, b: seq<bool>, c: seq<bool>, d: seq<bool>)
    requires a + b == c + d && |a| == |c|
    ensures a == c && b == d
  {
    assert a == (a + b)[..|a|] && c == (c + d)[..|c|] && b == (a + b)[|a|..] && d == (c + d)[|c|..];
  }
}
