/** The table-driven CRCs of src/xpr_crc.c against the shift registers that divide bit by bit. */
module Crc {
  import opened CrcTables

  // ----- shift registers

  /** A register over words: a step, the sum of words, the low bit of a word, and the word without it. */
  datatype Register<!T> = Register(step: T -> T, xor: (T, T) -> T, bit: T -> T, half: T -> T)

  /** n steps. */
  ghost function Steps<T>(r: Register<T>, c: T, n: nat): T {
    if n == 0 then c else Steps(r, r.step(c), n - 1)
  }

  /** The low n bits of b enter one by one, the lowest first, with a step each. */
  ghost function Enter<T>(r: Register<T>, c: T, b: T, n: nat): T
    decreases n
  {
    if n == 0 then c else Enter(r, r.step(r.xor(c, r.bit(b))), r.half(b), n - 1)
  }

  ghost function Halves<T>(r: Register<T>, b: T, n: nat): T
    decreases n
  {
    if n == 0 then b else Halves(r, r.half(b), n - 1)
  }

  /** Adding a word and stepping is adding its low bit, stepping, and adding the rest. */
  ghost predicate Feeds<T(!new)>(r: Register<T>) {
    forall c, b :: r.xor(r.step(r.xor(c, r.bit(b))), r.half(b)) == r.step(r.xor(c, b))
  }

  /** Bits that enter one by one are bits that were there from the start. */
  lemma {:induction false} EnterIsSteps<T(!new)>(r: Register<T>, c: T, b: T, n: nat)
    requires Feeds(r)
    ensures r.xor(Enter(r, c, b, n), Halves(r, b, n)) == Steps(r, r.xor(c, b), n)
    decreases n
  {
    if n > 0 { EnterIsSteps(r, r.step(r.xor(c, r.bit(b))), r.half(b), n - 1); }
  }

  /** Zeros that enter are steps. */
  lemma {:induction false} EnterZeros<T(!new)>(r: Register<T>, c: T, b: T, n: nat, zero: T)
    requires forall x :: r.xor(x, zero) == x
    requires forall k {:trigger Halves(r, b, k)} :: 0 <= k < n ==> r.bit(Halves(r, b, k)) == zero
    ensures Enter(r, c, b, n) == Steps(r, c, n)
    decreases n
  {
    if n > 0 {
      assert Halves(r, b, 0) == b;
      forall k | 0 <= k < n - 1 ensures r.bit(Halves(r, r.half(b), k)) == zero {
        assert Halves(r, b, k + 1) == Halves(r, r.half(b), k);
      }
      EnterZeros(r, r.step(c), r.half(b), n - 1, zero);
    }
  }

  /** One byte of a table-driven register: the low part `lo` of the word looks up its steps, the rest only moves
      down. */
  lemma ByteStep<T(!new)>(r: Register<T>, c: T, b: T, lo: T, hi: T, down: T, zero: T, n: nat)
    requires Feeds(r) && forall x :: r.xor(x, zero) == x
    requires r.xor(c, b) == r.xor(lo, hi) && Halves(r, b, n) == zero && Halves(r, hi, n) == down
    requires forall k {:trigger Halves(r, hi, k)} :: 0 <= k < n ==> r.bit(Halves(r, hi, k)) == zero
    ensures Enter(r, c, b, n) == r.xor(Steps(r, lo, n), down)
  {
    EnterIsSteps(r, c, b, n);
    EnterIsSteps(r, lo, hi, n);
    EnterZeros(r, lo, hi, n, zero);
  }

  /** The register after a message of words that enter n bits each: division bit by bit. */
  ghost function Serial<T>(r: Register<T>, n: nat, c: T, m: seq<T>): T
    decreases |m|
  {
    if m == [] then c else Serial(r, n, Enter(r, c, m[0], n), m[1..])
  }

  lemma {:induction false} SerialAppend<T>(r: Register<T>, n: nat, c: T, a: seq<T>, b: seq<T>)
    ensures Serial(r, n, c, a + b) == Serial(r, n, Serial(r, n, c, a), b)
    decreases |a|
  {
    if a == [] {
      assert a + b == b;
    } else {
      assert (a + b)[1..] == a[1..] + b;
      SerialAppend(r, n, Enter(r, c, a[0], n), a[1..], b);
    }
  }

  /** x^16 + x^15 + x^2 + 1 and the polynomial of CRC-32, both with the bits reversed. */
  const POLY16: bv16 := 0xA001

  const POLY32: bv32 := 0xEDB8_8320

  // ----- CRC-16

  /** The register moves one bit to the right; when a one falls out the polynomial is subtracted. */
  function Step16(c: bv16): bv16 {
    if c & 1 == 1 then (c >> 1) ^ POLY16 else c >> 1
  }

  function Xor16(a: bv16, b: bv16): bv16 { a ^ b }

  function Bit16(b: bv16): bv16 { b & 1 }

  function Half16(b: bv16): bv16 { b >> 1 }

  const REGISTER16: Register<bv16> := Register(Step16, Xor16, Bit16, Half16)

  lemma StepEven16(c: bv16, y: bv16)
    requires y & 1 == 0
    ensures Step16(c ^ y) == Step16(c) ^ (y >> 1)
  {
    LowBit16(c, y);
    if c & 1 == 1 {
      StepOdd16(c, y);
    } else {
      ShiftXor16(c, y);
    }
  }

  lemma StepOdd16(c: bv16, y: bv16)
    requires y & 1 == 0 && c & 1 == 1
    ensures Step16(c ^ y) == Step16(c) ^ (y >> 1)
  {
  }

  lemma LowBit16(c: bv16, y: bv16)
    requires y & 1 == 0
    ensures (c ^ y) & 1 == c & 1
  {
  }

  lemma ShiftXor16(c: bv16, y: bv16)
    ensures (c ^ y) >> 1 == (c >> 1) ^ (y >> 1)
  {
  }

  lemma Even16(c: bv16, b: bv16)
    ensures var y := b ^ (b & 1); y & 1 == 0 && y >> 1 == b >> 1 && (c ^ (b & 1)) ^ y == c ^ b
  {
  }

  lemma Feeds16(c: bv16, b: bv16)
    ensures Step16(c ^ (b & 1)) ^ (b >> 1) == Step16(c ^ b)
  {
    Even16(c, b);
    StepEven16(c ^ (b & 1), b ^ (b & 1));
  }

  lemma FeedsAt16(r: Register<bv16>, c: bv16, b: bv16)
    requires r == REGISTER16
    ensures r.xor(r.step(r.xor(c, r.bit(b))), r.half(b)) == r.step(r.xor(c, b))
  {
    BitHalfAre16(b);
    XorIs16(c, b & 1);
    StepIs16(c ^ (b & 1));
    XorIs16(Step16(c ^ (b & 1)), b >> 1);
    XorIs16(c, b);
    StepIs16(c ^ b);
    Feeds16(c, b);
  }

  lemma XorIs16(a: bv16, b: bv16)
    ensures REGISTER16.xor(a, b) == a ^ b
  {
  }

  lemma StepIs16(c: bv16)
    ensures REGISTER16.step(c) == Step16(c)
  {
  }

  lemma BitHalfAre16(b: bv16)
    ensures REGISTER16.bit(b) == b & 1 && REGISTER16.half(b) == b >> 1
  {
  }

  lemma RegisterFeeds16()
    ensures Feeds(REGISTER16)
  {
    AnyFeeds16(REGISTER16);
  }

  lemma AnyFeeds16(r: Register<bv16>)
    requires r == REGISTER16
    ensures Feeds(r)
  {
    forall c, b ensures r.xor(r.step(r.xor(c, r.bit(b))), r.half(b)) == r.step(r.xor(c, b)) { FeedsAt16(r, c, b); }
  }

  lemma Halves8Of16(b: bv16)
    ensures Halves(REGISTER16, b, 8) == b >> 8
  {
  }

  lemma BitsOf16(b: bv16, k: nat)
    requires b & 0xFF == 0 && k < 8
    ensures Bit16(Halves(REGISTER16, b, k)) == 0
  {
    if k == 0 { } else if k == 1 { } else if k == 2 { } else if k == 3 { }
    else if k == 4 { } else if k == 5 { } else if k == 6 { } else { }
  }

  lemma Zero16(x: bv16)
    ensures x ^ 0 == x
  {
  }

  lemma OneStep16(c: bv16, n: nat)
    requires n > 0
    ensures Steps(REGISTER16, c, n) == Steps(REGISTER16, Step16(c), n - 1)
  {
  }

  lemma Unroll16(c: bv16, n: nat)
    requires n == 8
    ensures Steps(REGISTER16, c, n) == Step16(Step16(Step16(Step16(Step16(Step16(Step16(Step16(c))))))))
  {
    var c2 := Step16(Step16(c));
    var c4 := Step16(Step16(c2));
    var c6 := Step16(Step16(c4));
    OneStep16(c, n);
    OneStep16(Step16(c), n - 1);
    OneStep16(c2, n - 2);
    OneStep16(Step16(c2), n - 3);
    OneStep16(c4, n - 4);
    OneStep16(Step16(c4), n - 5);
    OneStep16(c6, n - 6);
    OneStep16(Step16(c6), n - 7);
  }

  lemma TableEntry16(i: bv8)
    ensures Table16(i) == Step16(Step16(Step16(Step16(Step16(Step16(Step16(Step16(i as bv16))))))))
  {
  }

  /** Each of the 256 entries is eight steps of its index. */
  lemma TableIsSteps16(i: bv8, n: nat)
    requires n == 8
    ensures Table16(i) == Steps(REGISTER16, i as bv16, n)
  {
    Unroll16(i as bv16, n);
    TableEntry16(i);
  }

  /** The word is the table index and what stands above the low byte, which only moves down. */
  ghost predicate Split16(c: bv16, b: bv16, lo: bv16, hi: bv16, down: bv16, n: nat) {
    var r := REGISTER16;
    && r.xor(c, b) == r.xor(lo, hi) && Halves(r, b, n) == 0 && Halves(r, hi, n) == down
    && forall k {:trigger Halves(r, hi, k)} :: 0 <= k < n ==> r.bit(Halves(r, hi, k)) == 0
  }

  lemma Parts16(c: bv16, b: bv8)
    ensures c ^ b as bv16 == ((c ^ b as bv16) & 0xFF) as bv8 as bv16 ^ ((c >> 8) << 8)
  {
  }

  lemma PartsAdd16(c: bv16, b: bv8)
    ensures REGISTER16.xor(c, Wide16(b)) == REGISTER16.xor(Wide16(((c ^ b as bv16) & 0xFF) as bv8), (c >> 8) << 8)
  {
    Parts16(c, b);
    XorIs16(c, Wide16(b));
    XorIs16(Wide16(((c ^ b as bv16) & 0xFF) as bv8), (c >> 8) << 8);
  }

  lemma ByteEnters16(b: bv8, n: nat)
    requires n == 8
    ensures Halves(REGISTER16, Wide16(b), n) == 0
  {
    Halves8Of16(b as bv16);
  }

  lemma HighMoves16(hi: bv16, n: nat)
    requires n == 8 && hi & 0xFF == 0
    ensures Halves(REGISTER16, hi, n) == hi >> 8
    ensures forall k {:trigger Halves(REGISTER16, hi, k)} :: 0 <= k < n ==>
      REGISTER16.bit(Halves(REGISTER16, hi, k)) == 0
  {
    Halves8Of16(hi);
    forall k | 0 <= k < n ensures REGISTER16.bit(Halves(REGISTER16, hi, k)) == 0 { BitsOf16(hi, k); }
  }

  lemma HighOf16(c: bv16)
    ensures ((c >> 8) << 8) & 0xFF == 0 && ((c >> 8) << 8) >> 8 == c >> 8
  {
  }

  lemma IndexSplits16(c: bv16, b: bv8, n: nat)
    requires n == 8
    ensures Split16(c, Wide16(b), Wide16(((c ^ b as bv16) & 0xFF) as bv8), (c >> 8) << 8, c >> 8, n)
  {
    PartsAdd16(c, b);
    ByteEnters16(b, n);
    HighOf16(c);
    HighMoves16((c >> 8) << 8, n);
  }

  method Index16(c: bv16, b: bv8, ghost n: nat) returns (i: bv8, down: bv16, ghost hi: bv16)
    requires n == 8
    ensures Split16(c, Wide16(b), Wide16(i), hi, down, n)
  {
    IndexSplits16(c, b, n);
    i, down, hi := ((c ^ b as bv16) & 0xFF) as bv8, c >> 8, (c >> 8) << 8;
  }

  method Add16(v: bv16, down: bv16) returns (r: bv16)
    ensures r == REGISTER16.xor(v, down)
  {
    r := v ^ down;
  }

  lemma ZeroAdds16()
    ensures forall x :: REGISTER16.xor(x, 0) == x
  {
    forall x ensures REGISTER16.xor(x, 0) == x { Zero16(x); }
  }

  method Entry16(i: bv8, ghost n: nat) returns (v: bv16)
    requires n == 8
    ensures v == Steps(REGISTER16, Wide16(i), n)
  {
    TableIsSteps16(i, n);
    v := Table16(i);
  }

  /** One look into the table is a byte's worth of the register's steps. */
  method Look16(c: bv16, b: bv8, ghost n: nat) returns (r: bv16)
    requires n == 8
    ensures r == Enter(REGISTER16, c, Wide16(b), n)
  {
    var i, down;
    ghost var hi;
    i, down, hi := Index16(c, b, n);
    var v := Entry16(i, n);
    RegisterFeeds16();
    ZeroAdds16();
    ByteStep(REGISTER16, c, Wide16(b), Wide16(i), hi, down, 0, n);
    r := Add16(v, down);
  }

  function Wide16(b: bv8): bv16 { b as bv16 }

  /** The bytes of a message as words. */
  ghost function Words16(m: seq<bv8>): seq<bv16> {
    seq(|m|, k requires 0 <= k < |m| => Wide16(m[k]))
  }

  lemma WordsAppend16(a: seq<bv8>, b: seq<bv8>)
    ensures Words16(a + b) == Words16(a) + Words16(b)
  {
  }

  // ----- CRC-32

  /** The register moves one bit to the right; when a one falls out the polynomial is subtracted. */
  function Step32(c: bv32): bv32 {
    if c & 1 == 1 then (c >> 1) ^ POLY32 else c >> 1
  }

  function Xor32(a: bv32, b: bv32): bv32 { a ^ b }

  function Bit32(b: bv32): bv32 { b & 1 }

  function Half32(b: bv32): bv32 { b >> 1 }

  const REGISTER32: Register<bv32> := Register(Step32, Xor32, Bit32, Half32)

  lemma StepEven32(c: bv32, y: bv32)
    requires y & 1 == 0
    ensures Step32(c ^ y) == Step32(c) ^ (y >> 1)
  {
    LowBit32(c, y);
    if c & 1 == 1 {
      StepOdd32(c, y);
    } else {
      ShiftXor32(c, y);
    }
  }

  lemma StepOdd32(c: bv32, y: bv32)
    requires y & 1 == 0 && c & 1 == 1
    ensures Step32(c ^ y) == Step32(c) ^ (y >> 1)
  {
  }

  lemma LowBit32(c: bv32, y: bv32)
    requires y & 1 == 0
    ensures (c ^ y) & 1 == c & 1
  {
  }

  lemma ShiftXor32(c: bv32, y: bv32)
    ensures (c ^ y) >> 1 == (c >> 1) ^ (y >> 1)
  {
  }

  lemma Even32(c: bv32, b: bv32)
    ensures var y := b ^ (b & 1); y & 1 == 0 && y >> 1 == b >> 1 && (c ^ (b & 1)) ^ y == c ^ b
  {
  }

  lemma Feeds32(c: bv32, b: bv32)
    ensures Step32(c ^ (b & 1)) ^ (b >> 1) == Step32(c ^ b)
  {
    Even32(c, b);
    StepEven32(c ^ (b & 1), b ^ (b & 1));
  }

  lemma FeedsAt32(r: Register<bv32>, c: bv32, b: bv32)
    requires r == REGISTER32
    ensures r.xor(r.step(r.xor(c, r.bit(b))), r.half(b)) == r.step(r.xor(c, b))
  {
    BitHalfAre32(b);
    XorIs32(c, b & 1);
    StepIs32(c ^ (b & 1));
    XorIs32(Step32(c ^ (b & 1)), b >> 1);
    XorIs32(c, b);
    StepIs32(c ^ b);
    Feeds32(c, b);
  }

  lemma XorIs32(a: bv32, b: bv32)
    ensures REGISTER32.xor(a, b) == a ^ b
  {
  }

  lemma StepIs32(c: bv32)
    ensures REGISTER32.step(c) == Step32(c)
  {
  }

  lemma BitHalfAre32(b: bv32)
    ensures REGISTER32.bit(b) == b & 1 && REGISTER32.half(b) == b >> 1
  {
  }

  lemma RegisterFeeds32()
    ensures Feeds(REGISTER32)
  {
    AnyFeeds32(REGISTER32);
  }

  lemma AnyFeeds32(r: Register<bv32>)
    requires r == REGISTER32
    ensures Feeds(r)
  {
    forall c, b ensures r.xor(r.step(r.xor(c, r.bit(b))), r.half(b)) == r.step(r.xor(c, b)) { FeedsAt32(r, c, b); }
  }

  lemma Halves8Of32(b: bv32)
    ensures Halves(REGISTER32, b, 8) == b >> 8
  {
  }

  lemma BitsOf32(b: bv32, k: nat)
    requires b & 0xFF == 0 && k < 8
    ensures Bit32(Halves(REGISTER32, b, k)) == 0
  {
    if k == 0 { } else if k == 1 { } else if k == 2 { } else if k == 3 { }
    else if k == 4 { } else if k == 5 { } else if k == 6 { } else { }
  }

  lemma Zero32(x: bv32)
    ensures x ^ 0 == x
  {
  }

  lemma OneStep32(c: bv32, n: nat)
    requires n > 0
    ensures Steps(REGISTER32, c, n) == Steps(REGISTER32, Step32(c), n - 1)
  {
  }

  lemma Unroll32(c: bv32, n: nat)
    requires n == 8
    ensures Steps(REGISTER32, c, n) == Step32(Step32(Step32(Step32(Step32(Step32(Step32(Step32(c))))))))
  {
    var c2 := Step32(Step32(c));
    var c4 := Step32(Step32(c2));
    var c6 := Step32(Step32(c4));
    OneStep32(c, n);
    OneStep32(Step32(c), n - 1);
    OneStep32(c2, n - 2);
    OneStep32(Step32(c2), n - 3);
    OneStep32(c4, n - 4);
    OneStep32(Step32(c4), n - 5);
    OneStep32(c6, n - 6);
    OneStep32(Step32(c6), n - 7);
  }

  lemma TableEntry32(i: bv8)
    ensures Table32(i) == Step32(Step32(Step32(Step32(Step32(Step32(Step32(Step32(i as bv32))))))))
  {
  }

  /** Each of the 256 entries is eight steps of its index. */
  lemma TableIsSteps32(i: bv8, n: nat)
    requires n == 8
    ensures Table32(i) == Steps(REGISTER32, i as bv32, n)
  {
    Unroll32(i as bv32, n);
    TableEntry32(i);
  }

  /** The word is the table index and what stands above the low byte, which only moves down. */
  ghost predicate Split32(c: bv32, b: bv32, lo: bv32, hi: bv32, down: bv32, n: nat) {
    var r := REGISTER32;
    && r.xor(c, b) == r.xor(lo, hi) && Halves(r, b, n) == 0 && Halves(r, hi, n) == down
    && forall k {:trigger Halves(r, hi, k)} :: 0 <= k < n ==> r.bit(Halves(r, hi, k)) == 0
  }

  lemma Parts32(c: bv32, b: bv8)
    ensures c ^ b as bv32 == ((c ^ b as bv32) & 0xFF) as bv8 as bv32 ^ ((c >> 8) << 8)
  {
  }

  lemma PartsAdd32(c: bv32, b: bv8)
    ensures REGISTER32.xor(c, Wide32(b)) == REGISTER32.xor(Wide32(((c ^ b as bv32) & 0xFF) as bv8), (c >> 8) << 8)
  {
    Parts32(c, b);
    XorIs32(c, Wide32(b));
    XorIs32(Wide32(((c ^ b as bv32) & 0xFF) as bv8), (c >> 8) << 8);
  }

  lemma ByteEnters32(b: bv8, n: nat)
    requires n == 8
    ensures Halves(REGISTER32, Wide32(b), n) == 0
  {
    Halves8Of32(b as bv32);
  }

  lemma HighMoves32(hi: bv32, n: nat)
    requires n == 8 && hi & 0xFF == 0
    ensures Halves(REGISTER32, hi, n) == hi >> 8
    ensures forall k {:trigger Halves(REGISTER32, hi, k)} :: 0 <= k < n ==>
      REGISTER32.bit(Halves(REGISTER32, hi, k)) == 0
  {
    Halves8Of32(hi);
    forall k | 0 <= k < n ensures REGISTER32.bit(Halves(REGISTER32, hi, k)) == 0 { BitsOf32(hi, k); }
  }

  lemma HighOf32(c: bv32)
    ensures ((c >> 8) << 8) & 0xFF == 0 && ((c >> 8) << 8) >> 8 == c >> 8
  {
  }

  lemma IndexSplits32(c: bv32, b: bv8, n: nat)
    requires n == 8
    ensures Split32(c, Wide32(b), Wide32(((c ^ b as bv32) & 0xFF) as bv8), (c >> 8) << 8, c >> 8, n)
  {
    PartsAdd32(c, b);
    ByteEnters32(b, n);
    HighOf32(c);
    HighMoves32((c >> 8) << 8, n);
  }

  method Index32(c: bv32, b: bv8, ghost n: nat) returns (i: bv8, down: bv32, ghost hi: bv32)
    requires n == 8
    ensures Split32(c, Wide32(b), Wide32(i), hi, down, n)
  {
    IndexSplits32(c, b, n);
    i, down, hi := ((c ^ b as bv32) & 0xFF) as bv8, c >> 8, (c >> 8) << 8;
  }

  method Add32(v: bv32, down: bv32) returns (r: bv32)
    ensures r == REGISTER32.xor(v, down)
  {
    r := v ^ down;
  }

  lemma ZeroAdds32()
    ensures forall x :: REGISTER32.xor(x, 0) == x
  {
    forall x ensures REGISTER32.xor(x, 0) == x { Zero32(x); }
  }

  method Entry32(i: bv8, ghost n: nat) returns (v: bv32)
    requires n == 8
    ensures v == Steps(REGISTER32, Wide32(i), n)
  {
    TableIsSteps32(i, n);
    v := Table32(i);
  }

  /** One look into the table is a byte's worth of the register's steps. */
  method Look32(c: bv32, b: bv8, ghost n: nat) returns (r: bv32)
    requires n == 8
    ensures r == Enter(REGISTER32, c, Wide32(b), n)
  {
    var i, down;
    ghost var hi;
    i, down, hi := Index32(c, b, n);
    var v := Entry32(i, n);
    RegisterFeeds32();
    ZeroAdds32();
    ByteStep(REGISTER32, c, Wide32(b), Wide32(i), hi, down, 0, n);
    r := Add32(v, down);
  }

  function Wide32(b: bv8): bv32 { b as bv32 }

  /** The bytes of a message as words. */
  ghost function Words32(m: seq<bv8>): seq<bv32> {
    seq(|m|, k requires 0 <= k < |m| => Wide32(m[k]))
  }

  lemma WordsAppend32(a: seq<bv8>, b: seq<bv8>)
    ensures Words32(a + b) == Words32(a) + Words32(b)
  {
  }

  // ----- the functions of the library

  /** XPR_CRC16 is the bit-serial register, for every message and start value. */
  method Crc16(start: bv16, buffer: seq<bv8>) returns (crc: bv16)
    ensures crc == Serial(REGISTER16, 8, start, Words16(buffer))
  {
    crc := start;
    ghost var words := Words16(buffer);
    var p := 0;
    while p < |buffer|
      invariant p <= |buffer| && Serial(REGISTER16, 8, crc, words[p..]) == Serial(REGISTER16, 8, start, words)
    {
      assert words[p..][1..] == words[p + 1..];
      crc := Look16(crc, buffer[p], 8);
      p := p + 1;
    }
  }

  ghost function Crc32Of(start: bv32, m: seq<bv8>): bv32 {
    Serial(REGISTER32, 8, start ^ 0xFFFF_FFFF, Words32(m)) ^ 0xFFFF_FFFF
  }

  /** XPR_CRC32 is the bit-serial register between two inversions. */
  method Crc32(start: bv32, buffer: seq<bv8>) returns (crc: bv32)
    ensures crc == Crc32Of(start, buffer)
  {
    crc := start ^ 0xFFFF_FFFF;
    ghost var words := Words32(buffer);
    var p := 0;
    while p < |buffer|
      invariant p <= |buffer|
      invariant Serial(REGISTER32, 8, crc, words[p..]) == Serial(REGISTER32, 8, start ^ 0xFFFF_FFFF, words)
    {
      assert words[p..][1..] == words[p + 1..];
      crc := Look32(crc, buffer[p], 8);
      p := p + 1;
    }
    crc := crc ^ 0xFFFF_FFFF;
  }

  /** The CRC of a first part, fed on as start value for the second, is the CRC of both. */
  lemma Crc32Concat(start: bv32, a: seq<bv8>, b: seq<bv8>)
    ensures Crc32Of(Crc32Of(start, a), b) == Crc32Of(start, a + b)
  {
    var c := start ^ 0xFFFF_FFFF;
    SerialAppend(REGISTER32, 8, c, Words32(a), Words32(b));
    TwiceInverted(Serial(REGISTER32, 8, c, Words32(a)));
    WordsAppend32(a, b);
  }

  lemma Crc16Concat(start: bv16, a: seq<bv8>, b: seq<bv8>)
    ensures Serial(REGISTER16, 8, Serial(REGISTER16, 8, start, Words16(a)), Words16(b))
      == Serial(REGISTER16, 8, start, Words16(a + b))
  {
    SerialAppend(REGISTER16, 8, start, Words16(a), Words16(b));
    WordsAppend16(a, b);
  }

  lemma TwiceInverted(c: bv32)
    ensures c ^ 0xFFFF_FFFF ^ 0xFFFF_FFFF == c
  {
  }

  // ----- the check values

  /** The register after one more byte, by the table. */
  function Next16(c: bv16, b: bv8): bv16 { Table16(((c ^ b as bv16) & 0xFF) as bv8) ^ (c >> 8) }

  lemma LookAt16(c: bv16, b: bv16, lo: bv16, hi: bv16, down: bv16, v: bv16, n: nat)
    requires n == 8 && Split16(c, b, lo, hi, down, n) && v == Steps(REGISTER16, lo, n)
    ensures Enter(REGISTER16, c, b, n) == REGISTER16.xor(v, down)
  {
    RegisterFeeds16();
    ZeroAdds16();
    ByteStep(REGISTER16, c, b, lo, hi, down, 0, n);
  }

  lemma SumIs16(v: bv16, down: bv16, r: bv16)
    requires r == REGISTER16.xor(v, down)
    ensures r == v ^ down
  {
  }

  lemma NextIs16(c: bv16, b: bv8, n: nat)
    requires n == 8
    ensures Enter(REGISTER16, c, Wide16(b), n) == Next16(c, b)
  {
    hide Table16, Steps, Enter, Split16;
    var i := ((c ^ b as bv16) & 0xFF) as bv8;
    IndexSplits16(c, b, n);
    TableIsSteps16(i, n);
    LookAt16(c, Wide16(b), Wide16(i), (c >> 8) << 8, c >> 8, Table16(i), n);
    SumIs16(Table16(i), c >> 8, Enter(REGISTER16, c, Wide16(b), n));
  }

  lemma {:induction false} SerialRun16(m: seq<bv8>, states: seq<bv16>, n: nat)
    requires n == 8 && |states| == |m| + 1 && forall i :: 0 <= i < |m| ==> states[i + 1] == Next16(states[i], m[i])
    ensures Serial(REGISTER16, n, states[0], Words16(m)) == states[|m|]
    decreases |m|
  {
    hide Next16, Enter;
    if m != [] {
      NextIs16(states[0], m[0], n);
      SerialRun16(m[1..], states[1..], n);
      assert Words16(m)[1..] == Words16(m[1..]);
    }
  }

  lemma CheckSteps16()
    ensures
      && Next16(0x0000, 0x31) == 0xD4C1
      && Next16(0xD4C1, 0x32) == 0x4594
      && Next16(0x4594, 0x33) == 0xBA04
      && Next16(0xBA04, 0x34) == 0x14BA
      && Next16(0x14BA, 0x35) == 0xA455
      && Next16(0xA455, 0x36) == 0x29E4
      && Next16(0x29E4, 0x37) == 0x9D68
      && Next16(0x9D68, 0x38) == 0x3C9D
      && Next16(0x3C9D, 0x39) == 0xBB3D
  {
  }

  /** The CRC-16 of "123456789" is 0xBB3D. */
  lemma CheckValue16()
    ensures var m: seq<bv8> := [0x31, 0x32, 0x33, 0x34, 0x35, 0x36, 0x37, 0x38, 0x39];
      Serial(REGISTER16, 8, 0, Words16(m)) == 0xBB3D
  {
    hide Next16;
    var m: seq<bv8> := [0x31, 0x32, 0x33, 0x34, 0x35, 0x36, 0x37, 0x38, 0x39];
    var states: seq<bv16> := [0x0000, 0xD4C1, 0x4594, 0xBA04, 0x14BA, 0xA455, 0x29E4, 0x9D68, 0x3C9D, 0xBB3D];
    CheckSteps16();
    SerialRun16(m, states, 8);
  }

  /** The register after one more byte, by the table. */
  function Next32(c: bv32, b: bv8): bv32 { Table32(((c ^ b as bv32) & 0xFF) as bv8) ^ (c >> 8) }

  lemma LookAt32(c: bv32, b: bv32, lo: bv32, hi: bv32, down: bv32, v: bv32, n: nat)
    requires n == 8 && Split32(c, b, lo, hi, down, n) && v == Steps(REGISTER32, lo, n)
    ensures Enter(REGISTER32, c, b, n) == REGISTER32.xor(v, down)
  {
    RegisterFeeds32();
    ZeroAdds32();
    ByteStep(REGISTER32, c, b, lo, hi, down, 0, n);
  }

  lemma SumIs32(v: bv32, down: bv32, r: bv32)
    requires r == REGISTER32.xor(v, down)
    ensures r == v ^ down
  {
  }

  lemma NextIs32(c: bv32, b: bv8, n: nat)
    requires n == 8
    ensures Enter(REGISTER32, c, Wide32(b), n) == Next32(c, b)
  {
    hide Table32, Steps, Enter, Split32;
    var i := ((c ^ b as bv32) & 0xFF) as bv8;
    IndexSplits32(c, b, n);
    TableIsSteps32(i, n);
    LookAt32(c, Wide32(b), Wide32(i), (c >> 8) << 8, c >> 8, Table32(i), n);
    SumIs32(Table32(i), c >> 8, Enter(REGISTER32, c, Wide32(b), n));
  }

  lemma {:induction false} SerialRun32(m: seq<bv8>, states: seq<bv32>, n: nat)
    requires n == 8 && |states| == |m| + 1 && forall i :: 0 <= i < |m| ==> states[i + 1] == Next32(states[i], m[i])
    ensures Serial(REGISTER32, n, states[0], Words32(m)) == states[|m|]
    decreases |m|
  {
    hide Next32, Enter;
    if m != [] {
      NextIs32(states[0], m[0], n);
      SerialRun32(m[1..], states[1..], n);
      assert Words32(m)[1..] == Words32(m[1..]);
    }
  }

  lemma CheckSteps32()
    ensures
      && Next32(0xFFFF_FFFF, 0x31) == 0x7C23_1048
      && Next32(0x7C23_1048, 0x32) == 0xB0AC_BB32
      && Next32(0xB0AC_BB32, 0x33) == 0x77B7_9C2D
      && Next32(0x77B7_9C2D, 0x34) == 0x641C_1F5C
      && Next32(0x641C_1F5C, 0x35) == 0x340A_C5E3
      && Next32(0x340A_C5E3, 0x36) == 0xF68D_2C9E
      && Next32(0xF68D_2C9E, 0x37) == 0xAFFC_9660
      && Next32(0xAFFC_9660, 0x38) == 0x651F_2550
      && Next32(0x651F_2550, 0x39) == 0x340B_C6D9
  {
  }

  /** The CRC-32 of "123456789" is 0xCBF43926. */
  lemma CheckValue32()
    ensures var m: seq<bv8> := [0x31, 0x32, 0x33, 0x34, 0x35, 0x36, 0x37, 0x38, 0x39];
      Crc32Of(0, m) == 0xCBF4_3926
  {
    hide Next32;
    var m: seq<bv8> := [0x31, 0x32, 0x33, 0x34, 0x35, 0x36, 0x37, 0x38, 0x39];
    var states: seq<bv32> := [0xFFFF_FFFF, 0x7C23_1048, 0xB0AC_BB32, 0x77B7_9C2D, 0x641C_1F5C,
                     0x340A_C5E3, 0xF68D_2C9E, 0xAFFC_9660, 0x651F_2550, 0x340B_C6D9];
    CheckSteps32();
    SerialRun32(m, states, 8);
    Inverted();
  }

  lemma Inverted()
    ensures 0 as bv32 ^ 0xFFFF_FFFF == 0xFFFF_FFFF && 0x340B_C6D9 as bv32 ^ 0xFFFF_FFFF == 0xCBF4_3926
  {
  }
}
