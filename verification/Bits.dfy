/** Bits of bytes and of numbers, the high bit first, as src/xpr_bitvector.c counts them. */
module Bits {
  import opened Common

  function Pow2(n: nat): (p: nat)
    ensures p > 0
  {
    if n == 0 then 1 else 2 * Pow2(n - 1)
  }

  /** The number that a string of bits says. */
  ghost function Val(bs: seq<bool>): nat {
    if bs == [] then 0 else 2 * Val(bs[..|bs| - 1]) + if bs[|bs| - 1] then 1 else 0
  }

  /** The low n bits of x. */
  ghost function Binary(x: nat, n: nat): (bs: seq<bool>)
    ensures |bs| == n
  {
    if n == 0 then [] else Binary(x / 2, n - 1) + [x % 2 == 1]
  }

  /** Writing a number down and reading it gives its low bits. */
  lemma {:induction false} ValOfBinary(x: nat, n: nat)
    ensures Val(Binary(x, n)) == x % Pow2(n)
    decreases n
  {
    if n > 0 {
      ValOfBinary(x / 2, n - 1);
      assert Binary(x, n)[..n - 1] == Binary(x / 2, n - 1);
      HalfMod(x, Pow2(n - 1));
    }
  }

  lemma HalfMod(x: nat, m: nat)
    requires m > 0
    ensures x % (2 * m) == 2 * (x / 2 % m) + x % 2
  {
    var q, r := x / 2 / m, x / 2 % m;
    assert x / 2 == m * q + r;
    assert x == 2 * m * q + (2 * r + x % 2) by { assert 2 * (m * q) == 2 * m * q; }
    DivModUnique(x, 2 * m, q, 2 * r + x % 2);
  }

  lemma DivModUnique(x: nat, m: nat, q: nat, r: nat)
    requires r < m && x == m * q + r
    ensures x / m == q && x % m == r
  {
    var d := x / m;
    assert x == m * d + x % m;
    if d > q {
      AtLeast(m, d, q);
    } else if d < q {
      AtLeast(m, q, d);
    }
  }

  lemma AtLeast(m: nat, d: nat, q: nat)
    requires d > q
    ensures m * d >= m * q + m
  {
    assert m * d == m * q + m * (d - q);
    assert m * (d - q) >= m by { Scale(m, d - q); }
  }

  lemma Scale(m: nat, d: nat)
    requires d >= 1
    ensures m * d >= m
  {
  }

  /** A string of bits is what its number says, in its length. */
  lemma {:induction false} BinaryOfVal(bs: seq<bool>)
    ensures Binary(Val(bs), |bs|) == bs
    ensures Val(bs) < Pow2(|bs|)
  {
    if bs != [] {
      var r := bs[..|bs| - 1];
      BinaryOfVal(r);
      assert Val(bs) / 2 == Val(r);
      assert bs == r + [bs[|bs| - 1]];
    }
  }

  /** x shifted right. */
  function Shr(x: nat, n: nat): nat {
    if n == 0 then x else Shr(x / 2, n - 1)
  }

  lemma {:induction false} ShrIsDiv(x: nat, n: nat)
    ensures Shr(x, n) == x / Pow2(n)
    decreases n
  {
    if n > 0 {
      ShrIsDiv(x / 2, n - 1);
      HalfDiv(x, Pow2(n - 1));
    }
  }

  lemma HalfDiv(x: nat, m: nat)
    requires m > 0
    ensures x / 2 / m == x / (2 * m)
  {
    var q, r := x / 2 / m, x / 2 % m;
    assert x / 2 == m * q + r;
    assert x == 2 * m * q + (2 * r + x % 2) by { assert 2 * (m * q) == 2 * m * q; }
    DivModUnique(x, 2 * m, q, 2 * r + x % 2);
  }

  /** The bits of x are the high ones and the low ones. */
  lemma {:induction false} BinaryAppend(x: nat, m: nat, n: nat)
    ensures Binary(x, m + n) == Binary(Shr(x, n), m) + Binary(x, n)
    decreases n
  {
    if n == 0 {
      assert Binary(x, m) + [] == Binary(x, m);
    } else {
      BinaryAppend(x / 2, m, n - 1);
      Assoc(Binary(Shr(x, n), m), Binary(x / 2, n - 1), [x % 2 == 1]);
    }
  }

  /** Only the low bits matter. */
  lemma {:induction false} BinaryMod(x: nat, n: nat, m: nat)
    requires n <= m
    ensures Binary(x % Pow2(m), n) == Binary(x, n)
    decreases n
  {
    if n > 0 {
      HalfMod(x, Pow2(m - 1));
      var y := x % Pow2(m);
      assert y / 2 == x / 2 % Pow2(m - 1) && y % 2 == x % 2;
      BinaryMod(x / 2, n - 1, m - 1);
    }
  }

  lemma {:induction false} BinaryAt(x: nat, n: nat, i: nat)
    requires i < n
    ensures Binary(x, n)[i] == (Shr(x, n - 1 - i) % 2 == 1)
    decreases n
  {
    if i < n - 1 { BinaryAt(x / 2, n - 1, i); }
  }

  // ----- bits of bytes

  const MASKS: seq<nat> := [128, 64, 32, 16, 8, 4, 2, 1]

  /** singleBitMask */
  function Mask(k: nat): (m: nat)
    requires k < 8
    ensures m > 0
  {
    MASKS[k]
  }

  predicate Bit(b: byte, k: nat)
    requires k < 8
  {
    b / Mask(k) % 2 == 1
  }

  /** Bit p of a buffer, counted from its first byte. */
  predicate BitAt(s: seq<byte>, p: nat)
    requires p < 8 * |s|
  {
    Bit(s[p / 8], p % 8)
  }

  /** n bits of a buffer from bit p on. */
  ghost function BitsAt(s: seq<byte>, p: nat, n: nat): (bs: seq<bool>)
    requires p + n <= 8 * |s|
    ensures |bs| == n
  {
    seq(n, i requires 0 <= i < n => BitAt(s, p + i))
  }

  lemma ShrByte(b: byte)
    ensures forall k :: 0 <= k < 8 ==> Shr(b, 7 - k) == b / Mask(k)
  {
    forall k | 0 <= k < 8 ensures Shr(b, 7 - k) == b / Mask(k) {
      assert Pow2(7) == 128 && Pow2(6) == 64 && Pow2(5) == 32 && Pow2(4) == 16 && Pow2(3) == 8 && Pow2(2) == 4;
      ShrIsDiv(b, 7 - k);
    }
  }

  function BitsOf(b: byte): (x: seq<bool>)
    ensures |x| == 8
  {
    seq(8, k requires 0 <= k < 8 => Bit(b, k))
  }

  /** A byte's bits are its binary form. */
  lemma ByteBits(b: byte)
    ensures BitsOf(b) == Binary(b, 8) && Val(BitsOf(b)) == b
  {
    ShrByte(b);
    forall k | 0 <= k < 8 ensures Bit(b, k) == Binary(b, 8)[k] { BinaryAt(b, 8, k); }
    assert BitsOf(b) == Binary(b, 8);
    ValOfBinary(b, 8);
    Pow2Is8();
  }

  lemma Pow2Is8()
    ensures Pow2(8) == 256
  {
  }

  /** Changing one bit changes the number by its weight. */
  lemma {:induction false} ValUpdate(x: seq<bool>, k: nat, v: bool)
    requires k < |x|
    ensures Val(x[k := v])
      == Val(x) + (if x[k] == v then 0 else if v then Pow2(|x| - 1 - k) else -(Pow2(|x| - 1 - k) as int))
  {
    var n := |x| - 1;
    if k < n {
      ValUpdate(x[..n], k, v);
      assert x[k := v][..n] == x[..n][k := v];
    } else {
      assert x[k := v][..n] == x[..n];
    }
  }

  /** The byte with bit k set or cleared: what or-ing the mask, or and-ing its complement, leaves. */
  function SetBit(b: byte, k: nat, v: bool): (r: byte)
    requires k < 8
    ensures BitsOf(r) == BitsOf(b)[k := v]
  {
    SetBitFacts(b, k, v);
    if v && !Bit(b, k) then b + Mask(k) else if !v && Bit(b, k) then b - Mask(k) else b
  }

  lemma SetBitFacts(b: byte, k: nat, v: bool)
    requires k < 8
    ensures var r := if v && !Bit(b, k) then b + Mask(k) else if !v && Bit(b, k) then b - Mask(k) else b;
      0 <= r < 256 && BitsOf(r) == BitsOf(b)[k := v]
  {
    var x := BitsOf(b);
    ByteBits(b);
    ValUpdate(x, k, v);
    BinaryOfVal(x[k := v]);
    Pow2Is8();
    MaskIsPow2(k);
    ByteBits(Val(x[k := v]));
  }

  lemma MaskIsPow2(k: nat)
    requires k < 8
    ensures Mask(k) == Pow2(7 - k)
  {
    assert Pow2(7) == 128 && Pow2(6) == 64 && Pow2(5) == 32 && Pow2(4) == 16 && Pow2(3) == 8 && Pow2(2) == 4;
  }
}
