/** The Base64 coder of src/xpr_base64.c (section 4 of RFC 4648). */
module Base64 {
  import opened Common
  import Bits

  /** The alphabet: A to Z, a to z, 0 to 9, plus and slash. */
  function Digit(v: nat): char
    requires v < 64
  {
    if v < 26 then 'A' + v as char
    else if v < 52 then 'a' + (v - 26) as char
    else if v < 62 then '0' + (v - 52) as char
    else if v == 62 then '+'
    else '/'
  }

  /** The decoding table. A padding character counts as zero, and so does every character outside the alphabet. */
  function Value(c: char): (v: nat)
    ensures v < 64
  {
    if 'A' <= c <= 'Z' then c as int - 'A' as int
    else if 'a' <= c <= 'z' then 26 + (c as int - 'a' as int)
    else if '0' <= c <= '9' then 52 + (c as int - '0' as int)
    else if c == '+' then 62
    else if c == '/' then 63
    else 0
  }

  /** The table undoes the alphabet, and no digit is the padding character. */
  lemma ValueOfDigit(v: nat)
    requires v < 64
    ensures Value(Digit(v)) == v && Digit(v) != '='
  {
  }

  /** Table 1 of RFC 4648, sixteen to a row. */
  ghost function Alphabet(v: nat): char
    requires v < 64
  {
    if v < 16 then "ABCDEFGHIJKLMNOP"[v]
    else if v < 32 then "QRSTUVWXYZabcdef"[v - 16]
    else if v < 48 then "ghijklmnopqrstuv"[v - 32]
    else "wxyz0123456789+/"[v - 48]
  }

  lemma DigitIs(v: nat)
    requires v < 64
    ensures Digit(v) == Alphabet(v)
  {
  }

  /** A character of the alphabet stands for its place in it, any other for zero. */
  lemma ValueIs(c: char)
    ensures forall v: nat :: v < 64 && Alphabet(v) == c ==> Value(c) == v
    ensures (forall v: nat :: v < 64 ==> Alphabet(v) != c) ==> Value(c) == 0
  {
    hide Alphabet;
    forall v: nat | v < 64 && Alphabet(v) == c ensures Value(c) == v { DigitIs(v); }
    DigitIs(Value(c));
  }

  // ----- what a text says, and how bytes are written

  /** Three bytes from four digits. */
  function Bytes(a: nat, b: nat, c: nat, d: nat): (r: seq<byte>)
    requires a < 64 && b < 64 && c < 64 && d < 64
    ensures |r| == 3
  {
    [4 * a + b / 16, b % 16 * 16 + c / 4, c % 4 * 64 + d]
  }

  function Group(q: string): (r: seq<byte>)
    requires |q| == 4
    ensures |r| == 3
  {
    Bytes(Value(q[0]), Value(q[1]), Value(q[2]), Value(q[3]))
  }

  ghost function Decoded(s: string): seq<byte> {
    if |s| < 4 then [] else Group(s[..4]) + Decoded(s[4..])
  }

  /** The padding characters in the whole groups of four. */
  ghost function Pads(s: string): nat {
    if |s| < 4 then 0 else GroupPads(s[..4]) + Pads(s[4..])
  }

  function GroupPads(q: string): nat
    requires |q| == 4
  {
    Pad(q[0]) + Pad(q[1]) + Pad(q[2]) + Pad(q[3])
  }

  function Pad(c: char): nat { if c == '=' then 1 else 0 }

  /** At most `pads` zero bytes go from the end. */
  ghost function Trimmed(r: seq<byte>, pads: nat): seq<byte>
    decreases pads
  {
    if pads > 0 && r != [] && r[|r| - 1] == 0 then Trimmed(r[..|r| - 1], pads - 1) else r
  }

  function Quad(a: byte, b: byte, c: byte): (q: string)
    ensures |q| == 4
  {
    [Digit(a / 4), Digit(a % 4 * 16 + b / 16), Digit(b % 16 * 4 + c / 64), Digit(c % 64)]
  }

  /** The last group, for one or two bytes. */
  function Last(d: seq<byte>): (q: string)
    requires 1 <= |d| <= 2
    ensures |q| == 4
  {
    if |d| == 1 then [Digit(d[0] / 4), Digit(d[0] % 4 * 16), '=', '=']
    else [Digit(d[0] / 4), Digit(d[0] % 4 * 16 + d[1] / 16), Digit(d[1] % 16 * 4), '=']
  }

  ghost function Encoded(d: seq<byte>): string {
    if d == [] then "" else if |d| < 3 then Last(d) else Quad(d[0], d[1], d[2]) + Encoded(d[3..])
  }

  ghost function ByteAt(d: seq<byte>, i: nat): byte { if i < |d| then d[i] else 0 }

  lemma {:induction false} EncodedLength(d: seq<byte>)
    ensures |Encoded(d)| == 4 * ((|d| + 2) / 3)
    decreases |d|
  {
    if |d| >= 3 { EncodedLength(d[3..]); }
  }

  /** The 24 bits from the k-th byte on, filled up with zeros. */
  ghost function Bits24(d: seq<byte>, k: nat): nat {
    0x1_0000 * ByteAt(d, k) as int + 0x100 * ByteAt(d, k + 1) as int + ByteAt(d, k + 2) as int
  }

  /** The j-th group of six bits, highest first. */
  ghost function SixOf(n: nat, j: nat): (v: nat)
    ensures v < 64
  {
    (if j == 0 then n / 0x4_0000 else if j == 1 then n / 0x1000 else if j == 2 then n / 0x40 else n) % 64
  }

  /** The text, character by character: three bytes, filled up with zeros, are four groups of six bits, each a
      character of the alphabet; those with no bit of the bytes are padding. */
  lemma {:induction false} EncodedAt(d: seq<byte>, i: nat)
    requires i < 4 * ((|d| + 2) / 3)
    ensures |Encoded(d)| == 4 * ((|d| + 2) / 3)
    ensures var g, j := i / 4, i % 4;
      Encoded(d)[i] == if j > |d| - 3 * g then '=' else Alphabet(SixOf(Bits24(d, 3 * g), j))
    decreases |d|
  {
    hide Encoded, SixOf, Alphabet;
    EncodedLength(d);
    if i >= 4 {
      EncodedAt(d[3..], i - 4);
      EncodedTail(d, i);
      assert (i - 4) / 4 == i / 4 - 1 && (i - 4) % 4 == i % 4;
      assert Bits24(d[3..], 3 * (i / 4 - 1)) == Bits24(d, 3 * (i / 4));
    } else {
      EncodedHead(d, i);
    }
  }

  lemma EncodedTail(d: seq<byte>, i: nat)
    requires 4 <= i < |Encoded(d)|
    ensures |d| >= 3 && i - 4 < |Encoded(d[3..])| && Encoded(d)[i] == Encoded(d[3..])[i - 4]
  {
    hide Digit;
  }

  lemma EncodedHead(d: seq<byte>, i: nat)
    requires d != [] && i < 4
    ensures |Encoded(d)| >= 4
    ensures Encoded(d)[i] == if i > |d| then '=' else Alphabet(SixOf(Bits24(d, 0), i))
  {
    hide Digit, Alphabet;
    FirstDigits(ByteAt(d, 0), ByteAt(d, 1), ByteAt(d, 2));
  }

  lemma FirstDigits(a: byte, b: byte, c: byte)
    ensures var n := 0x1_0000 * a as int + 0x100 * b as int + c as int;
      && Digit(a / 4) == Alphabet(n / 0x4_0000 % 64) && Digit(a % 4 * 16 + b / 16) == Alphabet(n / 0x1000 % 64)
      && Digit(b % 16 * 4 + c / 64) == Alphabet(n / 0x40 % 64) && Digit(c % 64) == Alphabet(n % 64)
  {
    hide Digit, Alphabet;
    var n := 0x1_0000 * a as int + 0x100 * b as int + c as int;
    DigitIs(a / 4);
    DigitIs(a % 4 * 16 + b / 16);
    DigitIs(b % 16 * 4 + c / 64);
    DigitIs(c % 64);
    Sixes(a, b, c);
  }

  lemma Sixes(a: byte, b: byte, c: byte)
    ensures var n := 0x1_0000 * a as int + 0x100 * b as int + c as int;
      n / 0x4_0000 % 64 == a / 4 && n / 0x1000 % 64 == a % 4 * 16 + b / 16
      && n / 0x40 % 64 == b % 16 * 4 + c / 64 && n % 64 == c % 64
  {
    var n := 0x1_0000 * a as int + 0x100 * b as int + c as int;
    var x, y, z := a as int / 4, b as int / 16, c as int / 64;
    Bits.DivModUnique(n, 0x4_0000, x, 0x1_0000 * (a as int % 4) + 0x100 * b as int + c as int);
    Bits.DivModUnique(n, 0x1000, 64 * x + (a as int % 4 * 16 + y), 0x100 * (b as int % 16) + c as int);
    Bits.DivModUnique(n, 0x40, 64 * (16 * a as int + y) + (b as int % 16 * 4 + z), c as int % 64);
    Bits.DivModUnique(64 * x + (a as int % 4 * 16 + y), 64, x, a as int % 4 * 16 + y);
    Bits.DivModUnique(64 * (16 * a as int + y) + (b as int % 16 * 4 + z), 64, 16 * a as int + y, b as int % 16 * 4 + z);
  }

  function Missing(n: nat): nat { (3 - n % 3) % 3 }

  lemma ThreeBytes(a: byte, b: byte, c: byte)
    ensures Bytes(a / 4, a % 4 * 16 + b / 16, b % 16 * 4 + c / 64, c % 64) == [a, b, c]
  {
  }

  /** One whole group of a text. */
  lemma DecodedGroup(q: string, s: string)
    requires |q| == 4
    ensures Decoded(q + s) == Group(q) + Decoded(s) && Pads(q + s) == GroupPads(q) + Pads(s)
    ensures Decoded(q) == Group(q) && Pads(q) == GroupPads(q)
    ensures Decoded("") == [] && Pads("") == 0
  {
    hide Group, GroupPads;
    assert (q + s)[..4] == q && (q + s)[4..] == s && q[..4] == q && q[4..] == "";
    assert Group(q) + [] == Group(q);
  }

  lemma QuadGroup(a: byte, b: byte, c: byte)
    ensures Group(Quad(a, b, c)) == [a, b, c] && GroupPads(Quad(a, b, c)) == 0
  {
    hide Digit, Value, Bytes;
    ValueOfDigit(a / 4);
    ValueOfDigit(a % 4 * 16 + b / 16);
    ValueOfDigit(b % 16 * 4 + c / 64);
    ValueOfDigit(c % 64);
    ThreeBytes(a, b, c);
  }

  /** Decoding what was encoded gives the bytes, filled up with zeros to whole groups, and the padding tells
      how many those are. */
  lemma {:induction false} DecodedEncoded(d: seq<byte>)
    ensures Decoded(Encoded(d)) == d + Copies(0, Missing(|d|)) && Pads(Encoded(d)) == Missing(|d|)
    decreases |d|
  {
    hide Quad, Last, Group, GroupPads, Decoded, Pads, Copies;
    NoZeros();
    if d == [] {
      DecodedGroup("AAAA", "");
    } else if |d| < 3 {
      DecodedGroup(Last(d), "");
      LastGroup(d);
    } else {
      DecodedGroup(Quad(d[0], d[1], d[2]), Encoded(d[3..]));
      QuadGroup(d[0], d[1], d[2]);
      DecodedEncoded(d[3..]);
      Assoc([d[0], d[1], d[2]], d[3..], Copies(0, Missing(|d|)));
      assert [d[0], d[1], d[2]] + d[3..] == d;
    }
  }

  lemma NoZeros()
    ensures Copies(0, 0) == [] && Copies(0, 1) == [0] && Copies(0, 2) == [0, 0]
  {
  }

  lemma LastGroup(d: seq<byte>)
    requires 1 <= |d| <= 2
    ensures Group(Last(d)) == d + Copies(0, 3 - |d|) && GroupPads(Last(d)) == 3 - |d|
  {
    hide Digit, Value, Bytes;
    var a, b := d[0], if |d| == 1 then 0 else d[1];
    ValueOfDigit(a / 4);
    ValueOfDigit(a % 4 * 16 + b / 16);
    ValueOfDigit(b % 16 * 4);
    PadIsZero();
    ThreeBytes(a, b, 0);
  }

  lemma PadIsZero()
    ensures Value('=') == 0
  {
  }

  lemma {:induction false} TrimmedZeros(d: seq<byte>, n: nat)
    ensures Trimmed(d + Copies(0, n), n) == d
  {
    if n == 0 {
      assert d + Copies(0, 0) == d;
    } else {
      assert (d + Copies(0, n))[..|d| + n - 1] == d + Copies(0, n - 1);
      TrimmedZeros(d, n - 1);
    }
  }

  /** The round trip: with trimming every byte string comes back, also one that ends in zeros; without, it comes
      back filled up with zeros. */
  lemma RoundTrip(d: seq<byte>)
    ensures var s := Encoded(d); Trimmed(Decoded(s), Pads(s)) == d && Decoded(s) == d + Copies(0, Missing(|d|))
  {
    DecodedEncoded(d);
    TrimmedZeros(d, Missing(|d|));
  }

  // ----- encoding

  /** XPR_Base64Encode, with a zero behind the text. */
  method Encode(orig: seq<byte>) returns (result: array<char>)
    ensures fresh(result) && result.Length == |Encoded(orig)| + 1
    ensures result[..|Encoded(orig)|] == Encoded(orig) && result[|Encoded(orig)|] == '\0'
  {
    hide Encoded, Quad, Last;
    var groups := |orig| / 3;
    var havePadding := |orig| > groups * 3;
    var havePadding2 := |orig| == groups * 3 + 2;
    var size := 4 * (groups + if havePadding then 1 else 0);
    result := new char[size + 1];
    assert result[..0] + Encoded(orig[0..]) == Encoded(orig);
    for i := 0 to groups
      invariant result[..4 * i] + Encoded(orig[3 * i..]) == Encoded(orig)
    {
      var q := Quad(orig[3 * i], orig[3 * i + 1], orig[3 * i + 2]);
      EncodedStep(orig, i);
      Assoc(result[..4 * i], q, Encoded(orig[3 * i + 3..]));
      PutQuad(result, 4 * i, q);
    }
    EncodedEnd(orig, groups);
    if havePadding {
      var rest := if havePadding2 then [orig[3 * groups], orig[3 * groups + 1]] else [orig[3 * groups]];
      assert rest == orig[3 * groups..];
      PutQuad(result, 4 * groups, Last(rest));
    } else {
      assert result[..size] + "" == result[..size];
    }
    assert result[..size] == Encoded(orig);
    result[size] := '\0';
  }

  method PutQuad(result: array<char>, at: nat, q: string)
    requires |q| == 4 && at + 4 < result.Length
    modifies result
    ensures result[..at + 4] == old(result[..at]) + q && result[..at] == old(result[..at])
  {
    result[at] := q[0];
    result[at + 1] := q[1];
    result[at + 2] := q[2];
    result[at + 3] := q[3];
  }

  lemma EncodedEnd(orig: seq<byte>, groups: nat)
    requires groups == |orig| / 3
    ensures var rest := orig[3 * groups..]; Encoded(rest) == if rest == [] then "" else Last(rest)
  {
  }

  lemma EncodedStep(orig: seq<byte>, i: nat)
    requires 3 * i + 3 <= |orig|
    ensures Encoded(orig[3 * i..]) == Quad(orig[3 * i], orig[3 * i + 1], orig[3 * i + 2]) + Encoded(orig[3 * i + 3..])
  {
    assert orig[3 * i..][3..] == orig[3 * i + 3..];
  }

  // ----- decoding

  /** XPR_Base64Decode of the first `size` characters. Characters behind the last whole group of four are not read. */
  method Decode(s: string, size: nat, trimTrailingZeros: bool) returns (out: array<byte>, k: nat)
    requires size <= |s|
    ensures fresh(out) && out.Length == |s| && k <= |s|
    ensures var t := s[..size]; out[..k] == if trimTrailingZeros then Trimmed(Decoded(t), Pads(t)) else Decoded(t)
  {
    hide *;
    out := new byte[|s|];
    var paddingCount;
    k, paddingCount := DecodeGroups(s[..size], out);
    if trimTrailingZeros {
      k := Trim(out, k, paddingCount);
    }
  }

  method DecodeGroups(t: string, out: array<byte>) returns (k: nat, paddingCount: nat)
    requires |t| <= out.Length
    modifies out
    ensures k <= |t| && out[..k] == Decoded(t) && paddingCount == Pads(t)
  {
    hide Decoded, Pads, Group, GroupPads;
    var j := 0;
    ghost var n := 0;
    k, paddingCount := 0, 0;
    assert t[0..] == t;
    while j + 3 < |t|
      invariant j == 4 * n && k == 3 * n && j <= |t|
      invariant out[..k] + Decoded(t[j..]) == Decoded(t)
      invariant paddingCount + Pads(t[j..]) == Pads(t)
    {
      var q := t[j..j + 4];
      assert t[j..] == q + t[j + 4..];
      DecodedGroup(q, t[j + 4..]);
      Assoc(out[..k], Group(q), Decoded(t[j + 4..]));
      PutBytes(out, k, Group(q));
      paddingCount := paddingCount + GroupPads(q);
      k, j, n := k + 3, j + 4, n + 1;
    }
    ShortText(t[j..]);
  }

  method Trim(out: array<byte>, length: nat, pads: nat) returns (k: nat)
    requires length <= out.Length
    ensures k <= length && out[..k] == Trimmed(out[..length], pads)
  {
    var paddingCount := pads;
    k := length;
    while paddingCount > 0 && k > 0 && out[k - 1] == 0
      invariant k <= length && Trimmed(out[..k], paddingCount) == Trimmed(out[..length], pads)
    {
      assert out[..k][..k - 1] == out[..k - 1];
      k, paddingCount := k - 1, paddingCount - 1;
    }
  }

  method PutBytes(out: array<byte>, k: nat, r: seq<byte>)
    requires |r| == 3 && k + 3 <= out.Length
    modifies out
    ensures out[..k + 3] == old(out[..k]) + r
  {
    out[k] := r[0];
    out[k + 1] := r[1];
    out[k + 2] := r[2];
  }

  lemma ShortText(t: string)
    requires |t| < 4
    ensures Decoded(t) == [] && Pads(t) == 0
  {
  }

  /** Encoding, then decoding with trimming. */
  method EncodeThenDecode(orig: seq<byte>) returns (out: array<byte>, k: nat)
    ensures k <= out.Length && out[..k] == orig
  {
    var text := Encode(orig);
    ghost var s := Encoded(orig);
    RoundTrip(orig);
    assert text[..text.Length - 1] == s && s[..|s|] == s;
    out, k := Decode(text[..text.Length - 1], text.Length - 1, true);
  }
}
