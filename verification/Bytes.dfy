/** Bytes, little-endian 32-bit lengths and the hexadecimal text of a checksum. */
module Bytes {
  import opened Wrappers

  type Byte = x: int | 0 <= x < 256

  const U32_LIMIT: nat := 0x1_0000_0000

  /** The four bytes `u32::to_le_bytes` produces. */
  function Le32(n: nat): (r: seq<Byte>)
    requires n < U32_LIMIT
    ensures |r| == 4
  {
    [n % 256, n / 256 % 256, n / 65536 % 256, n / 16777216]
  }

  /** The number `u32::from_le_bytes` reads. */
  function FromLe32(b: seq<Byte>): (n: nat)
    requires |b| == 4
    ensures n < U32_LIMIT
  {
    var b0: int, b1: int, b2: int, b3: int := b[0], b[1], b[2], b[3];
    b0 + 256 * b1 + 65536 * b2 + 16777216 * b3
  }

  lemma Le32RoundTrip(n: nat)
    requires n < U32_LIMIT
    ensures FromLe32(Le32(n)) == n
  {
    var q1, q2 := n / 256, n / 65536;
    assert q2 == q1 / 256;
    assert n / 16777216 == q2 / 256;
  }

  /** Four bytes that add up to `n`, the lowest one first. */
  ghost predicate LittleEndian(b: seq<Byte>, n: int) {
    |b| == 4 &&
    var b0: int, b1: int, b2: int, b3: int := b[0], b[1], b[2], b[3];
    n == b0 + 256 * b1 + 65536 * b2 + 16777216 * b3
  }

  lemma Le32LittleEndian(n: nat)
    requires n < U32_LIMIT
    ensures LittleEndian(Le32(n), n)
  {
    Le32RoundTrip(n);
  }

  lemma LowByte(b: Byte, high: nat)
    ensures (b + 256 * high) % 256 == b && (b + 256 * high) / 256 == high
  {
  }

  lemma FromLe32RoundTrip(b: seq<Byte>)
    requires |b| == 4
    ensures Le32(FromLe32(b)) == b
  {
    var n := FromLe32(b);
    var b0: int, b1: int, b2: int, b3: int := b[0], b[1], b[2], b[3];
    var n2 := b2 + 256 * b3;
    var n1 := b1 + 256 * n2;
    assert n == b0 + 256 * n1;
    LowByte(b[0], n1);
    LowByte(b[1], n2);
    LowByte(b[2], b[3]);
    assert n / 65536 == n / 256 / 256 && n / 16777216 == n / 256 / 256 / 256;
  }

  function HexDigit(n: nat): (c: char)
    requires n < 16
  {
    "0123456789abcdef"[n]
  }

  function HexValue(c: char): Option<nat> {
    if '0' <= c <= '9' then Some((c - '0') as nat)
    else if 'a' <= c <= 'f' then Some((c - 'a') as nat + 10)
    else if 'A' <= c <= 'F' then Some((c - 'A') as nat + 10)
    else None
  }

  /** `hex::encode`: two lower-case digits a byte. */
  function HexEncode(bs: seq<Byte>): (s: string)
    ensures |s| == 2 * |bs|
  {
    if bs == [] then ""
    else [HexDigit(bs[0] / 16), HexDigit(bs[0] % 16)] + HexEncode(bs[1..])
  }

  /** `hex::FromHex::from_hex`. */
  function HexDecode(s: string): Option<seq<Byte>> {
    if s == "" then Some([])
    else if |s| == 1 then None
    else
      var hi, lo, rest := HexValue(s[0]), HexValue(s[1]), HexDecode(s[2..]);
      if hi.Some? && lo.Some? && rest.Some? && 16 * hi.value + lo.value < 256
      then Some([16 * hi.value + lo.value] + rest.value)
      else None
  }

  lemma HexDigitRoundTrip(n: nat)
    requires n < 16
    ensures HexValue(HexDigit(n)) == Some(n)
  {
  }

  lemma HexDigitsSplit(b: Byte)
    ensures 0 <= b / 16 < 16 && 0 <= b % 16 < 16 && 16 * (b / 16) + b % 16 == b
  {
  }

  /** Two digits at the front give one byte. */
  lemma DecodeOne(hi: nat, lo: nat, rest: string)
    requires hi < 16 && lo < 16 && HexDecode(rest).Some?
    ensures HexDecode([HexDigit(hi), HexDigit(lo)] + rest) == Some([16 * hi + lo] + HexDecode(rest).value)
  {
    var s := [HexDigit(hi), HexDigit(lo)] + rest;
    HexDigitRoundTrip(hi);
    HexDigitRoundTrip(lo);
    assert s[0] == HexDigit(hi) && s[1] == HexDigit(lo) && s[2..] == rest;
  }

  lemma {:induction false} HexRoundTrip(bs: seq<Byte>)
    ensures HexDecode(HexEncode(bs)) == Some(bs)
  {
    if bs != [] {
      HexRoundTrip(bs[1..]);
      HexDigitsSplit(bs[0]);
      DecodeOne(bs[0] / 16, bs[0] % 16, HexEncode(bs[1..]));
      assert bs == [bs[0]] + bs[1..];
    }
  }

  /** A byte's two digits stand at their places, the high one first. */
  lemma {:induction false} HexEncodeDigits(bs: seq<Byte>, i: nat)
    requires i < |bs|
    ensures HexEncode(bs)[2 * i] == "0123456789abcdef"[bs[i] / 16]
    ensures HexEncode(bs)[2 * i + 1] == "0123456789abcdef"[bs[i] % 16]
  {
    if i > 0 {
      HexEncodeDigits(bs[1..], i - 1);
      assert HexEncode(bs)[2..] == HexEncode(bs[1..]);
      assert HexEncode(bs)[2 * i] == HexEncode(bs)[2..][2 * (i - 1)];
      assert HexEncode(bs)[2 * i + 1] == HexEncode(bs)[2..][2 * (i - 1) + 1];
    }
  }

  /** A digit is read in either case. */
  lemma HexValueExactly(c: char, n: nat)
    requires n < 16
    ensures HexValue(c) == Some(n) <==> c == "0123456789abcdef"[n] || c == "0123456789ABCDEF"[n]
  {
  }

  lemma Le32Samples()
    ensures Le32(1) == [1, 0, 0, 0] && Le32(256) == [0, 1, 0, 0]
    ensures Le32(0x0102_0304) == [4, 3, 2, 1] && Le32(0xffff_fffe) == [254, 255, 255, 255]
  {
  }
}
