/** Bytes, ASCII character classes and hexadecimal digits: the vocabulary shared
    by the hex codecs, the stream cipher and the PROJECT-stream grammar. Every
    string of the program is modelled as the bytes it is made of. */
module Bytes {

  type byte = bv8
  type Bytes = seq<byte>

  /** The outcome of an operation that can fail with a typed error. */
  datatype Result<+T, +E> = Ok(value: T) | Err(error: E)

  /** A value that may be absent. */
  datatype Option<+T> = None | Some(value: T)

  /** A number below 256 as a byte, built from its binary digits. */
  function ByteOf(n: nat): (b: byte)
    requires n < 256
    ensures b as int == n
  {
    if n == 0 then 0
    else
      var half := ByteOf(n / 2);
      DoubleByte(half, n % 2 == 1);
      half * 2 + (if n % 2 == 1 then 1 else 0)
  }

  /** Bytes with the same numeric value are the same byte. */
  lemma SameByte(a: byte, b: byte)
    requires a as int == b as int
    ensures a == b
  {
  }

  lemma DoubleByte(h: byte, odd: bool)
    requires h < 128
    ensures (h * 2 + (if odd then 1 else 0)) as int == h as int * 2 + (if odd then 1 else 0)
  {
  }

  predicate IsDigit(b: byte) { 0x30 <= b <= 0x39 }
  predicate IsUpper(b: byte) { 0x41 <= b <= 0x5A }
  predicate IsLower(b: byte) { 0x61 <= b <= 0x7A }
  predicate IsAlpha(b: byte) { IsUpper(b) || IsLower(b) }
  predicate IsAlnum(b: byte) { IsAlpha(b) || IsDigit(b) }

  /** `0-9`, `A-F` or `a-f`. */
  predicate IsHexDigit(b: byte) { IsDigit(b) || 0x41 <= b <= 0x46 || 0x61 <= b <= 0x66 }

  predicate AllHexDigits(s: Bytes) { forall i :: 0 <= i < |s| ==> IsHexDigit(s[i]) }

  /** The value of one hex digit, upper or lower case. */
  function HexValue(b: byte): (v: byte)
    requires IsHexDigit(b)
    ensures v < 16
  {
    if IsDigit(b) then b - 0x30
    else if IsLower(b) then b - 0x61 + 10
    else b - 0x41 + 10
  }

  /** The hex digit of a nibble, in upper or lower case. */
  function HexDigit(v: byte, upper: bool): (b: byte)
    requires v < 16
    ensures IsHexDigit(b) && HexValue(b) == v
    ensures IsDigit(b) <==> v < 10
    ensures upper ==> !IsLower(b)
    ensures !upper ==> !IsUpper(b)
  {
    if v < 10 then 0x30 + v
    else if upper then 0x41 + (v - 10)
    else 0x61 + (v - 10)
  }

  /** The byte denoted by two hex digits: `(hi << 4) | lo`. */
  function PairValue(hi: byte, lo: byte): byte
    requires IsHexDigit(hi) && IsHexDigit(lo)
  {
    (HexValue(hi) << 4) | HexValue(lo)
  }

  /** A byte written as exactly two hex digits, most significant nibble first. */
  function HexPair(b: byte, upper: bool): (r: Bytes)
    ensures |r| == 2 && IsHexDigit(r[0]) && IsHexDigit(r[1])
    ensures PairValue(r[0], r[1]) == b
  {
    [HexDigit(b >> 4, upper), HexDigit(b & 0xF, upper)]
  }

  /** Bytes written as two hex digits each, without separator (the `{:02X}` and
      `{:02x}` formats). */
  function HexString(d: Bytes, upper: bool): (r: Bytes)
    ensures |r| == 2 * |d|
    ensures forall i :: 0 <= i < |d| ==> r[2 * i..2 * i + 2] == HexPair(d[i], upper)
  {
    if |d| == 0 then []
    else
      var tail := HexString(d[1..], upper);
      var r := HexPair(d[0], upper) + tail;
      assert forall i :: 1 <= i < |d| ==> r[2 * i..2 * i + 2] == tail[2 * (i - 1)..2 * (i - 1) + 2];
      r
  }

  /** Every byte of a hex string is a digit of the requested case, and each
      pair denotes the byte it was written from. */
  lemma HexStringDigits(d: Bytes, upper: bool)
    ensures AllHexDigits(HexString(d, upper))
    ensures forall j :: 0 <= j < |HexString(d, upper)| ==>
      (upper ==> !IsLower(HexString(d, upper)[j])) && (!upper ==> !IsUpper(HexString(d, upper)[j]))
    ensures forall i :: 0 <= i < |d| ==>
      PairValue(HexString(d, upper)[2 * i], HexString(d, upper)[2 * i + 1]) == d[i]
  {
    var r := HexString(d, upper);
    forall j | 0 <= j < |r|
      ensures IsHexDigit(r[j])
      ensures upper ==> !IsLower(r[j])
      ensures !upper ==> !IsUpper(r[j])
    {
      var i := j / 2;
      assert r[2 * i..2 * i + 2] == HexPair(d[i], upper);
      assert r[j] == HexPair(d[i], upper)[j - 2 * i];
    }
    forall i | 0 <= i < |d|
      ensures PairValue(r[2 * i], r[2 * i + 1]) == d[i]
    {
      assert r[2 * i..2 * i + 2] == HexPair(d[i], upper);
      assert r[2 * i] == HexPair(d[i], upper)[0];
      assert r[2 * i + 1] == HexPair(d[i], upper)[1];
    }
  }
}
