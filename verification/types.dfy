/** `i32_from_hex_bytes` and `u128_from_hex_bytes`: a slice taken from the
    stream is read as UTF-8 text and then as a radix-16 number of the
    type. Either failure is a nom error at the slice itself. */
module Types {
  import opened Bytes
  import Utf8
  import opened Radix

  /** The shared body of the two helpers, for integer type `t`. */
  function FromHexBytes(bytes: Bytes, t: IntType): (r: Result<int, Bytes>)
    ensures r.Ok? ==> t.min <= r.value <= t.max
    ensures r.Err? ==> r.error == bytes
  {
    if !Utf8.Valid(bytes) then Err(bytes)
    else
      match FromStrRadix(bytes, true, t)
      case None => Err(bytes)
      case Some(v) => Ok(v)
  }

  function I32FromHexBytes(bytes: Bytes): (r: Result<int, Bytes>)
    ensures r.Ok? ==> I32.min <= r.value <= I32.max
    ensures r.Err? ==> r.error == bytes
  {
    FromHexBytes(bytes, I32)
  }

  function U128FromHexBytes(bytes: Bytes): (r: Result<int, Bytes>)
    ensures r.Ok? ==> 0 <= r.value <= U128.max
    ensures r.Err? ==> r.error == bytes
  {
    FromHexBytes(bytes, U128)
  }

  /** Digits are ASCII and so pass the UTF-8 check. */
  lemma DigitsValid(n: nat, w: nat)
    ensures Utf8.Valid(Digits(n, w, true))
  {
    var s := Digits(n, w, true);
    assert forall i :: 0 <= i < |s| ==> IsDigitOf(s[i], true);
    Utf8.AsciiValid(s);
  }

  /** Upper-case hex digits of a value in `t` read back as that value. */
  lemma ReadsHex(n: nat, w: nat, t: IntType)
    requires 0 < w && n < Pow(16, w) && t.min <= n <= t.max
    ensures FromHexBytes(Digits(n, w, true), t) == Ok(n)
  {
    DigitsValid(n, w);
    ReadsDigits(n, w, true, t);
  }

  /** Eight hex digits of a non-negative `i32` read back as it. */
  lemma I32ReadsHex(n: nat)
    requires n <= I32.max
    ensures I32FromHexBytes(Digits(n, 8, true)) == Ok(n)
  {
    HexPowers();
    ReadsHex(n, 8, I32);
  }

  /** Eight hex digits with the top bit set are rejected rather than wrapped
      to a negative `i32`: `80000000` to `FFFFFFFF` are errors. */
  lemma I32RejectsHighBit(n: nat)
    requires I32.max < n < 0x1_0000_0000
    ensures I32FromHexBytes(Digits(n, 8, true)) == Err(Digits(n, 8, true))
  {
    HexPowers();
    DigitsValid(n, 8);
    RejectsOutOfRange(n, 8, true, I32);
  }

  /** A sign in the first position is accepted: `-` followed by seven hex
      digits is a negative `i32`, `+` followed by seven is a positive one. */
  lemma I32AcceptsSign(n: nat)
    requires n < 0x1000_0000
    ensures I32FromHexBytes([MINUS] + Digits(n, 7, true)) == Ok(-(n as int))
    ensures I32FromHexBytes([PLUS] + Digits(n, 7, true)) == Ok(n)
  {
    var s := Digits(n, 7, true);
    forall sign: byte | sign == MINUS || sign == PLUS
      ensures Utf8.Valid([sign] + s)
    {
      assert forall i :: 0 <= i < |[sign] + s| ==> ([sign] + s)[i] <= 0x7F;
      Utf8.AsciiValid([sign] + s);
    }
    HexPowers();
    ReadsMinus(n, 7, true, I32);
    ReadsPlus(n, 7, true, I32);
  }

  /** Hex digits of a `u128` read back as it. */
  lemma U128ReadsHex(n: nat, w: nat)
    requires 0 < w && n < Pow(16, w) && n <= U128.max
    ensures U128FromHexBytes(Digits(n, w, true)) == Ok(n)
  {
    ReadsHex(n, w, U128);
  }

  /** A `-` is never accepted for the unsigned type. */
  lemma U128RejectsMinus(bytes: Bytes)
    requires |bytes| > 0 && bytes[0] == MINUS
    ensures U128FromHexBytes(bytes) == Err(bytes)
  {
    UnsignedRejectsMinus(bytes, true, U128);
  }

  /** A slice holding a byte outside ASCII is an error carrying the slice,
      whether it is malformed UTF-8 or well-formed non-digit text. */
  lemma NonAsciiRejected(bytes: Bytes, t: IntType, k: nat)
    requires k < |bytes| && bytes[k] > 0x7F
    ensures FromHexBytes(bytes, t) == Err(bytes)
  {
    Radix.NonAsciiRejected(bytes, true, t, k);
  }
}
