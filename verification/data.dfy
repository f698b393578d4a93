/** The `Data` byte buffer and its hex-text conversions (`FromStr` reads hex,
    `Display` writes it). */
module Data {
  import opened Bytes

  /** The text that was not valid hex, carried whole. */
  datatype InvalidHex = InvalidHex(text: Bytes)

  /** The bytes denoted by consecutive digit pairs; an odd trailing digit is
      dropped (`chunks_exact(2)`). */
  function Pairs(s: Bytes): (r: Bytes)
    requires AllHexDigits(s)
    ensures |r| == |s| / 2
    ensures forall i :: 0 <= i < |r| ==> r[i] == PairValue(s[2 * i], s[2 * i + 1])
  {
    if |s| < 2 then []
    else
      var tail := Pairs(s[2..]);
      assert forall i :: 1 <= i < |s| / 2 ==> tail[i - 1] == PairValue(s[2 * i], s[2 * i + 1]);
      [PairValue(s[0], s[1])] + tail
  }

  /** `Data::from_str`: every byte must be a hex digit, else the whole text is
      returned in the error; otherwise the pairs are decoded left to right. */
  function FromStr(s: Bytes): (r: Result<Bytes, InvalidHex>)
    ensures r.Err? <==> exists i :: 0 <= i < |s| && !IsHexDigit(s[i])
    ensures r.Err? ==> r.error == InvalidHex(s)
    ensures r.Ok? ==> |r.value| == |s| / 2
    ensures r.Ok? ==> forall i :: 0 <= i < |r.value| ==> r.value[i] == PairValue(s[2 * i], s[2 * i + 1])
  {
    if AllHexDigits(s) then Ok(Pairs(s)) else Err(InvalidHex(s))
  }

  /** `Display for Data`: two upper-case hex digits per byte, no separator. */
  function Display(d: Bytes): (r: Bytes)
    ensures |r| == 2 * |d|
    ensures forall i :: 0 <= i < |r| ==> IsHexDigit(r[i]) && !IsLower(r[i])
  {
    HexStringDigits(d, true);
    HexString(d, true)
  }

  /** Reading back a hex string of either case gives the bytes written. */
  lemma {:induction false} PairsOfHexString(d: Bytes, upper: bool)
    ensures AllHexDigits(HexString(d, upper))
    ensures Pairs(HexString(d, upper)) == d
  {
    var s := HexString(d, upper);
    HexStringDigits(d, upper);
    var r := Pairs(s);
    assert |r| == |d|;
    assert forall i :: 0 <= i < |d| ==> r[i] == d[i];
  }

  /** Writing then reading hex is the identity. */
  lemma DisplayThenFromStr(d: Bytes)
    ensures FromStr(Display(d)) == Ok(d)
  {
    PairsOfHexString(d, true);
  }

  /** Upper and lower case digits denote the same bytes. */
  lemma FromStrIgnoresCase(d: Bytes)
    ensures FromStr(HexString(d, false)) == FromStr(HexString(d, true)) == Ok(d)
  {
    PairsOfHexString(d, false);
    PairsOfHexString(d, true);
  }
}
