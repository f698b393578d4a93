/** Well-formed UTF-8, as Rust's `str::from_utf8` accepts it (Table 3-7 of
    the Unicode Standard, section 3.9): the check the program makes before
    reading digits or a library name as text. */
module Utf8 {
  import opened Bytes

  predicate InRange(b: byte, lo: byte, hi: byte) { lo <= b <= hi }

  predicate IsContinuation(b: byte) { InRange(b, 0x80, 0xBF) }

  /** The length of the well-formed sequence that starts `s`, or 0 when `s`
      does not start with one. */
  function SequenceLength(s: Bytes): (n: nat)
    ensures n <= 4 && n <= |s|
  {
    if |s| == 0 then 0
    else
      var b := s[0];
      if b <= 0x7F then 1
      else if InRange(b, 0xC2, 0xDF) then
        if |s| >= 2 && IsContinuation(s[1]) then 2 else 0
      else if InRange(b, 0xE0, 0xEF) then
        var lo: byte := if b == 0xE0 then 0xA0 else 0x80;
        var hi: byte := if b == 0xED then 0x9F else 0xBF;
        if |s| >= 3 && InRange(s[1], lo, hi) && IsContinuation(s[2]) then 3 else 0
      else if InRange(b, 0xF0, 0xF4) then
        var lo: byte := if b == 0xF0 then 0x90 else 0x80;
        var hi: byte := if b == 0xF4 then 0x8F else 0xBF;
        if |s| >= 4 && InRange(s[1], lo, hi) && IsContinuation(s[2]) && IsContinuation(s[3]) then 4 else 0
      else 0
  }

  /** The bytes are a concatenation of well-formed sequences. */
  predicate Valid(s: Bytes)
    decreases |s|
  {
    |s| == 0 || (SequenceLength(s) > 0 && Valid(s[SequenceLength(s)..]))
  }

  predicate IsAscii(s: Bytes) { forall i :: 0 <= i < |s| ==> s[i] <= 0x7F }

  /** ASCII text is valid UTF-8. */
  lemma {:induction false} AsciiValid(s: Bytes)
    requires IsAscii(s)
    ensures Valid(s)
    decreases |s|
  {
    if |s| > 0 {
      assert SequenceLength(s) == 1;
      AsciiValid(s[1..]);
    }
  }

  /** A lone continuation byte, an overlong lead and a surrogate are all
      rejected. */
  lemma Rejected()
    ensures !Valid([0x80]) && !Valid([0xC0, 0x80]) && !Valid([0xED, 0xA0, 0x80])
  {
    assert SequenceLength([0x80]) == 0;
    assert SequenceLength([0xC0, 0x80]) == 0;
    assert SequenceLength([0xED, 0xA0, 0x80]) == 0;
  }
}
