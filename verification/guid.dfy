/** `guid::parse`: a GUID in braces, `{8-4-4-4-12}` hex digits, read as one
    128-bit number, most significant group first. Each group is `take(n)`
    of the stream read by `u128_from_hex_bytes`, so a group with a digit
    missing fails the hex check at the taken bytes, and one with a digit too
    many fails the next tag. */
module Guid {
  import opened Bytes
  import opened Nom
  import opened Radix
  import Types

  const LBRACE: byte := 0x7B  // '{'
  const RBRACE: byte := 0x7D  // '}'
  const HYPHEN: byte := 0x2D  // '-'

  /** `take(width)` then `u128_from_hex_bytes`. */
  function Group(width: nat, input: Bytes): (r: IResult<int>)
    ensures r.Parsed? ==> |r.rest| + width == |input|
  {
    var (num, rest) :- Take(width, input);
    match Types.U128FromHexBytes(num)
    case Err(e) => Failed(e)
    case Ok(v) => Parsed(v, rest)
  }

  /** `output <<= bits; output |= num`. Every group value is below
      `2^bits` (see `GroupOf`), so the OR adds the group below the bits
      shifted in, and the at most 96 bits shifted past the first 32-bit
      group never overflow the `u128`. */
  function Append(output: int, bits: nat, num: int): int
  {
    output * Pow(2, bits) + num
  }

  function Parse(input: Bytes): IResult<int>
  {
    var (_, r0) :- Tag([LBRACE], input);
    var (g1, r1) :- Group(8, r0);
    var (_, r2) :- Tag([HYPHEN], r1);
    var (g2, r3) :- Group(4, r2);
    var (_, r4) :- Tag([HYPHEN], r3);
    var (g3, r5) :- Group(4, r4);
    var (_, r6) :- Tag([HYPHEN], r5);
    var (g4, r7) :- Group(4, r6);
    var (_, r8) :- Tag([HYPHEN], r7);
    var (g5, r9) :- Group(12, r8);
    var (_, rest) :- Tag([RBRACE], r9);
    Parsed(Combine(g1, g2, g3, g4, g5), rest)
  }

  function Combine(g1: int, g2: int, g3: int, g4: int, g5: int): int
  {
    Append(Append(Append(Append(g1, 16, g2), 16, g3), 16, g4), 48, g5)
  }

  /** A group of `width` bytes is read from exactly those bytes, whatever
      follows; its value is below `16^width`, and an error is reported at
      the group's bytes. */
  lemma GroupOf(width: nat, d: Bytes, rest: Bytes)
    requires |d| == width
    ensures Group(width, d + rest)
      == match Types.U128FromHexBytes(d)
         case Err(_) => Failed(d)
         case Ok(v) => Parsed(v, rest)
    ensures Group(width, d + rest).Parsed? ==> 0 <= Group(width, d + rest).value < Pow(16, width)
  {
    assert (d + rest)[..width] == d && (d + rest)[width..] == rest;
    if Types.U128FromHexBytes(d).Ok? {
      UnsignedBound(d, true, U128);
    }
  }

  /** A GUID laid out with the braces and hyphens in place: the groups are
      read in order, the first that fails is the error, and otherwise the
      value is the groups combined and the bytes after `}` are left. */
  lemma ParseLaidOut(d1: Bytes, d2: Bytes, d3: Bytes, d4: Bytes, d5: Bytes, rest: Bytes)
    requires |d1| == 8 && |d2| == 4 && |d3| == 4 && |d4| == 4 && |d5| == 12
    ensures Parse([LBRACE] + (d1 + ([HYPHEN] + (d2 + ([HYPHEN] + (d3 + ([HYPHEN] + (d4 + ([HYPHEN] + (d5 + ([RBRACE] + rest)))))))))))
      == var u1, u2, u3, u4, u5 := Types.U128FromHexBytes(d1), Types.U128FromHexBytes(d2),
           Types.U128FromHexBytes(d3), Types.U128FromHexBytes(d4), Types.U128FromHexBytes(d5);
         if u1.Err? then Failed(d1)
         else if u2.Err? then Failed(d2)
         else if u3.Err? then Failed(d3)
         else if u4.Err? then Failed(d4)
         else if u5.Err? then Failed(d5)
         else Parsed(Combine(u1.value, u2.value, u3.value, u4.value, u5.value), rest)
  {
    var t9 := [RBRACE] + rest;
    var t8 := d5 + t9;
    var t7 := [HYPHEN] + t8;
    var t6 := d4 + t7;
    var t5 := [HYPHEN] + t6;
    var t4 := d3 + t5;
    var t3 := [HYPHEN] + t4;
    var t2 := d2 + t3;
    var t1 := [HYPHEN] + t2;
    var t0 := d1 + t1;
    TagWritten([LBRACE], t0);
    GroupOf(8, d1, t1);
    TagWritten([HYPHEN], t2);
    GroupOf(4, d2, t3);
    TagWritten([HYPHEN], t4);
    GroupOf(4, d3, t5);
    TagWritten([HYPHEN], t6);
    GroupOf(4, d4, t7);
    TagWritten([HYPHEN], t8);
    GroupOf(12, d5, t9);
    TagWritten([RBRACE], rest);
  }

  /** The five groups of a 128-bit value, most significant first. */
  function Groups(v: nat): (g: (nat, nat, nat, nat, nat))
  {
    var low48 := v / 0x1_0000_0000_0000;
    var low32 := low48 / 0x1_0000;
    var low16 := low32 / 0x1_0000;
    (low16 / 0x1_0000, low16 % 0x1_0000, low32 % 0x1_0000, low48 % 0x1_0000, v % 0x1_0000_0000_0000)
  }

  /** The groups of a 128-bit value fit their widths and combine back into
      it. */
  lemma GroupsCombine(v: nat)
    requires v <= U128.max
    ensures var g := Groups(v);
      && g.0 < 0x1_0000_0000 && g.1 < 0x1_0000 && g.2 < 0x1_0000 && g.3 < 0x1_0000
      && g.4 < 0x1_0000_0000_0000
      && Combine(g.0, g.1, g.2, g.3, g.4) == v
  {
    TwoPowers();
    var low48 := v / 0x1_0000_0000_0000;
    var low32 := low48 / 0x1_0000;
    var low16 := low32 / 0x1_0000;
    assert low48 < 0x1_0000_0000_0000_0000_0000;
    assert low32 < 0x1_0000_0000_0000_0000;
    assert low16 < 0x1_0000_0000_0000;
  }

  lemma TwoPowers()
    ensures Pow(2, 16) == 0x1_0000 && Pow(2, 48) == 0x1_0000_0000_0000
  {
    assert Pow(2, 2) == 4;
    assert Pow(2, 4) == 16;
    assert Pow(2, 6) == 64;
    assert Pow(2, 8) == 256;
    assert Pow(2, 10) == 1024;
    assert Pow(2, 12) == 4096;
    assert Pow(2, 14) == 0x4000;
    assert Pow(2, 16) == 0x1_0000;
    PowSplit(2, 16, 16);
    PowSplit(2, 32, 16);
  }

  lemma {:induction false} PowSplit(b: nat, e: nat, f: nat)
    ensures Pow(b, e + f) == Pow(b, e) * Pow(b, f)
  {
    if e > 0 {
      PowSplit(b, e - 1, f);
      var x, y := Pow(b, e - 1), Pow(b, f);
      assert Pow(b, e + f) == b * Pow(b, e - 1 + f);
      assert b * (x * y) == (b * x) * y;
    }
  }

  /** A GUID as the program's streams write it: upper-case digits in
      braces, groups of 8, 4, 4, 4 and 12 separated by hyphens. */
  function Text(v: nat): Bytes
  {
    var g := Groups(v);
    [LBRACE] + (Digits(g.0, 8, true) + ([HYPHEN] + (Digits(g.1, 4, true) + ([HYPHEN]
      + (Digits(g.2, 4, true) + ([HYPHEN] + (Digits(g.3, 4, true) + ([HYPHEN]
      + (Digits(g.4, 12, true) + [RBRACE])))))))))
  }

  /** Upper-case digits of five values that fit their groups read back as
      those values, combined. */
  lemma ParseDigitGroups(g1: nat, g2: nat, g3: nat, g4: nat, g5: nat, rest: Bytes)
    requires g1 < 0x1_0000_0000 && g2 < 0x1_0000 && g3 < 0x1_0000 && g4 < 0x1_0000
    requires g5 < 0x1_0000_0000_0000
    ensures var d1, d2, d3, d4, d5 := Digits(g1, 8, true), Digits(g2, 4, true), Digits(g3, 4, true),
        Digits(g4, 4, true), Digits(g5, 12, true);
      Parse([LBRACE] + (d1 + ([HYPHEN] + (d2 + ([HYPHEN] + (d3 + ([HYPHEN] + (d4 + ([HYPHEN] + (d5 + ([RBRACE] + rest)))))))))))
        == Parsed(Combine(g1, g2, g3, g4, g5), rest)
  {
    HexPowers();
    Types.U128ReadsHex(g1, 8);
    Types.U128ReadsHex(g2, 4);
    Types.U128ReadsHex(g3, 4);
    Types.U128ReadsHex(g4, 4);
    Types.U128ReadsHex(g5, 12);
    ParseLaidOut(Digits(g1, 8, true), Digits(g2, 4, true), Digits(g3, 4, true), Digits(g4, 4, true),
      Digits(g5, 12, true), rest);
  }

  /** Every 128-bit value, written as a GUID, reads back as itself, and
      what follows the closing brace is left. */
  lemma ParseWritten(v: nat, rest: Bytes)
    requires v <= U128.max
    ensures Parse(Text(v) + rest) == Parsed(v, rest)
  {
    var g := Groups(v);
    GroupsCombine(v);
    var d1, d2, d3, d4, d5 := Digits(g.0, 8, true), Digits(g.1, 4, true), Digits(g.2, 4, true),
      Digits(g.3, 4, true), Digits(g.4, 12, true);
    assert Text(v) + rest
      == [LBRACE] + (d1 + ([HYPHEN] + (d2 + ([HYPHEN] + (d3 + ([HYPHEN] + (d4 + ([HYPHEN] + (d5 + ([RBRACE] + rest))))))))));
    ParseDigitGroups(g.0, g.1, g.2, g.3, g.4, rest);
  }

  /** A first group with a digit missing is an error at its eight bytes,
      which take the following hyphen in. */
  lemma ShortFirstGroup(d1: Bytes, rest: Bytes)
    requires |d1| == 8 && d1[7] == HYPHEN
    ensures Parse([LBRACE] + d1 + rest) == Failed(d1)
  {
    assert [LBRACE] + d1 + rest == [LBRACE] + (d1 + rest);
    TagWritten([LBRACE], d1 + rest);
    GroupOf(8, d1, rest);
    assert !IsHexDigit(d1[7]);
  }

  /** Without the opening brace nothing is read, and the error is at the
      input itself. */
  lemma MissingOpenBrace(input: Bytes)
    requires |input| == 0 || input[0] != LBRACE
    ensures Parse(input) == Failed(input)
  {
    if |input| > 0 {
      assert !([LBRACE] <= input);
    }
  }

  /** A first group with a digit too many is read as eight digits, and the
      ninth then fails the hyphen's tag. */
  lemma LongFirstGroup(g1: nat, x: byte, rest: Bytes)
    requires g1 < 0x1_0000_0000 && x != HYPHEN
    ensures Parse([LBRACE] + Digits(g1, 8, true) + ([x] + rest)) == Failed([x] + rest)
  {
    var d1 := Digits(g1, 8, true);
    assert [LBRACE] + d1 + ([x] + rest) == [LBRACE] + (d1 + ([x] + rest));
    TagWritten([LBRACE], d1 + ([x] + rest));
    HexPowers();
    Types.U128ReadsHex(g1, 8);
    GroupOf(8, d1, [x] + rest);
    assert ([x] + rest)[0] == x;
  }

  /** A GUID is 38 bytes: braces, 32 digits and four hyphens. */
  lemma ParseLength(input: Bytes)
    requires Parse(input).Parsed?
    ensures |Parse(input).rest| + 38 == |input|
  {
    var r0 := input[1..];
    var r1 := Group(8, r0).rest;
    var r3 := Group(4, r1[1..]).rest;
    var r5 := Group(4, r3[1..]).rest;
    var r7 := Group(4, r5[1..]).rest;
    var r9 := Group(12, r7[1..]).rest;
    assert Parse(input).rest == r9[1..];
  }

  /** A group followed by a hyphen: the hyphen sits `width` bytes in and
      what follows it is left. */
  lemma GroupThenHyphen(width: nat, input: Bytes)
    requires Group(width, input).Parsed? && Tag([HYPHEN], Group(width, input).rest).Parsed?
    ensures |input| > width && input[width] == HYPHEN
    ensures Tag([HYPHEN], Group(width, input).rest).rest == input[width + 1..]
  {
    var t := Take(width, input);
    assert Group(width, input).rest == t.rest == input[width..];
  }

  /** Every delimiter is required: a GUID parses only with `{` first, a
      hyphen after each of the first four groups and `}` after the fifth,
      so a missing or misplaced delimiter, or a group of the wrong width,
      fails. */
  lemma ParseNeedsDelimiters(input: Bytes)
    requires Parse(input).Parsed?
    ensures |input| >= 38 && input[0] == LBRACE && input[37] == RBRACE
    ensures input[9] == HYPHEN && input[14] == HYPHEN && input[19] == HYPHEN && input[24] == HYPHEN
  {
    var r0 := Tag([LBRACE], input).rest;
    var r1 := Group(8, r0).rest;
    var r2 := Tag([HYPHEN], r1).rest;
    var r3 := Group(4, r2).rest;
    var r4 := Tag([HYPHEN], r3).rest;
    var r5 := Group(4, r4).rest;
    var r6 := Tag([HYPHEN], r5).rest;
    var r7 := Group(4, r6).rest;
    var r8 := Tag([HYPHEN], r7).rest;
    var r9 := Group(12, r8).rest;
    assert Tag([RBRACE], r9).Parsed?;
    assert r0 == input[1..];
    GroupThenHyphen(8, r0);
    assert r2 == input[10..];
    GroupThenHyphen(4, r2);
    assert r4 == input[15..];
    GroupThenHyphen(4, r4);
    assert r6 == input[20..];
    GroupThenHyphen(4, r6);
    assert r8 == input[25..];
    assert r9 == Take(12, r8).rest == input[37..];
  }

  lemma ParseShortens()
    ensures Shortening(Parse)
  {
    forall i | Parse(i).Parsed? ensures |Parse(i).rest| <= |i| {
      ParseLength(i);
    }
  }
}
