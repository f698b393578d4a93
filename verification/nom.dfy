/** The parser-combinator vocabulary the PROJECT-stream grammar is written in:
    nom 7's byte-slice parsers on complete input. A parser is a function from
    the remaining input to a `Parse`: a value with the unconsumed rest, or a
    recoverable error at some input (nom's `Err::Error`). nom's error kinds
    are not modelled, only the input the error points at. */
module Nom {
  import opened Bytes

  datatype IResult<+T> = Parsed(value: T, rest: Bytes) | Failed(at: Bytes)
  {
    /** With these three members `var (v, rest) :- p(input); ...` sequences
        parsers as nom's `?` does: an error is handed on unchanged. */
    predicate IsFailure() { Failed? }

    function PropagateFailure<U>(): IResult<U>
      requires Failed?
    {
      Failed(at)
    }

    function Extract(): (T, Bytes)
      requires Parsed?
    {
      (value, rest)
    }
  }

  /** A parser that never hands back more input than it was given, as every
      nom parser does. */
  ghost predicate Shortening<T>(p: Bytes -> IResult<T>)
  {
    forall i :: p(i).Parsed? ==> |p(i).rest| <= |i|
  }

  /** `tag`: the literal at the start of the input. */
  function Tag(t: Bytes, input: Bytes): (r: IResult<Bytes>)
    ensures r.Parsed? <==> t <= input
    ensures r.Parsed? ==> r.value == t && input == t + r.rest
    ensures r.Failed? ==> r.at == input
  {
    if t <= input then Parsed(t, input[|t|..]) else Failed(input)
  }

  /** A tag followed by anything is read. */
  lemma TagWritten(t: Bytes, rest: Bytes)
    ensures Tag(t, t + rest) == Parsed(t, rest)
  {
    assert t <= t + rest;
    assert (t + rest)[|t|..] == rest;
  }

  /** `take`: exactly `n` bytes. */
  function Take(n: nat, input: Bytes): (r: IResult<Bytes>)
    ensures r.Parsed? <==> |input| >= n
    ensures r.Parsed? ==> |r.value| == n && input == r.value + r.rest
    ensures r.Failed? ==> r.at == input
  {
    if |input| >= n then Parsed(input[..n], input[n..]) else Failed(input)
  }

  /** The length of the longest prefix of at most `n` bytes that satisfy `p`. */
  function Run(p: byte -> bool, input: Bytes, n: nat): (k: nat)
    ensures k <= n && k <= |input|
    ensures forall i :: 0 <= i < k ==> p(input[i])
    ensures k < n && k < |input| ==> !p(input[k])
  {
    if n == 0 || |input| == 0 || !p(input[0]) then 0 else 1 + Run(p, input[1..], n - 1)
  }

  /** A run of bytes satisfying `p`, ended by the cap or by a byte that does
      not, is measured exactly. */
  lemma {:induction false} RunOfPrefix(p: byte -> bool, s: Bytes, rest: Bytes, n: nat)
    requires forall i :: 0 <= i < |s| ==> p(s[i])
    requires |s| <= n && (|s| == n || |rest| == 0 || !p(rest[0]))
    ensures Run(p, s + rest, n) == |s|
  {
    if |s| > 0 {
      assert (s + rest)[0] == s[0];
      assert (s + rest)[1..] == s[1..] + rest;
      RunOfPrefix(p, s[1..], rest, n - 1);
    } else {
      assert s + rest == rest;
    }
  }

  /** `take_while_m_n`: the longest run of at most `n` bytes satisfying `p`,
      which must be at least `m` long. */
  function TakeWhileMN(m: nat, n: nat, p: byte -> bool, input: Bytes): (r: IResult<Bytes>)
    ensures r.Parsed? <==> Run(p, input, n) >= m
    ensures r.Parsed? ==> r.value == input[..Run(p, input, n)] && r.rest == input[Run(p, input, n)..]
    ensures r.Failed? ==> r.at == input
  {
    var k := Run(p, input, n);
    if k < m then Failed(input) else Parsed(input[..k], input[k..])
  }

  /** `take_while`: the longest run of bytes satisfying `p`, possibly empty. */
  function TakeWhile(p: byte -> bool, input: Bytes): (r: IResult<Bytes>)
    ensures r.Parsed?
    ensures input == r.value + r.rest
    ensures forall i :: 0 <= i < |r.value| ==> p(r.value[i])
    ensures |r.rest| > 0 ==> !p(r.rest[0])
  {
    var k := Run(p, input, |input|);
    assert input == input[..k] + input[k..];
    Parsed(input[..k], input[k..])
  }

  /** `take_while1` (and so `digit1`): the longest run of bytes satisfying
      `p`, which must not be empty. */
  function TakeWhile1(p: byte -> bool, input: Bytes): (r: IResult<Bytes>)
    ensures r.Parsed? <==> |input| > 0 && p(input[0])
    ensures r.Parsed? ==> r.value == input[..Run(p, input, |input|)] && r.rest == input[Run(p, input, |input|)..]
    ensures r.Failed? ==> r.at == input
  {
    var k := Run(p, input, |input|);
    if k == 0 then Failed(input) else Parsed(input[..k], input[k..])
  }

  /** `one_of`: a single byte from the set. */
  function OneOf(choices: set<byte>, input: Bytes): (r: IResult<byte>)
    ensures r.Parsed? <==> |input| > 0 && input[0] in choices
    ensures r.Parsed? ==> r.value == input[0] && r.rest == input[1..]
    ensures r.Failed? ==> r.at == input
  {
    if |input| > 0 && input[0] in choices then Parsed(input[0], input[1..]) else Failed(input)
  }

  /** `value`: a success yields `v` in place of what was parsed. */
  function Value<T, U>(v: T, r: IResult<U>): (o: IResult<T>)
    ensures o.Parsed? <==> r.Parsed?
    ensures o.Parsed? ==> o.value == v && o.rest == r.rest
    ensures o.Failed? ==> o.at == r.at
  {
    match r
    case Parsed(_, rest) => Parsed(v, rest)
    case Failed(at) => Failed(at)
  }

  /** `alt` of two alternatives: the first success, else the second's error. */
  function OrElse<T>(first: IResult<T>, second: IResult<T>): (r: IResult<T>)
    ensures r.Parsed? <==> first.Parsed? || second.Parsed?
    ensures first.Parsed? ==> r == first
    ensures first.Failed? ==> r == second
  {
    if first.Parsed? then first else second
  }

  /** `opt`: an error becomes an absent value at the same input. */
  function Opt<T>(r: IResult<T>, input: Bytes): (o: IResult<Option<T>>)
    ensures o.Parsed?
    ensures r.Parsed? ==> o == Parsed(Some(r.value), r.rest)
    ensures r.Failed? ==> o == Parsed(None, input)
  {
    match r
    case Parsed(v, rest) => Parsed(Some(v), rest)
    case Failed(_) => Parsed(None, input)
  }

  /** `many_m_n`: at most `max` repetitions of `p`; an error from `p` before
      `min` of them is the result, after that it ends the list. A success of
      `p` that consumes nothing is an error at that input. */
  function ManyMN<T>(min: nat, max: nat, p: Bytes -> IResult<T>, input: Bytes): (r: IResult<seq<T>>)
  {
    if min > max then Failed(input) else Repeat(min, max, p, input)
  }

  function Repeat<T>(min: nat, max: nat, p: Bytes -> IResult<T>, input: Bytes): (r: IResult<seq<T>>)
    decreases max
  {
    if max == 0 then Parsed([], input)
    else
      match p(input)
      case Failed(e) => if min > 0 then Failed(e) else Parsed([], input)
      case Parsed(v, tail) =>
        if |tail| == |input| then Failed(input)
        else
          match Repeat(if min > 0 then min - 1 else 0, max - 1, p, tail)
          case Failed(e) => Failed(e)
          case Parsed(vs, rest) => Parsed([v] + vs, rest)
  }

  /** `many0`: repetitions of `p` until its first error. */
  function Many0<T>(p: Bytes -> IResult<T>, input: Bytes): (r: IResult<seq<T>>)
    requires Shortening(p)
    decreases |input|
  {
    match p(input)
    case Failed(_) => Parsed([], input)
    case Parsed(v, tail) =>
      if |tail| == |input| then Failed(input)
      else
        match Many0(p, tail)
        case Failed(e) => Failed(e)
        case Parsed(vs, rest) => Parsed([v] + vs, rest)
  }

  /** `separated_list0`: `p`, then `sep` and `p` as long as both succeed; a
      separator not followed by `p` is left unconsumed. */
  function SeparatedList0<S, T>(sep: Bytes -> IResult<S>, p: Bytes -> IResult<T>, input: Bytes): (r: IResult<seq<T>>)
    requires Shortening(sep) && Shortening(p)
  {
    match p(input)
    case Failed(_) => Parsed([], input)
    case Parsed(v, rest) => SeparatedTail(sep, p, [v], rest)
  }

  function SeparatedTail<S, T>(sep: Bytes -> IResult<S>, p: Bytes -> IResult<T>, acc: seq<T>, input: Bytes): (r: IResult<seq<T>>)
    requires Shortening(sep) && Shortening(p)
    decreases |input|
  {
    match sep(input)
    case Failed(_) => Parsed(acc, input)
    case Parsed(_, afterSep) =>
      if |afterSep| == |input| then Failed(afterSep)
      else
        match p(afterSep)
        case Failed(_) => Parsed(acc, input)
        case Parsed(v, rest) => SeparatedTail(sep, p, acc + [v], rest)
  }

  /** One repetition of `many_m_n`, seen from outside: a success of `p` that
      consumes something is put in front of the repetitions of the rest. */
  lemma RepeatStep<T>(min: nat, max: nat, p: Bytes -> IResult<T>, input: Bytes)
    requires max > 0 && p(input).Parsed? && |p(input).rest| < |input|
    ensures Repeat(min, max, p, input)
      == match Repeat(if min > 0 then min - 1 else 0, max - 1, p, p(input).rest)
         case Failed(e) => Failed(e)
         case Parsed(vs, rest) => Parsed([p(input).value] + vs, rest)
  {
  }

  /** An error of `p` ends `many_m_n`: below `min` it is the result. */
  lemma RepeatStop<T>(min: nat, max: nat, p: Bytes -> IResult<T>, input: Bytes)
    requires p(input).Failed?
    ensures Repeat(min, max, p, input)
      == if max > 0 && min > 0 then Failed(p(input).at) else Parsed([], input)
  {
  }

  /** The written forms of the values, one after another. */
  function Concat<T>(enc: T -> Bytes, vs: seq<T>): Bytes
  {
    if |vs| == 0 then [] else enc(vs[0]) + Concat(enc, vs[1..])
  }

  /** `p` reads the written form `enc(v)` of every value in `vs` back as `v`,
      whatever follows it, and consumes something doing so. */
  ghost predicate Reads<T>(p: Bytes -> IResult<T>, enc: T -> Bytes, vs: seq<T>)
  {
    && (forall i :: 0 <= i < |vs| ==> |enc(vs[i])| > 0)
    && (forall i, tail :: 0 <= i < |vs| ==> p(enc(vs[i]) + tail) == Parsed(vs[i], tail))
  }

  /** `many_m_n` over written values reads back the first `max` of them;
      fewer than `min` is an error where `p` stopped. */
  lemma {:induction false} RepeatWritten<T>(min: nat, max: nat, p: Bytes -> IResult<T>, enc: T -> Bytes, vs: seq<T>, tail: Bytes)
    requires min <= max && Reads(p, enc, vs)
    requires |vs| >= max || p(tail).Failed?
    ensures Repeat(min, max, p, Concat(enc, vs) + tail)
      == if |vs| >= max then Parsed(vs[..max], Concat(enc, vs[max..]) + tail)
         else if |vs| >= min then Parsed(vs, tail)
         else Failed(p(tail).at)
  {
    var input := Concat(enc, vs) + tail;
    if max == 0 {
      assert vs[..0] == [] && vs[0..] == vs;
    } else if |vs| == 0 {
      assert input == tail;
      RepeatStop(min, max, p, input);
    } else {
      var after := Concat(enc, vs[1..]) + tail;
      assert input == enc(vs[0]) + after;
      assert p(enc(vs[0]) + after) == Parsed(vs[0], after);
      RepeatStep(min, max, p, input);
      assert Reads(p, enc, vs[1..]) by {
        forall i, t | 0 <= i < |vs| - 1
          ensures p(enc(vs[1..][i]) + t) == Parsed(vs[1..][i], t)
        {
          assert vs[1..][i] == vs[i + 1];
        }
      }
      RepeatWritten(if min > 0 then min - 1 else 0, max - 1, p, enc, vs[1..], tail);
      if |vs| >= max {
        assert [vs[0]] + vs[1..][..max - 1] == vs[..max];
        assert vs[1..][max - 1..] == vs[max..];
      } else {
        assert [vs[0]] + vs[1..] == vs;
      }
    }
  }

  /** Between `min` and `max` repetitions come back, and fewer than `max`
      only when `p` fails at the rest. */
  lemma {:induction false} RepeatCount<T>(min: nat, max: nat, p: Bytes -> IResult<T>, input: Bytes)
    requires min <= max && Repeat(min, max, p, input).Parsed?
    ensures var r := Repeat(min, max, p, input);
      && min <= |r.value| <= max
      && (|r.value| < max ==> p(r.rest).Failed?)
  {
    if max > 0 {
      match p(input)
      case Failed(_) =>
      case Parsed(v, tail) =>
        RepeatCount(if min > 0 then min - 1 else 0, max - 1, p, tail);
    }
  }

  /** `many0` ends only at an error of `p`. */
  lemma {:induction false} Many0Stops<T>(p: Bytes -> IResult<T>, input: Bytes)
    requires Shortening(p) && Many0(p, input).Parsed?
    ensures p(Many0(p, input).rest).Failed?
    decreases |input|
  {
    match p(input)
    case Failed(_) =>
    case Parsed(v, tail) =>
      Many0Stops(p, tail);
  }

  /** The values written one after another in front of `tail`, each by a
      writer that is given the text that follows it. */
  function Chain<T>(enc: (T, Bytes) -> Bytes, vs: seq<T>, tail: Bytes): Bytes
  {
    if |vs| == 0 then tail else enc(vs[0], Chain(enc, vs[1..], tail))
  }

  /** `p` reads every value in `vs` back from its written form, whatever
      follows it, and the written form is not empty. */
  ghost predicate ReadsOnto<T>(p: Bytes -> IResult<T>, enc: (T, Bytes) -> Bytes, vs: seq<T>)
  {
    forall i, t :: 0 <= i < |vs| ==> |enc(vs[i], t)| > |t| && p(enc(vs[i], t)) == Parsed(vs[i], t)
  }

  /** `many0` over written values reads them all back when `p` fails on
      what follows them. */
  lemma {:induction false} Many0Chain<T>(p: Bytes -> IResult<T>, enc: (T, Bytes) -> Bytes, vs: seq<T>, tail: Bytes)
    requires Shortening(p) && ReadsOnto(p, enc, vs) && p(tail).Failed?
    ensures Many0(p, Chain(enc, vs, tail)) == Parsed(vs, tail)
    decreases |vs|
  {
    if |vs| > 0 {
      var after := Chain(enc, vs[1..], tail);
      assert |enc(vs[0], after)| > |after| && p(enc(vs[0], after)) == Parsed(vs[0], after);
      assert ReadsOnto(p, enc, vs[1..]) by {
        forall i, t | 0 <= i < |vs| - 1
          ensures |enc(vs[1..][i], t)| > |t| && p(enc(vs[1..][i], t)) == Parsed(vs[1..][i], t)
        {
          assert vs[1..][i] == vs[i + 1];
        }
      }
      Many0Chain(p, enc, vs[1..], tail);
      assert [vs[0]] + vs[1..] == vs;
    }
  }

  /** The written forms of the values with `s` between consecutive ones. */
  function Join<T>(enc: T -> Bytes, s: Bytes, vs: seq<T>): Bytes
  {
    if |vs| == 0 then [] else enc(vs[0]) + Prefixed(enc, s, vs[1..])
  }

  /** The written forms of the values, each preceded by `s`. */
  function Prefixed<T>(enc: T -> Bytes, s: Bytes, vs: seq<T>): Bytes
  {
    if |vs| == 0 then [] else s + enc(vs[0]) + Prefixed(enc, s, vs[1..])
  }

  /** `p` reads the written form of every value in `vs` back when a
      separator `s` follows it. */
  ghost predicate ReadsBefore<T>(p: Bytes -> IResult<T>, enc: T -> Bytes, s: Bytes, vs: seq<T>)
  {
    forall i, t :: 0 <= i < |vs| && s <= t ==> p(enc(vs[i]) + t) == Parsed(vs[i], t)
  }

  /** `sep` reads `s`, whatever follows it. */
  ghost predicate ReadsSeparator<S>(sep: Bytes -> IResult<S>, s: Bytes)
  {
    |s| > 0 && forall t :: sep(s + t).Parsed? && sep(s + t).rest == t
  }

  lemma {:induction false} SeparatedTailWritten<S, T>(sep: Bytes -> IResult<S>, p: Bytes -> IResult<T>,
      enc: T -> Bytes, s: Bytes, acc: seq<T>, vs: seq<T>, tail: Bytes)
    requires Shortening(sep) && Shortening(p) && ReadsSeparator(sep, s)
    requires ReadsBefore(p, enc, s, vs) && p(tail).Failed?
    ensures SeparatedTail(sep, p, acc, Prefixed(enc, s, vs) + (s + tail)) == Parsed(acc + vs, s + tail)
    decreases |vs|
  {
    var input := Prefixed(enc, s, vs) + (s + tail);
    assert sep(s + tail).rest == tail;
    if |vs| == 0 {
      assert input == s + tail;
      assert acc + vs == acc;
    } else {
      var after := Prefixed(enc, s, vs[1..]) + (s + tail);
      assert input == s + (enc(vs[0]) + after);
      assert sep(s + (enc(vs[0]) + after)).rest == enc(vs[0]) + after;
      PrefixedStarts(enc, s, vs[1..], tail);
      assert p(enc(vs[0]) + after) == Parsed(vs[0], after);
      assert ReadsBefore(p, enc, s, vs[1..]) by {
        forall i, t | 0 <= i < |vs| - 1 && s <= t
          ensures p(enc(vs[1..][i]) + t) == Parsed(vs[1..][i], t)
        {
          assert vs[1..][i] == vs[i + 1];
        }
      }
      SeparatedTailWritten(sep, p, enc, s, acc + [vs[0]], vs[1..], tail);
      assert acc + [vs[0]] + vs[1..] == acc + vs;
    }
  }

  lemma PrefixedStarts<T>(enc: T -> Bytes, s: Bytes, vs: seq<T>, tail: Bytes)
    ensures s <= Prefixed(enc, s, vs) + (s + tail)
  {
    if |vs| > 0 {
      assert Prefixed(enc, s, vs) + (s + tail) == s + (enc(vs[0]) + Prefixed(enc, s, vs[1..]) + (s + tail));
    }
  }

  /** `separated_list0` over values written with `s` between them, followed
      by `s` and then something `p` rejects, reads the values back and
      leaves the final separator unconsumed. */
  lemma SeparatedWritten<S, T>(sep: Bytes -> IResult<S>, p: Bytes -> IResult<T>, enc: T -> Bytes,
      s: Bytes, vs: seq<T>, tail: Bytes)
    requires Shortening(sep) && Shortening(p) && ReadsSeparator(sep, s) && ReadsBefore(p, enc, s, vs)
    requires if |vs| == 0 then p(s + tail).Failed? else p(tail).Failed?
    ensures SeparatedList0(sep, p, Join(enc, s, vs) + (s + tail)) == Parsed(vs, s + tail)
  {
    if |vs| > 0 {
      var after := Prefixed(enc, s, vs[1..]) + (s + tail);
      assert Join(enc, s, vs) + (s + tail) == enc(vs[0]) + after;
      PrefixedStarts(enc, s, vs[1..], tail);
      assert p(enc(vs[0]) + after) == Parsed(vs[0], after);
      SeparatedTailWritten(sep, p, enc, s, [vs[0]], vs[1..], tail);
      assert [vs[0]] + vs[1..] == vs;
    } else {
      assert Join(enc, s, vs) + (s + tail) == s + tail;
    }
  }
}
