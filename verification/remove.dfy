/** The line rewriter that unlocks a project (`unlocked_project`): the
    PROJECT stream is cut after every line feed, and each line that starts
    with `ID="{`, `CMG="`, `DPB="` or `GC="` plus one more byte is replaced
    whole by a fixed unlocked line; every other line is copied byte for
    byte. The fixed lines are not part of this model and are the
    parameter `u`. */
module Unlock {
  import opened Bytes
  import ProjectRecord

  const LF: byte := 0x0A

  /** `ID="{`: the project id line. */
  const ID_BRACE: Bytes := ProjectRecord.ID_TAG + [0x7B]

  /** The four replacement lines (`UNLOCKED_ID`, `UNLOCKED_CMG`,
      `UNLOCKED_DPB`, `UNLOCKED_GC`). */
  datatype Unlocked = Unlocked(id: Bytes, cmg: Bytes, dpb: Bytes, gc: Bytes)

  // Cutting the stream into lines

  /** The length of the first line of `s`: up to and including the first
      line feed, or all of `s` when there is none (`read_until(b'\\n')`). */
  function LineLength(s: Bytes): (k: nat)
    requires |s| > 0
    ensures 0 < k <= |s|
    ensures forall i :: 0 <= i < k - 1 ==> s[i] != LF
    ensures k < |s| ==> s[k - 1] == LF
  {
    if s[0] == LF || |s| == 1 then 1 else 1 + LineLength(s[1..])
  }

  /** The three facts above pin the length down: any cut with them is the
      first line. */
  lemma LineLengthUnique(s: Bytes, k: nat)
    requires 0 < k <= |s|
    requires forall i :: 0 <= i < k - 1 ==> s[i] != LF
    requires k < |s| ==> s[k - 1] == LF
    ensures k == LineLength(s)
  {
  }

  /** A single line: not empty, a line feed at most at its end. */
  predicate IsLine(line: Bytes)
  {
    |line| > 0 && forall i :: 0 <= i < |line| - 1 ==> line[i] != LF
  }

  predicate EndsInLineFeed(line: Bytes)
  {
    |line| > 0 && line[|line| - 1] == LF
  }

  /** A line closed by a line feed is the first line of whatever it
      precedes. */
  lemma FirstLine(line: Bytes, rest: Bytes)
    requires IsLine(line) && (EndsInLineFeed(line) || |rest| == 0)
    ensures LineLength(line + rest) == |line|
    ensures (line + rest)[..|line|] == line && (line + rest)[|line|..] == rest
  {
    LineLengthUnique(line + rest, |line|);
  }

  // Rewriting one line

  /** The tag a line starts with, if it is one the rewriter replaces. The
      `GC="` arm matches five bytes like the others, so `GC="` must be
      followed by at least one more byte. */
  predicate StartsWithId(line: Bytes) { |line| >= 5 && line[..5] == ID_BRACE }
  predicate StartsWithCmg(line: Bytes) { |line| >= 5 && line[..5] == ProjectRecord.CMG }
  predicate StartsWithDpb(line: Bytes) { |line| >= 5 && line[..5] == ProjectRecord.DPB }
  predicate StartsWithGc(line: Bytes) { |line| >= 5 && line[..4] == ProjectRecord.GC }

  /** A line the rewriter replaces. */
  predicate Locking(line: Bytes)
  {
    StartsWithId(line) || StartsWithCmg(line) || StartsWithDpb(line) || StartsWithGc(line)
  }

  /** The body of the `match` on the first five bytes. */
  function RewriteLine(u: Unlocked, line: Bytes): Bytes
  {
    if StartsWithId(line) then u.id
    else if StartsWithCmg(line) then u.cmg
    else if StartsWithDpb(line) then u.dpb
    else if StartsWithGc(line) then u.gc
    else line
  }

  /** Each tag selects its own replacement: the four tags differ in their
      first five bytes, so at most one arm applies. */
  lemma RewriteLineCases(u: Unlocked, line: Bytes)
    ensures !Locking(line) ==> RewriteLine(u, line) == line
    ensures StartsWithId(line) ==> RewriteLine(u, line) == u.id
    ensures StartsWithCmg(line) ==> RewriteLine(u, line) == u.cmg
    ensures StartsWithDpb(line) ==> RewriteLine(u, line) == u.dpb
    ensures StartsWithGc(line) ==> RewriteLine(u, line) == u.gc
  {
    if StartsWithCmg(line) {
      assert line[0] == ProjectRecord.CMG[0] != ID_BRACE[0];
    }
    if StartsWithDpb(line) {
      assert line[0] == ProjectRecord.DPB[0];
    }
    if StartsWithGc(line) {
      assert line[0] == ProjectRecord.GC[0];
    }
  }

  // Rewriting the stream

  /** The lines of `s`, in order. */
  function Lines(s: Bytes): (r: seq<Bytes>)
    decreases |s|
  {
    if |s| == 0 then [] else [s[..LineLength(s)]] + Lines(s[LineLength(s)..])
  }

  /** Each line of `s` passed through `f`, the results concatenated. */
  function MapLines(f: Bytes -> Bytes, s: Bytes): Bytes
    decreases |s|
  {
    if |s| == 0 then []
    else
      var k := LineLength(s);
      f(s[..k]) + MapLines(f, s[k..])
  }

  /** The unlocked stream: each line rewritten, in order. */
  function Rewrite(u: Unlocked, s: Bytes): Bytes
  {
    MapLines(line => RewriteLine(u, line), s)
  }

  /** Mapping the lines splits over any cut made just after a line feed. */
  lemma {:induction false} MapLinesAppend(f: Bytes -> Bytes, a: Bytes, b: Bytes)
    requires |a| == 0 || a[|a| - 1] == LF
    ensures MapLines(f, a + b) == MapLines(f, a) + MapLines(f, b)
    decreases |a|
  {
    if |a| > 0 {
      var k := LineLength(a);
      var s := a + b;
      LineLengthUnique(s, k);
      assert s[..k] == a[..k];
      assert s[k..] == a[k..] + b;
      MapLinesAppend(f, a[k..], b);
    } else {
      assert a + b == b;
    }
  }

  lemma RewriteAppend(u: Unlocked, a: Bytes, b: Bytes)
    requires |a| == 0 || a[|a| - 1] == LF
    ensures Rewrite(u, a + b) == Rewrite(u, a) + Rewrite(u, b)
  {
    MapLinesAppend(line => RewriteLine(u, line), a, b);
  }

  /** Lines that `f` leaves alone come out unchanged. */
  lemma {:induction false} MapLinesKeeps(f: Bytes -> Bytes, s: Bytes)
    requires forall line :: line in Lines(s) ==> f(line) == line
    ensures MapLines(f, s) == s
    decreases |s|
  {
    if |s| > 0 {
      var k := LineLength(s);
      assert s[..k] in Lines(s);
      assert forall line :: line in Lines(s[k..]) ==> line in Lines(s);
      MapLinesKeeps(f, s[k..]);
      assert s == s[..k] + s[k..];
    }
  }

  /** A stream none of whose lines is replaced comes out unchanged. */
  lemma RewriteKeeps(u: Unlocked, s: Bytes)
    requires forall line :: line in Lines(s) ==> !Locking(line)
    ensures Rewrite(u, s) == s
  {
    forall line | line in Lines(s)
      ensures RewriteLine(u, line) == line
    {
      RewriteLineCases(u, line);
    }
    MapLinesKeeps(line => RewriteLine(u, line), s);
  }

  /** Fixed lines that are single lines closed by a line feed, each
      starting with its own tag: such lines are left alone by a second
      pass. */
  predicate SelfUnlocking(u: Unlocked)
  {
    && IsLine(u.id) && EndsInLineFeed(u.id) && StartsWithId(u.id)
    && IsLine(u.cmg) && EndsInLineFeed(u.cmg) && StartsWithCmg(u.cmg)
    && IsLine(u.dpb) && EndsInLineFeed(u.dpb) && StartsWithDpb(u.dpb)
    && IsLine(u.gc) && EndsInLineFeed(u.gc) && StartsWithGc(u.gc)
  }

  /** With such fixed lines a rewritten line is again a line, closed by a
      line feed whenever the original was, and rewriting it again changes
      nothing. */
  lemma RewriteLineStable(u: Unlocked, line: Bytes)
    requires SelfUnlocking(u) && IsLine(line)
    ensures IsLine(RewriteLine(u, line))
    ensures EndsInLineFeed(line) ==> EndsInLineFeed(RewriteLine(u, line))
    ensures RewriteLine(u, RewriteLine(u, line)) == RewriteLine(u, line)
  {
    RewriteLineCases(u, u.id);
    RewriteLineCases(u, u.cmg);
    RewriteLineCases(u, u.dpb);
    RewriteLineCases(u, u.gc);
  }

  /** Mapping the lines twice is mapping them once when `f` keeps each
      line a line, closed by a line feed whenever the original was, and
      leaves its own results alone. */
  lemma {:induction false} MapLinesIdempotent(f: Bytes -> Bytes, s: Bytes)
    requires forall line :: IsLine(line) ==> IsLine(f(line)) && f(f(line)) == f(line)
    requires forall line :: IsLine(line) && EndsInLineFeed(line) ==> EndsInLineFeed(f(line))
    ensures MapLines(f, MapLines(f, s)) == MapLines(f, s)
    decreases |s|
  {
    if |s| > 0 {
      var k := LineLength(s);
      var line := s[..k];
      var out := f(line);
      assert IsLine(line);
      var tail := MapLines(f, s[k..]);
      if k < |s| {
        assert EndsInLineFeed(line);
      } else {
        assert s[k..] == [];
      }
      FirstLine(out, tail);
      MapLinesIdempotent(f, s[k..]);
    }
  }

  /** Unlocking is idempotent when the fixed lines are self-unlocking. */
  lemma RewriteIdempotent(u: Unlocked, s: Bytes)
    requires SelfUnlocking(u)
    ensures Rewrite(u, Rewrite(u, s)) == Rewrite(u, s)
  {
    var f := line => RewriteLine(u, line);
    forall line | IsLine(line)
      ensures IsLine(f(line)) && f(f(line)) == f(line)
      ensures EndsInLineFeed(line) ==> EndsInLineFeed(f(line))
    {
      RewriteLineStable(u, line);
    }
    MapLinesIdempotent(f, s);
  }

  // The loop

  /** One step of the loop: the bytes from `pos` up to and including the
      first line feed (or to the end) are the next line. */
  lemma MapLinesStep(f: Bytes -> Bytes, s: Bytes, pos: nat, end: nat)
    requires pos < end <= |s|
    requires forall i :: pos <= i < end - 1 ==> s[i] != LF
    requires end < |s| ==> s[end - 1] == LF
    ensures MapLines(f, s[pos..]) == f(s[pos..end]) + MapLines(f, s[end..])
  {
    var t := s[pos..];
    LineLengthUnique(t, end - pos);
    assert t[..end - pos] == s[pos..end];
    assert t[end - pos..] == s[end..];
  }

  /** Moving the next piece from what is left to what is done. */
  lemma Regroup(done: Bytes, piece: Bytes, left: Bytes, after: Bytes, whole: Bytes)
    requires done + left == whole && left == piece + after
    ensures (done + piece) + after == whole
  {
  }

  /** `read_until(b'\\n')` from `pos`: the end of the next line, just
      after its line feed or at the end of the stream. */
  method ReadUntil(s: Bytes, pos: nat) returns (end: nat)
    requires pos < |s|
    ensures pos < end <= |s|
    ensures forall i :: pos <= i < end - 1 ==> s[i] != LF
    ensures end < |s| ==> s[end - 1] == LF
  {
    end := pos;
    while end < |s| && s[end] != LF
      invariant pos <= end <= |s|
      invariant forall i :: pos <= i < end ==> s[i] != LF
      decreases |s| - end
    {
      end := end + 1;
    }
    if end < |s| {
      end := end + 1;
    }
  }

  /** The loop of `unlocked_project` for any per-line rewrite: read a line
      up to and including its line feed, rewrite it, append it, until the
      stream is exhausted. */
  method RewriteLines(f: Bytes -> Bytes, s: Bytes) returns (out: Bytes)
    ensures out == MapLines(f, s)
  {
    out := [];
    var pos := 0;
    assert s[pos..] == s;
    while pos < |s|
      invariant 0 <= pos <= |s|
      invariant out + MapLines(f, s[pos..]) == MapLines(f, s)
      decreases |s| - pos
    {
      var end := ReadUntil(s, pos);
      MapLinesStep(f, s, pos, end);
      Regroup(out, f(s[pos..end]), MapLines(f, s[pos..]), MapLines(f, s[end..]), MapLines(f, s));
      out := out + f(s[pos..end]);
      pos := end;
    }
  }

  /** `unlocked_project` over an in-memory stream. */
  method UnlockedProject(u: Unlocked, s: Bytes) returns (out: Bytes)
    ensures out == Rewrite(u, s)
  {
    out := RewriteLines(line => RewriteLine(u, line), s);
  }
}
