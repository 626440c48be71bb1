/** The two line readers of dataset files: one over blocks of bytes, one over the whole text. */
module DatasetLines {
  import opened Common

  newtype Byte = x: int | 0 <= x < 256

  type Bytes = seq<Byte>

  const LF: Byte := 10

  const CR: Byte := 13

  /** What lies between line feeds, without the carriage return of a line that ends in both, and the bytes taken up. */
  datatype Physical = Physical(raw: Bytes, bytes: nat)

  /** Where b occurs first, or the end. */
  function FirstOf(b: Byte, s: Bytes): (n: nat)
    ensures n <= |s| && (forall i :: 0 <= i < n ==> s[i] != b) && (n < |s| ==> s[n] == b)
  {
    if s == [] || s[0] == b then 0 else 1 + FirstOf(b, s[1..])
  }

  lemma FirstIs(b: Byte, s: Bytes, n: nat)
    requires n <= |s| && (forall i :: 0 <= i < n ==> s[i] != b) && (n < |s| ==> s[n] == b)
    ensures FirstOf(b, s) == n
  {
  }

  function WithoutReturn(line: Bytes): Bytes {
    if line != [] && line[|line| - 1] == CR then line[..|line| - 1] else line
  }

  function Terminated(line: Bytes): Physical { Physical(WithoutReturn(line), |line| + 1) }

  /** All lines, the last one, which nothing ends, included even if it is empty. */
  function AllLines(s: Bytes): (lines: seq<Physical>)
    ensures lines != []
  {
    var n := FirstOf(LF, s);
    if n == |s| then [Physical(s, |s|)] else [Terminated(s[..n])] + AllLines(s[n + 1..])
  }

  /** The lines that the block reader is to deliver: an empty last one is none. */
  function Lines(s: Bytes): seq<Physical> {
    var all := AllLines(s);
    if all[|all| - 1].bytes == 0 then all[..|all| - 1] else all
  }

  lemma LinesStep(s: Bytes, n: nat)
    requires n == FirstOf(LF, s)
    ensures AllLines(s) == if n == |s| then [Physical(s, |s|)] else [Terminated(s[..n])] + AllLines(s[n + 1..])
  {
  }

  /** Only an empty last line takes up no bytes. */
  lemma {:induction false} EmptyLast(s: Bytes)
    ensures var last := AllLines(s)[|AllLines(s)| - 1]; last.bytes == 0 ==> last.raw == []
    decreases |s|
  {
    hide AllLines, Terminated;
    var n := FirstOf(LF, s);
    LinesStep(s, n);
    if n < |s| {
      EmptyLast(s[n + 1..]);
    }
  }

  ghost function TotalBytes(lines: seq<Physical>): nat {
    if lines == [] then 0 else lines[0].bytes + TotalBytes(lines[1..])
  }

  /** Every byte belongs to exactly one line. */
  lemma {:induction false} BytesAddUp(s: Bytes)
    ensures TotalBytes(AllLines(s)) == |s|
    decreases |s|
  {
    hide AllLines;
    var n := FirstOf(LF, s);
    LinesStep(s, n);
    if n < |s| {
      BytesAddUp(s[n + 1..]);
      assert ([Terminated(s[..n])] + AllLines(s[n + 1..]))[1..] == AllLines(s[n + 1..]);
    } else {
      assert [Physical(s, |s|)][1..] == [];
    }
  }

  predicate LineFree(s: Bytes) { forall i :: 0 <= i < |s| ==> s[i] != LF }

  lemma OneLine(line: Bytes, rest: Bytes)
    requires LineFree(line)
    ensures AllLines(line + [LF] + rest) == [Terminated(line)] + AllLines(rest)
    ensures AllLines(line) == [Physical(line, |line|)]
  {
    var s := line + [LF] + rest;
    FirstIs(LF, s, |line|);
    assert s[..|line|] == line && s[|line| + 1..] == rest;
    FirstIs(LF, line, |line|);
  }

  // ---------------------------------------------------------------- the block reader

  function Concat(blocks: seq<Bytes>): Bytes {
    if blocks == [] then [] else blocks[0] + Concat(blocks[1..])
  }

  /** The first k lines were delivered, all of them short enough; the reader stopped at a line that is too long, or
      after the last one. */
  ghost predicate Delivered(lines: seq<Physical>, stopped: bool, s: Bytes, maximum: nat) {
    && lines <= Lines(s)
    && (forall i :: 0 <= i < |lines| ==> |lines[i].raw| <= maximum)
    && (stopped ==> |lines| < |Lines(s)| && |Lines(s)[|lines|].raw| > maximum)
    && (!stopped ==> lines == Lines(s))
  }

  lemma NotShorter(a: seq<Physical>, stopped: bool, b: seq<Physical>, s: Bytes, maximum: nat)
    requires Delivered(a, stopped, s, maximum) && b <= Lines(s)
    requires forall i :: 0 <= i < |b| ==> |b[i].raw| <= maximum
    ensures |b| <= |a|
  {
    hide Lines;
  }

  /** What is delivered is determined by the bytes and the bound: the cuts between blocks do not show. */
  lemma BlocksDoNotShow(a: seq<Physical>, aStopped: bool, b: seq<Physical>, bStopped: bool, s: Bytes, maximum: nat)
    requires Delivered(a, aStopped, s, maximum) && Delivered(b, bStopped, s, maximum)
    ensures a == b && aStopped == bStopped
  {
    NotShorter(a, aStopped, b, s, maximum);
    NotShorter(b, bStopped, a, s, maximum);
  }

  /** Some lines are done, a line has begun, and the rest is still to come. */
  ghost predicate Underway(lines: seq<Physical>, line: Bytes, rest: Bytes, s: Bytes, maximum: nat) {
    && LineFree(line) && AllLines(s) == lines + AllLines(line + rest)
    && (forall i :: 0 <= i < |lines| ==> |lines[i].raw| <= maximum)
  }

  lemma FeedEndsLine(lines: seq<Physical>, line: Bytes, after: Bytes, s: Bytes, maximum: nat)
    requires Underway(lines, line, [LF] + after, s, maximum) && |WithoutReturn(line)| <= maximum
    ensures Underway(lines + [Terminated(line)], [], after, s, maximum)
  {
    hide WithoutReturn, AllLines;
    OneLine(line, after);
    assert line + ([LF] + after) == line + [LF] + after && [] + after == after;
    ConcatAssociates(lines, [Terminated(line)], AllLines(after));
  }

  lemma LineGrows(lines: seq<Physical>, line: Bytes, segment: Bytes, rest: Bytes, s: Bytes, maximum: nat)
    requires LineFree(segment) && Underway(lines, line, segment + rest, s, maximum)
    ensures Underway(lines, line + segment, rest, s, maximum)
  {
    assert line + (segment + rest) == (line + segment) + rest;
  }

  /** Whatever a line begins with is part of it; so a beginning that is too long makes it too long. */
  lemma TooLong(lines: seq<Physical>, line: Bytes, rest: Bytes, s: Bytes, maximum: nat)
    requires Underway(lines, line, rest, s, maximum)
    requires |line| > maximum + 1
          || (rest == [] && |line| > maximum)
          || (rest != [] && rest[0] == LF && |WithoutReturn(line)| > maximum)
    ensures Delivered(lines, true, s, maximum)
  {
    var whole := line + rest;
    var n := FirstOf(LF, whole);
    assert n >= |line| && whole[..n][..|line|] == line;
    if rest != [] && rest[0] == LF {
      FirstIs(LF, whole, |line|);
      assert whole[..n] == line;
    }
    var next := AllLines(whole)[0];
    assert |next.raw| > maximum;
    assert AllLines(s)[|lines|] == next;
    LinesBegin(s, lines, AllLines(whole));
  }

  lemma LinesBegin(s: Bytes, lines: seq<Physical>, after: seq<Physical>)
    requires AllLines(s) == lines + after && after != [] && after[0].raw != []
    requires after[0].bytes > 0
    ensures lines <= Lines(s) && |lines| < |Lines(s)| && Lines(s)[|lines|] == after[0]
  {
  }

  lemma AllDone(lines: seq<Physical>, line: Bytes, s: Bytes, maximum: nat)
    requires Underway(lines, line, [], s, maximum) && |line| <= maximum
    ensures Delivered(if line == [] then lines else lines + [Physical(line, |line|)], false, s, maximum)
  {
    assert line + [] == line;
    OneLine(line, []);
  }

  /** One block: each line feed in it ends a line. */
  method ReadBlock(before: seq<Physical>, begun: Bytes, block: Bytes, maximum: nat, ghost rest: Bytes, ghost s: Bytes)
    returns (lines: seq<Physical>, line: Bytes, stopped: bool)
    requires Underway(before, begun, block + rest, s, maximum)
    ensures stopped ==> Delivered(lines, true, s, maximum)
    ensures !stopped ==> Underway(lines, line, rest, s, maximum)
  {
    hide Underway, Delivered, Terminated, WithoutReturn;
    lines, line, stopped := before, begun, false;
    var cursor := 0;
    assert block[0..] == block;
    while cursor < |block|
      invariant cursor <= |block| && Underway(lines, line, block[cursor..] + rest, s, maximum)
      decreases |block| - cursor
    {
      var endpoint := cursor + FirstOf(LF, block[cursor..]);
      var segment := block[cursor..endpoint];
      assert forall i :: 0 <= i < |segment| ==> segment[i] == block[cursor..][i];
      if endpoint == |block| {
        assert block[cursor..] + rest == segment + rest;
        LineGrows(lines, line, segment, rest, s, maximum);
        line := line + segment;
        if |line| > maximum + 1 {
          TooLong(lines, line, rest, s, maximum);
          return lines, line, true;
        }
        return lines, line, false;
      }
      ghost var after := block[endpoint + 1..] + rest;
      assert block[endpoint] == LF && block[cursor..] + rest == segment + ([LF] + after);
      LineGrows(lines, line, segment, [LF] + after, s, maximum);
      if |line| + |segment| > maximum + 1 || |WithoutReturn(line + segment)| > maximum {
        TooLong(lines, line + segment, [LF] + after, s, maximum);
        return lines, line, true;
      }
      FeedEndsLine(lines, line + segment, after, s, maximum);
      lines, line, cursor := lines + [Terminated(line + segment)], [], endpoint + 1;
    }
    assert block[cursor..] + rest == rest;
  }

  /** Whatever the blocks are, the lines of the bytes are delivered, up to the first one that is too long. */
  method BinaryLines(blocks: seq<Bytes>, maximum: nat) returns (lines: seq<Physical>, stopped: bool)
    ensures Delivered(lines, stopped, Concat(blocks), maximum)
  {
    hide Underway, Delivered;
    ghost var s := Concat(blocks);
    var line: Bytes := [];
    lines := [];
    Begun(s, maximum);
    for i := 0 to |blocks|
      invariant Underway(lines, line, Concat(blocks[i..]), s, maximum)
    {
      assert blocks[i..][0] == blocks[i] && blocks[i..][1..] == blocks[i + 1..];
      lines, line, stopped := ReadBlock(lines, line, blocks[i], maximum, Concat(blocks[i + 1..]), s);
      if stopped {
        return;
      }
    }
    if |line| > maximum {
      TooLong(lines, line, [], s, maximum);
      return lines, true;
    }
    AllDone(lines, line, s, maximum);
    return if line == [] then lines else lines + [Physical(line, |line|)], false;
  }

  lemma Begun(s: Bytes, maximum: nat)
    ensures Underway([], [], s, s, maximum)
  {
    assert [] + s == s;
  }

  // ---------------------------------------------------------------- the text reader

  /** Universal newlines: a carriage return, with the line feed after it if there is one, is one line feed. */
  function Universal(s: Bytes): Bytes {
    if s == [] then []
    else if s[0] != CR then [s[0]] + Universal(s[1..])
    else if |s| > 1 && s[1] == LF then [LF] + Universal(s[2..])
    else [LF] + Universal(s[1..])
  }

  /** `text.split(...)` at one byte. */
  function SplitAt(b: Byte, s: Bytes): (parts: seq<Bytes>)
    ensures parts != []
  {
    var n := FirstOf(b, s);
    if n == |s| then [s] else [s[..n]] + SplitAt(b, s[n + 1..])
  }

  function TextLines(s: Bytes): seq<Bytes> { SplitAt(LF, Universal(s)) }

  /** What the text reader makes of one line: it is cut at each carriage return left in it. */
  function Pieces(raw: Bytes): seq<Bytes> { SplitAt(CR, raw) }

  ghost function AllPieces(lines: seq<Physical>): seq<Bytes> {
    if lines == [] then [] else Pieces(lines[0].raw) + AllPieces(lines[1..])
  }

  function Replaced(line: Bytes): Bytes {
    if line == [] then [] else [if line[0] == CR then LF else line[0]] + Replaced(line[1..])
  }

  lemma {:induction false} UniversalLine(line: Bytes, rest: Bytes)
    requires LineFree(line)
    ensures Universal(line + [LF] + rest) == Replaced(WithoutReturn(line)) + [LF] + Universal(rest)
  {
    var s := line + [LF] + rest;
    if line == [] {
      assert s[1..] == rest && s[0] == LF;
    } else if line == [CR] {
      assert s[1] == LF && s[2..] == rest;
    } else {
      assert s[1..] == line[1..] + [LF] + rest;
      UniversalLine(line[1..], rest);
      assert |line| > 1 ==> s[1] == line[1] != LF;
      ReturnBelow(line);
    }
  }

  lemma ReturnBelow(line: Bytes)
    requires line != [] && line != [CR]
    ensures WithoutReturn(line) != [] && WithoutReturn(line)[0] == line[0]
    ensures WithoutReturn(line)[1..] == WithoutReturn(line[1..])
  {
    if |line| == 1 {
      assert line == [line[0]];
    }
  }

  lemma {:induction false} UniversalLast(line: Bytes)
    requires LineFree(line)
    ensures Universal(line) == Replaced(line)
  {
    if line != [] {
      UniversalLast(line[1..]);
    }
  }

  lemma SplitStep(b: Byte, s: Bytes, n: nat)
    requires n == FirstOf(b, s)
    ensures SplitAt(b, s) == if n == |s| then [s] else [s[..n]] + SplitAt(b, s[n + 1..])
  {
    hide FirstOf;
  }

  lemma SplitCons(b: Byte, c: Byte, s: Bytes)
    ensures SplitAt(b, [c] + s) ==
            if c == b then [[]] + SplitAt(b, s) else [[c] + SplitAt(b, s)[0]] + SplitAt(b, s)[1..]
  {
    hide SplitAt, FirstOf;
    var all, n := [c] + s, FirstOf(b, s);
    SplitStep(b, s, n);
    if c == b {
      FirstIs(b, all, 0);
      SplitStep(b, all, 0);
      assert all[..0] == [] && all[1..] == s;
    } else {
      FirstIs(b, all, n + 1);
      SplitStep(b, all, n + 1);
      assert all[..n + 1] == [c] + s[..n] && (n < |s| ==> all[n + 2..] == s[n + 1..]);
    }
  }

  /** Splitting at line feeds what was split at carriage returns before. */
  lemma {:induction false} SplitReplaced(line: Bytes, rest: Bytes)
    requires LineFree(line)
    ensures SplitAt(LF, Replaced(line) + [LF] + rest) == SplitAt(CR, line) + SplitAt(LF, rest)
    ensures SplitAt(LF, Replaced(line)) == SplitAt(CR, line)
  {
    hide SplitAt;
    if line == [] {
      assert Replaced(line) + [LF] + rest == [LF] + rest;
      SplitCons(LF, LF, rest);
      NothingToSplit(LF);
      NothingToSplit(CR);
    } else {
      var c: Byte := if line[0] == CR then LF else line[0];
      SplitReplaced(line[1..], rest);
      assert Replaced(line) + [LF] + rest == [c] + (Replaced(line[1..]) + [LF] + rest);
      SplitCons(LF, c, Replaced(line[1..]) + [LF] + rest);
      SplitCons(LF, c, Replaced(line[1..]));
      assert line == [line[0]] + line[1..];
      SplitCons(CR, line[0], line[1..]);
      FirstJoins(SplitAt(CR, line[1..]), SplitAt(LF, rest), c);
    }
  }

  lemma NothingToSplit(b: Byte)
    ensures SplitAt(b, []) == [[]]
  {
  }

  lemma FirstJoins(parts: seq<Bytes>, more: seq<Bytes>, c: Byte)
    requires parts != []
    ensures [[c] + (parts + more)[0]] + (parts + more)[1..] == [[c] + parts[0]] + parts[1..] + more
    ensures [[]] + (parts + more) == [[]] + parts + more
  {
  }

  /** The text reader sees the pieces of the lines that the block reader sees, in their order. */
  lemma {:induction false} TextLinesArePieces(s: Bytes)
    ensures TextLines(s) == AllPieces(AllLines(s))
    decreases |s|
  {
    hide SplitAt, Universal;
    var n := FirstOf(LF, s);
    if n == |s| {
      UniversalLast(s);
      SplitReplaced(s, []);
      assert AllPieces([Physical(s, |s|)]) == Pieces(s) + [];
    } else {
      var line, rest := s[..n], s[n + 1..];
      assert s == line + [LF] + rest;
      UniversalLine(line, rest);
      SplitReplaced(WithoutReturn(line), Universal(rest));
      TextLinesArePieces(rest);
      assert ([Terminated(line)] + AllLines(rest))[1..] == AllLines(rest);
    }
  }
}
