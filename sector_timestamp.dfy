// Removal of the timestamp comment that the map server writes into every
// sector file (`_removeTimestampFromSector`), so that an unchanged sector
// does not show up as modified in every snapshot.
module SectorTimestamp {
  import opened Wrappers
  import opened Strings

  /**
   * The shape of the timestamp "YYYY-MM-DDThh:mm:ss+hh:mm": 'd' stands for a
   * decimal digit, 's' for the sign of the UTC offset ('+' or '-'), and every
   * other character for itself.
   */
  const TimestampShape: string := "dddd-dd-ddTdd:dd:ddsdd:dd"

  predicate CharMatches(c: char, shape: char)
  {
    if shape == 'd' then IsDigit(c) else if shape == 's' then c == '+' || c == '-' else c == shape
  }

  /**
   * The sector timestamp pattern `^#\s*<timestamp>\s*$`: a '#', optional
   * white space, the timestamp, then nothing but white space up to the end.
   */
  predicate IsTimestampLine(line: string)
  {
    |line| > 0 && line[0] == '#' && SpaceThenTimestamp(line, 1)
  }

  /**
   * `\s*<timestamp>\s*$` from index `i`. The white space after '#' can only
   * be the longest run of it, since the timestamp starts with a digit.
   */
  predicate SpaceThenTimestamp(line: string, i: nat)
    decreases |line| - i
  {
    if i < |line| && IsSpace(line[i]) then SpaceThenTimestamp(line, i + 1)
    else TimestampFrom(line, i, 0)
  }

  /** The shape from its `j`-th character on, at index `i`, then only white space. */
  predicate TimestampFrom(line: string, i: nat, j: nat)
    decreases |TimestampShape| - j
  {
    if j >= |TimestampShape| then SpaceToEnd(line, i)
    else i < |line| && CharMatches(line[i], TimestampShape[j]) && TimestampFrom(line, i + 1, j + 1)
  }

  predicate SpaceToEnd(line: string, i: nat)
    decreases |line| - i
  {
    i >= |line| || (IsSpace(line[i]) && SpaceToEnd(line, i + 1))
  }

  /** A line matching the pattern holds the '#' and the whole 25-character timestamp. */
  lemma TimestampLineLength(line: string)
    requires IsTimestampLine(line)
    ensures |line| >= 1 + |TimestampShape|
  {
    SpaceThenTimestampLength(line, 1);
  }

  lemma {:induction false} SpaceThenTimestampLength(line: string, i: nat)
    requires SpaceThenTimestamp(line, i)
    ensures i + |TimestampShape| <= |line|
    decreases |line| - i
  {
    if i < |line| && IsSpace(line[i]) {
      SpaceThenTimestampLength(line, i + 1);
    } else {
      TimestampFromLength(line, i, 0);
    }
  }

  lemma {:induction false} TimestampFromLength(line: string, i: nat, j: nat)
    requires j < |TimestampShape| && TimestampFrom(line, i, j)
    ensures i + (|TimestampShape| - j) <= |line|
    decreases |TimestampShape| - j
  {
    if j + 1 < |TimestampShape| {
      TimestampFromLength(line, i + 1, j + 1);
    }
  }

  /**
   * What the pattern accepts and refuses: an ISO 8601 timestamp with a
   * numeric UTC offset matches; the same time written with 'Z' does not.
   */
  lemma TimestampLineExamples()
    ensures IsTimestampLine("# 2023-01-01T00:00:00+00:00")
    ensures !IsTimestampLine("# 2023-01-01T00:00:00Z")
  {
    OffsetAccepted();
    ZuluRefused();
  }

  lemma OffsetAccepted()
    ensures IsTimestampLine("# 2023-01-01T00:00:00+00:00")
  {
    var line := "# 2023-01-01T00:00:00+00:00";
    // the date "2023-01-01"
    assert IsDigit(line[2]) && IsDigit(line[3]) && IsDigit(line[4]) && IsDigit(line[5]) && line[6] == '-';
    assert IsDigit(line[7]) && IsDigit(line[8]) && line[9] == '-' && IsDigit(line[10]) && IsDigit(line[11]);
    // the time "T00:00:00"
    assert line[12] == 'T' && IsDigit(line[13]) && IsDigit(line[14]) && line[15] == ':';
    assert IsDigit(line[16]) && IsDigit(line[17]) && line[18] == ':' && IsDigit(line[19]) && IsDigit(line[20]);
    // the offset "+00:00", ending the line
    assert line[21] == '+' && IsDigit(line[22]) && IsDigit(line[23]) && line[24] == ':';
    assert IsDigit(line[25]) && IsDigit(line[26]) && |line| == 27;
    assert TimestampFrom(line, 22, 20);
    assert TimestampFrom(line, 17, 15);
    assert TimestampFrom(line, 12, 10);
    assert TimestampFrom(line, 7, 5);
    assert TimestampFrom(line, 2, 0);
    assert SpaceThenTimestamp(line, 1);
  }

  lemma ZuluRefused()
    ensures !IsTimestampLine("# 2023-01-01T00:00:00Z")
  {
    var line := "# 2023-01-01T00:00:00Z";
    assert !TimestampFrom(line, 21, 19);
    assert !TimestampFrom(line, 17, 15);
    assert !TimestampFrom(line, 12, 10);
    assert !TimestampFrom(line, 7, 5);
    assert !TimestampFrom(line, 2, 0);
    assert !SpaceThenTimestamp(line, 1);
  }

  /** How many lines match the timestamp pattern. */
  function TimestampCount(lines: seq<string>): nat
  {
    if |lines| == 0 then 0
    else TimestampCount(lines[..|lines| - 1]) + (if IsTimestampLine(lines[|lines| - 1]) then 1 else 0)
  }

  /** The lines that do not match the timestamp pattern, in their original order. */
  function WithoutTimestamps(lines: seq<string>): seq<string>
  {
    if |lines| == 0 then []
    else if IsTimestampLine(lines[|lines| - 1]) then WithoutTimestamps(lines[..|lines| - 1])
    else WithoutTimestamps(lines[..|lines| - 1]) + [lines[|lines| - 1]]
  }

  /** Every line followed by '\n', concatenated. */
  function Terminated(lines: seq<string>): string
  {
    if |lines| == 0 then "" else lines[0] + "\n" + Terminated(lines[1..])
  }

  /**
   * `_removeTimestampFromSector`: drops every timestamp line, re-emits the
   * others each followed by '\n', and fails unless exactly one was dropped.
   */
  method RemoveTimestampFromSector(sectorData: string) returns (r: Option<string>)
    ensures r.None? <==> TimestampCount(SplitLines(sectorData)) != 1
    ensures r.Some? ==> r.value == Terminated(WithoutTimestamps(SplitLines(sectorData)))
  {
    var lines := SplitLines(sectorData);
    var linesRemoved := 0;
    var modifiedData := "";
    for i := 0 to |lines|
      invariant linesRemoved == TimestampCount(lines[..i])
      invariant modifiedData == Terminated(WithoutTimestamps(lines[..i]))
    {
      var line := lines[i];
      assert lines[..i + 1] == lines[..i] + [line];
      LinesSnoc(lines[..i], line);
      TerminatedSnoc(WithoutTimestamps(lines[..i]), line);
      if !IsTimestampLine(line) {
        modifiedData := modifiedData + line + "\n";
      } else {
        linesRemoved := linesRemoved + 1;
      }
    }
    assert lines[..|lines|] == lines;
    if linesRemoved != 1 {
      return None;
    }
    return Some(modifiedData);
  }

  lemma LinesSnoc(lines: seq<string>, line: string)
    ensures TimestampCount(lines + [line]) == TimestampCount(lines) + (if IsTimestampLine(line) then 1 else 0)
    ensures WithoutTimestamps(lines + [line]) ==
      WithoutTimestamps(lines) + (if IsTimestampLine(line) then [] else [line])
  {
    assert (lines + [line])[..|lines|] == lines;
  }

  lemma TerminatedSnoc(lines: seq<string>, line: string)
    ensures Terminated(lines + [line]) == Terminated(lines) + line + "\n"
  {
    TerminatedAppend(lines, [line]);
    assert [line][1..] == [];
  }

  /**
   * With exactly one timestamp line, the kept lines are all the others, in
   * order: nothing else is dropped or reordered.
   */
  lemma {:induction false} OnlyTheTimestampIsDropped(lines: seq<string>)
    requires TimestampCount(lines) == 1
    ensures exists k :: (0 <= k < |lines| && IsTimestampLine(lines[k]) &&
      WithoutTimestamps(lines) == lines[..k] + lines[k + 1..])
  {
    var n := |lines|;
    var init, last := lines[..n - 1], lines[n - 1];
    assert lines == init + [last];
    LinesSnoc(init, last);
    if IsTimestampLine(last) {
      NoTimestampsKept(init);
      assert WithoutTimestamps(lines) == lines[..n - 1] + lines[n..];
    } else {
      OnlyTheTimestampIsDropped(init);
      var k :| 0 <= k < |init| && IsTimestampLine(init[k]) &&
        WithoutTimestamps(init) == init[..k] + init[k + 1..];
      DropStillOne(lines, init, last, k);
    }
  }

  /** Dropping line `k` of the first lines, then appending the last, drops line `k` of all of them. */
  lemma DropStillOne(lines: seq<string>, init: seq<string>, last: string, k: int)
    requires lines == init + [last] && 0 <= k < |init|
    ensures lines[k] == init[k]
    ensures init[..k] + init[k + 1..] + [last] == lines[..k] + lines[k + 1..]
  {
    assert lines[..k] == init[..k];
    assert lines[k + 1..] == init[k + 1..] + [last];
  }

  /** Without any timestamp line every line is kept. */
  lemma {:induction false} NoTimestampsKept(lines: seq<string>)
    requires TimestampCount(lines) == 0
    ensures WithoutTimestamps(lines) == lines
  {
    if |lines| > 0 {
      var init, last := lines[..|lines| - 1], lines[|lines| - 1];
      assert lines == init + [last];
      LinesSnoc(init, last);
      NoTimestampsKept(init);
    }
  }

  lemma {:induction false} TerminatedAppend(a: seq<string>, b: seq<string>)
    ensures Terminated(a + b) == Terminated(a) + Terminated(b)
    decreases |a|
  {
    if |a| == 0 {
      assert a + b == b;
    } else {
      assert (a + b)[1..] == a[1..] + b;
      TerminatedAppend(a[1..], b);
      Regroup(Terminated(a), a[0], Terminated(a[1..]), Terminated(b));
    }
  }

  /** Moving the rest of a text inside its tail. */
  lemma Regroup(text: string, head: string, tailText: string, rest: string)
    requires text == head + "\n" + tailText
    ensures text + rest == head + "\n" + (tailText + rest)
  {
  }

  predicate NoLineBreak(line: string)
  {
    forall k :: 0 <= k < |line| ==> !IsLineBreak(line[k])
  }

  /** One line with no line break, then '\n', then the rest splits as that line and the rest's lines. */
  lemma SplitLinesCons(line: string, rest: string)
    requires NoLineBreak(line)
    ensures SplitLines(line + "\n" + rest) == [line] + SplitLines(rest)
  {
    var s := line + "\n" + rest;
    assert s == line + ("\n" + rest);
    LineLengthOf(line, "\n" + rest);
    assert s[|line|] == '\n';
    assert s[..|line|] == line;
    assert s[|line| + 1..] == rest;
  }

  lemma {:induction false} LineLengthOf(line: string, rest: string)
    requires NoLineBreak(line)
    requires |rest| > 0 && IsLineBreak(rest[0])
    ensures LineLength(line + rest) == |line|
    decreases |line|
  {
    if |line| == 0 {
      assert line + rest == rest;
    } else {
      assert (line + rest)[1..] == line[1..] + rest;
      LineLengthOf(line[1..], rest);
    }
  }

  /**
   * Lines without line breaks, each followed by '\n', split back into the
   * same lines: the stripped sector data is well-formed text whose lines are
   * exactly the kept ones.
   */
  lemma {:induction false} SplitTerminated(lines: seq<string>, rest: string)
    requires forall i :: 0 <= i < |lines| ==> NoLineBreak(lines[i])
    ensures SplitLines(Terminated(lines) + rest) == lines + SplitLines(rest)
    decreases |lines|
  {
    if |lines| > 0 {
      var head, tail := lines[0], lines[1..];
      Regroup(Terminated(lines), head, Terminated(tail), rest);
      SplitTerminated(tail, rest);
      SplitLinesCons(head, Terminated(tail) + rest);
      SplitStep(lines, rest, Terminated(lines), Terminated(tail));
    } else {
      assert Terminated(lines) + rest == rest;
    }
  }

  /** The inductive step of `SplitTerminated`, over the two texts as plain values. */
  lemma SplitStep(lines: seq<string>, rest: string, text: string, tailText: string)
    requires |lines| > 0
    requires text + rest == lines[0] + "\n" + (tailText + rest)
    requires SplitLines(tailText + rest) == lines[1..] + SplitLines(rest)
    requires SplitLines(lines[0] + "\n" + (tailText + rest)) == [lines[0]] + SplitLines(tailText + rest)
    ensures SplitLines(text + rest) == lines + SplitLines(rest)
  {
    ConsAppend(lines, SplitLines(rest));
  }

  lemma ConsAppend<T>(xs: seq<T>, ys: seq<T>)
    requires |xs| > 0
    ensures [xs[0]] + (xs[1..] + ys) == xs + ys
  {
    assert xs == [xs[0]] + xs[1..];
  }

  lemma {:induction false} WithoutTimestampsAppend(a: seq<string>, b: seq<string>)
    ensures WithoutTimestamps(a + b) == WithoutTimestamps(a) + WithoutTimestamps(b)
    ensures TimestampCount(a + b) == TimestampCount(a) + TimestampCount(b)
    decreases |b|
  {
    if |b| == 0 {
      assert a + b == a;
    } else {
      var b', last := b[..|b| - 1], b[|b| - 1];
      assert b == b' + [last];
      assert a + b == (a + b') + [last];
      LinesSnoc(a + b', last);
      LinesSnoc(b', last);
      WithoutTimestampsAppend(a, b');
    }
  }

  /**
   * Sector data made of '\n'-terminated lines with exactly one timestamp
   * line comes back with just that line (and its '\n') removed, every other
   * character in place.
   */
  lemma StripsOnlyTheTimestampLine(before: seq<string>, stamp: string, after: seq<string>)
    requires forall l :: l in before + after ==> NoLineBreak(l) && !IsTimestampLine(l)
    requires NoLineBreak(stamp) && IsTimestampLine(stamp)
    ensures var data := Terminated(before) + stamp + "\n" + Terminated(after);
      TimestampCount(SplitLines(data)) == 1
      && Terminated(WithoutTimestamps(SplitLines(data))) == Terminated(before) + Terminated(after)
  {
    var lines := before + [stamp] + after;
    TerminatedAround(before, stamp, after);
    forall i | 0 <= i < |lines| ensures NoLineBreak(lines[i]) {
      if i != |before| {
        assert lines[i] in before + after;
      }
    }
    SplitTerminatedAll(lines);
    CountAround(before, stamp, after);
    TerminatedAppend(before, after);
  }

  /** The text of a whole sequence of lines splits back into exactly those lines. */
  lemma SplitTerminatedAll(lines: seq<string>)
    requires forall i :: 0 <= i < |lines| ==> NoLineBreak(lines[i])
    ensures SplitLines(Terminated(lines)) == lines
  {
    SplitTerminated(lines, "");
    assert Terminated(lines) + "" == Terminated(lines);
    assert lines + [] == lines;
  }

  lemma TerminatedAround(before: seq<string>, stamp: string, after: seq<string>)
    ensures Terminated(before + [stamp] + after) == Terminated(before) + stamp + "\n" + Terminated(after)
  {
    TerminatedAppend(before + [stamp], after);
    TerminatedSnoc(before, stamp);
  }

  lemma CountAround(before: seq<string>, stamp: string, after: seq<string>)
    requires forall l :: l in before + after ==> !IsTimestampLine(l)
    requires IsTimestampLine(stamp)
    ensures TimestampCount(before + [stamp] + after) == 1
    ensures WithoutTimestamps(before + [stamp] + after) == before + after
  {
    forall l | l in before ensures !IsTimestampLine(l) {
      assert l in before + after;
    }
    forall l | l in after ensures !IsTimestampLine(l) {
      assert l in before + after;
    }
    NoTimestampsIn(before);
    NoTimestampsIn(after);
    WithoutTimestampsAppend(before + [stamp], after);
    LinesSnoc(before, stamp);
  }

  lemma {:induction false} NoTimestampsIn(lines: seq<string>)
    requires forall l :: l in lines ==> !IsTimestampLine(l)
    ensures TimestampCount(lines) == 0 && WithoutTimestamps(lines) == lines
  {
    if |lines| > 0 {
      var init, last := lines[..|lines| - 1], lines[|lines| - 1];
      assert lines == init + [last];
      LinesSnoc(init, last);
      NoTimestampsIn(init);
    }
  }
}
