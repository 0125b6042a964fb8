/** Model of `addExtraHashToHeadings` from src/modals.ts: split Markdown text on
    line feeds, put `numHashes` extra `#` characters in front of every line that
    starts with `#`, and join the lines back with line feeds. */
module MarkdownHeadings {

  const Newline: char := '\n'
  const Hash: char := '#'

  /** What the JavaScript code can end in: a string, or the RangeError that
      `String.prototype.repeat` throws for a negative count. */
  datatype Result<T> = Ok(value: T) | RangeError

  /** `s.split("\n")`: the pieces between line feeds. Like JavaScript, an empty
      string gives one empty line and a trailing line feed gives an empty last line. */
  function Split(s: string): (lines: seq<string>)
    ensures |lines| == multiset(s)[Newline] + 1
    ensures forall i | 0 <= i < |lines| :: Newline !in lines[i]
    decreases |s|
  {
    if s == [] then [[]]
    else
      assert s == [s[0]] + s[1..];
      var rest := Split(s[1..]);
      if s[0] == Newline then [[]] + rest
      else [[s[0]] + rest[0]] + rest[1..]
  }

  /** `lines.join("\n")`: the lines with one line feed between each two. The
      result starts with the first line and has at least one character per
      separator besides it. */
  function Join(lines: seq<string>): (s: string)
    ensures |lines| > 0 ==> lines[0] <= s
    ensures |lines| > 0 ==> |s| >= |lines[0]| + |lines| - 1
  {
    if |lines| == 0 then []
    else if |lines| == 1 then lines[0]
    else lines[0] + [Newline] + Join(lines[1..])
  }

  /** Lines without line feeds come out of a join separated by exactly one line
      feed each. */
  lemma {:induction false} JoinSeparators(lines: seq<string>)
    requires |lines| > 0
    requires forall i | 0 <= i < |lines| :: Newline !in lines[i]
    ensures multiset(Join(lines))[Newline] == |lines| - 1
  {
    if |lines| > 1 {
      JoinSeparators(lines[1..]);
      assert Newline !in lines[0];
      assert Join(lines) == lines[0] + [Newline] + Join(lines[1..]);
    }
  }

  /** Joining the pieces of a split gives back the text. */
  lemma {:induction false} JoinSplit(s: string)
    ensures Join(Split(s)) == s
    decreases |s|
  {
    if s != [] {
      var rest := Split(s[1..]);
      JoinSplit(s[1..]);
      if s[0] == Newline {
        assert Split(s) == [[]] + rest;
        JoinEmptyFirst(rest);
      } else {
        assert Split(s) == [[s[0]] + rest[0]] + rest[1..];
        JoinCons(s[0], rest);
      }
      assert [s[0]] + s[1..] == s;
    }
  }

  /** An empty first line puts a line feed in front of the join of the rest. */
  lemma {:induction false} JoinEmptyFirst(lines: seq<string>)
    requires |lines| >= 1
    ensures Join([[]] + lines) == [Newline] + Join(lines)
  {
  }

  /** Prepending a character to the first line prepends it to the join. */
  lemma {:induction false} JoinCons(c: char, lines: seq<string>)
    requires |lines| >= 1
    ensures Join([[c] + lines[0]] + lines[1..]) == [c] + Join(lines)
  {
  }

  /** Splitting a text whose first line `a` holds no line feed. */
  lemma {:induction false} SplitAfterLine(a: string, t: string)
    requires Newline !in a
    ensures Split(a + t) == [a + Split(t)[0]] + Split(t)[1..]
    decreases |a|
  {
    if a != [] {
      var s, tl := a + t, Split(t);
      assert s[0] == a[0] != Newline;
      assert s[1..] == a[1..] + t;
      SplitAfterLine(a[1..], t);
      var r := Split(s[1..]);
      assert r == [a[1..] + tl[0]] + tl[1..];
      assert r[0] == a[1..] + tl[0] && r[1..] == tl[1..];
      assert Split(s) == [[s[0]] + r[0]] + r[1..];
      assert [a[0]] + (a[1..] + tl[0]) == a + tl[0];
    } else {
      assert a + t == t;
      assert a + Split(t)[0] == Split(t)[0];
      assert Split(t) == [Split(t)[0]] + Split(t)[1..];
    }
  }

  /** Splitting a join of lines that hold no line feed gives back the lines. */
  lemma {:induction false} SplitJoin(lines: seq<string>)
    requires |lines| >= 1
    requires forall i | 0 <= i < |lines| :: Newline !in lines[i]
    ensures Split(Join(lines)) == lines
  {
    if |lines| == 1 {
      SplitOneLine(lines[0]);
    } else {
      var tail := Join(lines[1..]);
      SplitJoin(lines[1..]);
      SplitLineThenNewline(lines[0], tail);
      JoinFirst(lines);
      assert [lines[0]] + lines[1..] == lines;
    }
  }

  /** The first line, a line feed, then the join of the others. */
  lemma JoinFirst(lines: seq<string>)
    requires |lines| > 1
    ensures Join(lines) == lines[0] + ([Newline] + Join(lines[1..]))
  {
  }

  /** A text without line feeds is a single line. */
  lemma SplitOneLine(line: string)
    requires Newline !in line
    ensures Split(line) == [line]
  {
    SplitAfterLine(line, []);
    assert line + [] == line;
  }

  /** A line without line feeds, a line feed, then more text. */
  lemma SplitLineThenNewline(first: string, tail: string)
    requires Newline !in first
    ensures Split(first + ([Newline] + tail)) == [first] + Split(tail)
  {
    var rest := [Newline] + tail;
    SplitNewlineFirst(tail);
    var r := Split(rest);
    assert r[0] == [] && r[1..] == Split(tail);
    SplitAfterLine(first, rest);
    assert first + r[0] == first;
  }

  /** A leading line feed splits off an empty first line. */
  lemma SplitNewlineFirst(t: string)
    ensures Split([Newline] + t) == [[]] + Split(t)
  {
  }

  /** `line.startsWith("#")`: the line is not empty and its first character is `#`. */
  predicate IsHeading(line: string)
    ensures IsHeading(line) <==> |line| > 0 && line[0] == Hash
  {
    [Hash] <= line
  }

  predicate HasHeading(lines: seq<string>)
  {
    exists i | 0 <= i < |lines| :: IsHeading(lines[i])
  }

  /** `"#".repeat(count)`, as ECMAScript defines `String.prototype.repeat` for an
      integer count (the engine's limit on string length is not modelled). */
  function RepeatHash(count: int): (r: Result<string>)
    ensures r.Ok? <==> count >= 0
    ensures r.Ok? ==> |r.value| == count && forall i | 0 <= i < count :: r.value[i] == Hash
    decreases if count < 0 then 0 else count
  {
    if count < 0 then RangeError
    else if count == 0 then Ok([])
    else Ok([Hash] + RepeatHash(count - 1).value)
  }

  /** A line after the loop body has run on it with a non-negative count. */
  function Rehash(line: string, n: nat): string
  {
    if IsHeading(line) then RepeatHash(n).value + line else line
  }

  function RehashAll(lines: seq<string>, n: nat): seq<string>
  {
    seq(|lines|, i requires 0 <= i < |lines| => Rehash(lines[i], n))
  }

  /** What `addExtraHashToHeadings(markdownText, numHashes)` returns or throws.
      The repeat is evaluated only on heading lines, so a negative count throws
      exactly when some line is a heading; when no line is, the count is never
      used and 0 stands in for it. */
  function WithExtraHashes(markdownText: string, numHashes: int := 1): (r: Result<string>)
    ensures r.RangeError? <==> numHashes < 0 && HasHeading(Split(markdownText))
    ensures numHashes < 0 && r.Ok? ==> r.value == markdownText
  {
    var lines := Split(markdownText);
    if numHashes < 0 && HasHeading(lines) then RangeError
    else
      var out := Join(RehashAll(lines, if numHashes < 0 then 0 else numHashes));
      assert numHashes < 0 ==> out == markdownText by {
        if numHashes < 0 {
          RehashZero(lines);
          JoinSplit(markdownText);
        }
      }
      Ok(out)
  }

  /** With a count of zero, the loop body leaves every line as it was. */
  lemma RehashZero(lines: seq<string>)
    ensures RehashAll(lines, 0) == lines
  {
    forall i | 0 <= i < |lines| ensures RehashAll(lines, 0)[i] == lines[i] {
      assert [] + lines[i] == lines[i];
    }
  }

  /** The source's loop: split, rewrite `lines[i]` in place, join. */
  method AddExtraHashToHeadings(markdownText: string, numHashes: int := 1) returns (r: Result<string>)
    ensures r == WithExtraHashes(markdownText, numHashes)
  {
    var split := Split(markdownText);
    var lines := new string[|split|](i requires 0 <= i < |split| => split[i]);
    ghost var n: nat := if numHashes < 0 then 0 else numHashes;
    for i := 0 to lines.Length
      invariant forall k | 0 <= k < i :: numHashes < 0 ==> !IsHeading(split[k])
      invariant forall k | 0 <= k < i :: lines[k] == Rehash(split[k], n)
      invariant forall k | i <= k < lines.Length :: lines[k] == split[k]
    {
      if IsHeading(lines[i]) {
        var hashes := RepeatHash(numHashes);
        if hashes.RangeError? {
          assert IsHeading(split[i]);
          return RangeError;
        }
        lines[i] := hashes.value + lines[i];
      }
    }
    assert lines[..] == RehashAll(split, n);
    return Ok(Join(lines[..]));
  }

  /** The output has as many lines as the input; the call throws exactly when
      the count is negative and some line is a heading. */
  lemma LineCountPreserved(markdownText: string, numHashes: int)
    ensures WithExtraHashes(markdownText, numHashes).Ok? <==> !(numHashes < 0 && HasHeading(Split(markdownText)))
    ensures WithExtraHashes(markdownText, numHashes).Ok? ==>
      |Split(WithExtraHashes(markdownText, numHashes).value)| == |Split(markdownText)|
  {
    if WithExtraHashes(markdownText, numHashes).Ok? {
      HeadingsGainHashes(markdownText, numHashes);
    }
  }

  /** Line by line: a heading line gains exactly `numHashes` `#` characters in
      front, every other line is unchanged. */
  lemma HeadingsGainHashes(markdownText: string, numHashes: int)
    requires WithExtraHashes(markdownText, numHashes).Ok?
    ensures var before, after := Split(markdownText), Split(WithExtraHashes(markdownText, numHashes).value);
      |after| == |before| &&
      forall i | 0 <= i < |before| ::
        if IsHeading(before[i]) then
          |after[i]| == numHashes + |before[i]| &&
          (forall j | 0 <= j < numHashes :: after[i][j] == Hash) &&
          after[i][numHashes..] == before[i]
        else after[i] == before[i]
  {
    var before := Split(markdownText);
    var n: nat := if numHashes < 0 then 0 else numHashes;
    var rehashed := RehashAll(before, n);
    forall i | 0 <= i < |rehashed| ensures Newline !in rehashed[i] {
      assert Newline !in before[i];
      if IsHeading(before[i]) {
        var hashes := RepeatHash(n).value;
        assert forall j | 0 <= j < |hashes| :: hashes[j] == Hash;
        assert Newline !in hashes;
        assert rehashed[i] == hashes + before[i];
      }
    }
    SplitJoin(rehashed);
    forall i | 0 <= i < |before| && IsHeading(before[i])
      ensures rehashed[i][numHashes..] == before[i]
    {
      assert rehashed[i] == RepeatHash(n).value + before[i];
    }
  }

  /** With no extra hashes the text comes back unchanged. */
  lemma ZeroHashesIdentity(markdownText: string)
    ensures WithExtraHashes(markdownText, 0) == Ok(markdownText)
  {
    RehashZero(Split(markdownText));
    JoinSplit(markdownText);
  }
}
