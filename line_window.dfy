/** The containment test shared by `FileUpdater._contains`
    (bumpv/client/files/updater.py) and `ConfiguredFile.contains`
    (bumpv/client/config/configured_file.py): the search text is split into lines,
    and a window of at most that many file lines trails the current line. After every
    line the window matches when the first search line occurs in its first line, the
    last search line occurs in its last line, and the lines in between are equal. */
module LineWindow {
  import opened Wrappers
  import opened Strings

  /** Why the scan gave up: `search_lines[0]` on a search text with no lines. */
  datatype WindowError = EmptySearch

  /** Python's `xs[1:-1]`. */
  function Inner(xs: seq<string>): (r: seq<string>)
    ensures |r| == if |xs| <= 2 then 0 else |xs| - 2
    ensures forall k :: 0 <= k < |r| ==> r[k] == xs[k + 1]
  {
    if |xs| <= 2 then [] else xs[1..|xs| - 1]
  }

  /** The test made on the window `w` for the search lines `s`. */
  predicate WindowMatches(s: seq<string>, w: seq<string>)
    requires |s| > 0 && |w| > 0
  {
    && Contains(w[0], s[0])
    && Contains(w[|w| - 1], s[|s| - 1])
    && Inner(s) == Inner(w)
  }

  /** The window after reading line `j`: the last `n` lines up to and including it,
      or all of them while fewer have been read. */
  function WindowAt(lines: seq<string>, j: nat, n: nat): (w: seq<string>)
    requires j < |lines|
    ensures |w| == if j + 1 < n then j + 1 else n
  {
    if j + 1 < n then lines[..j + 1] else lines[j + 1 - n..j + 1]
  }

  /** The window after line `j` matches. */
  predicate MatchesAt(s: seq<string>, lines: seq<string>, j: nat)
    requires |s| > 0 && j < |lines|
  {
    WindowMatches(s, WindowAt(lines, j, |s|))
  }

  /** What the scan answers: no file line, no match and no error; search lines but
      none in the text, IndexError at the first file line; otherwise whether the
      window matches after some line. */
  function ScanSpec(s: seq<string>, lines: seq<string>): Result<bool, WindowError> {
    if lines == [] then Success(false)
    else if s == [] then Failure(EmptySearch)
    else Success(exists j :: 0 <= j < |lines| && MatchesAt(s, lines, j))
  }

  /** The `lookbehind` loop: append the line, drop the oldest line once there are more
      lines than search lines, test, and stop at the first match. */
  method Scan(s: seq<string>, lines: seq<string>) returns (r: Result<bool, WindowError>)
    ensures r == ScanSpec(s, lines)
  {
    var lookbehind: seq<string> := [];
    for i := 0 to |lines|
      invariant i == 0 ==> lookbehind == []
      invariant i > 0 ==> s != [] && lookbehind == WindowAt(lines, i - 1, |s|)
      invariant s != [] ==> NoMatchBefore(s, lines, i)
    {
      lookbehind := lookbehind + [lines[i]];
      if |lookbehind| > |s| {
        lookbehind := lookbehind[1..];
      }
      if s == [] {
        return Failure(EmptySearch);
      }
      WindowNext(lines, i, |s|);
      assert lookbehind == WindowAt(lines, i, |s|);
      if WindowMatches(s, lookbehind) {
        assert MatchesAt(s, lines, i);
        return Success(true);
      }
      NoMatchStep(s, lines, i);
    }
    assert s != [] ==> NoMatchBefore(s, lines, |lines|);
    return Success(false);
  }

  /** No window matches after any of the first `i` lines. */
  predicate NoMatchBefore(s: seq<string>, lines: seq<string>, i: nat)
    requires |s| > 0 && i <= |lines|
  {
    forall j :: 0 <= j < i ==> !MatchesAt(s, lines, j)
  }

  lemma NoMatchStep(s: seq<string>, lines: seq<string>, i: nat)
    requires |s| > 0 && i < |lines|
    requires NoMatchBefore(s, lines, i) && !MatchesAt(s, lines, i)
    ensures NoMatchBefore(s, lines, i + 1)
  {
  }

  /** Appending line `i` to the window after line `i - 1` and dropping its oldest
      line when it is too long gives the window after line `i`. */
  lemma WindowNext(lines: seq<string>, i: nat, n: nat)
    requires i < |lines| && n > 0
    ensures var w := (if i == 0 then [] else WindowAt(lines, i - 1, n)) + [lines[i]];
      (if |w| > n then w[1..] else w) == WindowAt(lines, i, n)
  {
    if i > 0 && i + 1 > n {
      var w := WindowAt(lines, i - 1, n) + [lines[i]];
      assert WindowAt(lines, i - 1, n) == lines[i - n..i];
      assert w == lines[i - n..i + 1];
      assert w[1..] == lines[i + 1 - n..i + 1];
    } else if i > 0 {
      assert lines[..i] + [lines[i]] == lines[..i + 1];
    }
  }

  /** `_contains` / `contains` on a whole file: the search text split with
      `str.splitlines()`, the file read as lines without their newline. */
  function ContainsText(search: string, content: string): Result<bool, WindowError> {
    ScanSpec(SplitLinesWith(search, StrBreaks), FileLines(content))
  }

  // ---------------------------------------------------------------------------
  // What the window test amounts to

  /** A one-line search matches exactly when some line contains it. */
  lemma SingleLineSearch(s0: string, lines: seq<string>)
    ensures ScanSpec([s0], lines) == Success(exists j :: 0 <= j < |lines| && Contains(lines[j], s0))
  {
    forall j | 0 <= j < |lines|
      ensures MatchesAt([s0], lines, j) <==> Contains(lines[j], s0)
    {
      assert WindowAt(lines, j, 1) == [lines[j]];
    }
  }

  /** A search text without line breaks is found exactly when one line of the file
      contains it. */
  lemma SingleLineText(search: string, content: string)
    requires search != [] && forall k :: 0 <= k < |search| ==> !IsStrLineBreak(search[k])
    ensures ContainsText(search, content)
         == Success(exists j :: 0 <= j < |FileLines(content)| && Contains(FileLines(content)[j], search))
  {
    SplitLinesSingle(search, StrBreaks);
    SingleLineSearch(search, FileLines(content));
  }

  /** The `n` lines from `k` on pass the test. */
  predicate FullMatchAt(s: seq<string>, lines: seq<string>, k: nat)
    requires |s| > 0 && k + |s| <= |lines|
  {
    WindowMatches(s, lines[k..k + |s|])
  }

  /** Any `n` consecutive lines that pass the test are found. */
  lemma FullWindowFound(s: seq<string>, lines: seq<string>, k: nat)
    requires |s| > 0 && k + |s| <= |lines|
    requires FullMatchAt(s, lines, k)
    ensures ScanSpec(s, lines) == Success(true)
  {
    assert WindowAt(lines, k + |s| - 1, |s|) == lines[k..k + |s|];
    assert MatchesAt(s, lines, k + |s| - 1);
  }

  /** With three or more search lines the interior lines must be equal, so only a full
      window of `n` lines can match. */
  lemma LongSearchNeedsFullWindow(s: seq<string>, lines: seq<string>, j: nat)
    requires |s| >= 3 && j < |lines| && MatchesAt(s, lines, j)
    ensures j + 1 >= |s|
    ensures WindowAt(lines, j, |s|) == lines[j + 1 - |s|..j + 1]
  {
    assert |Inner(s)| == |Inner(WindowAt(lines, j, |s|))|;
  }

  /** For three or more search lines the scan answers exactly whether some run of `n`
      consecutive lines passes the test. */
  lemma LongSearchIff(s: seq<string>, lines: seq<string>)
    requires |s| >= 3
    ensures ScanSpec(s, lines)
         == Success(exists k: nat :: k + |s| <= |lines| && FullMatchAt(s, lines, k))
  {
    if exists j :: 0 <= j < |lines| && MatchesAt(s, lines, j) {
      var j :| 0 <= j < |lines| && MatchesAt(s, lines, j);
      LongMatchIsFull(s, lines, j);
    }
    if exists k: nat :: k + |s| <= |lines| && FullMatchAt(s, lines, k) {
      var k: nat :| k + |s| <= |lines| && FullMatchAt(s, lines, k);
      FullWindowFound(s, lines, k);
    }
  }

  /** A match of three or more search lines is a run of `n` lines that passes. */
  lemma LongMatchIsFull(s: seq<string>, lines: seq<string>, j: nat)
    requires |s| >= 3 && j < |lines| && MatchesAt(s, lines, j)
    ensures exists k: nat :: k + |s| <= |lines| && FullMatchAt(s, lines, k)
  {
    LongSearchNeedsFullWindow(s, lines, j);
    var k := j + 1 - |s|;
    assert FullMatchAt(s, lines, k);
  }

  /** The test also runs while the window is not yet full: a two-line search matches
      when the first file line contains both of its lines. */
  lemma TwoLineSearchOnFirstLine(s: seq<string>, lines: seq<string>)
    requires |s| == 2 && lines != []
    requires Contains(lines[0], s[0]) && Contains(lines[0], s[1])
    ensures ScanSpec(s, lines) == Success(true)
  {
    assert WindowAt(lines, 0, 2) == [lines[0]];
    assert MatchesAt(s, lines, 0);
  }

  /** A search text with no lines raises IndexError as soon as the file has a line,
      and a file without lines never matches. */
  lemma ScanEdgeCases(search: string, content: string)
    ensures FileLines(content) == [] ==> ContainsText(search, content) == Success(false)
    ensures search == [] && FileLines(content) != [] ==> ContainsText(search, content) == Failure(EmptySearch)
  {
  }
}
