/** The Python string built-ins that the version-text engine relies on, with their
    exact edge cases: `sub in s`, `str.replace`, `str.split`, `str.join`,
    `str.lstrip(c)`, `str.strip()`, `str.splitlines()`, `bytes.readlines()`,
    `int(str)` and the ordering `sorted` uses on strings. */
module Strings {
  import opened Wrappers

  // ---------------------------------------------------------------------------
  // Prefixes and substrings

  predicate StartsWith(s: string, p: string) {
    |p| <= |s| && s[..|p|] == p
  }

  /** Python's `sub in s`: the empty string is in every string. */
  predicate Contains(s: string, sub: string)
    decreases |s|
  {
    StartsWith(s, sub) || (|s| > 0 && Contains(s[1..], sub))
  }

  /** `sub` occurs in `s` starting at index `i`. */
  ghost predicate OccursAt(s: string, sub: string, i: int) {
    0 <= i && i + |sub| <= |s| && s[i..i + |sub|] == sub
  }

  lemma OccursShift(s: string, sub: string, i: int)
    requires |s| > 0 && i >= 1
    ensures OccursAt(s, sub, i) <==> OccursAt(s[1..], sub, i - 1)
  {
    if i + |sub| <= |s| {
      var here, there := s[i..i + |sub|], s[1..][i - 1..i - 1 + |sub|];
      forall k | 0 <= k < |sub| ensures here[k] == there[k] {
        assert here[k] == s[i + k] == there[k];
      }
      assert here == there;
    }
  }

  /** The scan in `Contains` finds exactly the positions where `sub` occurs. */
  lemma {:induction false} ContainsIff(s: string, sub: string)
    ensures Contains(s, sub) <==> exists i :: OccursAt(s, sub, i)
    decreases |s|
  {
    if StartsWith(s, sub) {
      assert OccursAt(s, sub, 0);
    } else if |s| > 0 {
      ContainsIff(s[1..], sub);
      if Contains(s[1..], sub) {
        var j :| OccursAt(s[1..], sub, j);
        OccursShift(s, sub, j + 1);
      }
      if exists i :: OccursAt(s, sub, i) {
        var i :| OccursAt(s, sub, i);
        OccursShift(s, sub, i);
      }
    }
  }

  // ---------------------------------------------------------------------------
  // str.replace(old, new): every non-overlapping occurrence, scanning left to right

  /** `s.replace("", r)`: Python puts `r` before every character and at the end. */
  function InsertEverywhere(s: string, r: string): string
    decreases |s|
  {
    if s == [] then r else r + [s[0]] + InsertEverywhere(s[1..], r)
  }

  /** `r` is inserted |s| + 1 times. */
  lemma {:induction false} InsertEverywhereLength(s: string, r: string)
    ensures |InsertEverywhere(s, r)| == |s| + (|s| + 1) * |r|
    decreases |s|
  {
    if s != [] {
      InsertEverywhereLength(s[1..], r);
    }
  }

  /** Inserting nothing leaves the text as it is. */
  lemma {:induction false} InsertNothing(s: string)
    ensures InsertEverywhere(s, []) == s
    decreases |s|
  {
    if s != [] {
      InsertNothing(s[1..]);
      assert [] + [s[0]] + s[1..] == s;
    }
  }

  function ReplaceAll(s: string, p: string, r: string): string
    decreases |s|
  {
    if p == [] then InsertEverywhere(s, r)
    else if StartsWith(s, p) then r + ReplaceAll(s[|p|..], p, r)
    else if s == [] then []
    else [s[0]] + ReplaceAll(s[1..], p, r)
  }

  /** Number of occurrences that `ReplaceAll` rewrites. */
  function Occurrences(s: string, p: string): nat
    requires p != []
    decreases |s|
  {
    if StartsWith(s, p) then 1 + Occurrences(s[|p|..], p)
    else if s == [] then 0
    else Occurrences(s[1..], p)
  }

  /** Text without an occurrence of the pattern is left exactly as it was. */
  lemma {:induction false} ReplaceAbsent(s: string, p: string, r: string)
    requires p != [] && !Contains(s, p)
    ensures ReplaceAll(s, p, r) == s
    decreases |s|
  {
    if s != [] {
      ReplaceAbsent(s[1..], p, r);
    }
  }

  /** Replacing a pattern by itself changes nothing, the empty pattern included. */
  lemma {:induction false} ReplaceSame(s: string, p: string)
    ensures ReplaceAll(s, p, p) == s
    decreases |s|
  {
    if p == [] {
      if s != [] {
        ReplaceSame(s[1..], p);
      }
    } else if StartsWith(s, p) {
      ReplaceSame(s[|p|..], p);
      assert s == p + s[|p|..];
    } else if s != [] {
      ReplaceSame(s[1..], p);
    }
  }

  /** Every rewritten occurrence changes the length by |r| - |p|. */
  lemma {:induction false} ReplaceLength(s: string, p: string, r: string)
    requires p != []
    ensures |ReplaceAll(s, p, r)| == |s| + Occurrences(s, p) * (|r| - |p|)
    decreases |s|
  {
    var d := |r| - |p|;
    if StartsWith(s, p) {
      var rest := s[|p|..];
      ReplaceLength(rest, p, r);
      var k := Occurrences(rest, p);
      assert |ReplaceAll(rest, p, r)| == |rest| + k * d;
      assert |ReplaceAll(s, p, r)| == |r| + |ReplaceAll(rest, p, r)|;
      MulSucc(k, d);
    } else if s != [] {
      ReplaceLength(s[1..], p, r);
      assert |ReplaceAll(s, p, r)| == 1 + |ReplaceAll(s[1..], p, r)|;
    }
  }

  lemma MulSucc(k: int, d: int)
    ensures (k + 1) * d == k * d + d
  {
  }

  lemma MulNonZero(k: int, d: int)
    requires k >= 1 && d != 0
    ensures k * d != 0
  {
    if d > 0 {
      assert k * d >= d;
    } else {
      assert k * d <= d;
    }
  }

  /** Rewriting an occurrence at the front by a different text changes the text. */
  lemma ReplaceAtFrontChanges(s: string, p: string, r: string)
    requires p != [] && p != r && StartsWith(s, p)
    ensures ReplaceAll(s, p, r) != s
  {
    var out := ReplaceAll(s, p, r);
    if |r| == |p| {
      assert out == r + ReplaceAll(s[|p|..], p, r);
      assert out[..|r|] == r;
      assert s[..|p|] == p;
    } else {
      ReplaceLength(s, p, r);
      MulNonZero(Occurrences(s, p), |r| - |p|);
    }
  }

  /** The replacement leaves the text unchanged exactly when the (non-empty) pattern
      does not occur or is replaced by itself: this decides when the updaters fall
      back to replacing the version's original text. */
  lemma {:induction false} ReplaceUnchangedIff(s: string, p: string, r: string)
    requires p != []
    ensures ReplaceAll(s, p, r) == s <==> !Contains(s, p) || p == r
    decreases |s|
  {
    if !Contains(s, p) {
      ReplaceAbsent(s, p, r);
    } else if p == r {
      ReplaceSame(s, p);
    } else if StartsWith(s, p) {
      ReplaceAtFrontChanges(s, p, r);
    } else {
      ReplaceUnchangedIff(s[1..], p, r);
      var out := ReplaceAll(s, p, r);
      assert out == [s[0]] + ReplaceAll(s[1..], p, r);
      assert out[1..] == ReplaceAll(s[1..], p, r);
    }
  }

  // ---------------------------------------------------------------------------
  // str.split(c) and str.join

  /** `s.split(c)` for a one-character separator: never empty, `"".split(c) == [""]`. */
  function Split(s: string, c: char): (r: seq<string>)
    ensures |r| >= 1
    decreases |s|
  {
    if s == [] then [[]]
    else if s[0] == c then [[]] + Split(s[1..], c)
    else
      var t := Split(s[1..], c);
      [[s[0]] + t[0]] + t[1..]
  }

  /** `sep.join(xs)`: separators only between elements. */
  function Join(xs: seq<string>, sep: string): string
    decreases |xs|
  {
    if |xs| == 0 then []
    else if |xs| == 1 then xs[0]
    else xs[0] + sep + Join(xs[1..], sep)
  }

  lemma {:induction false} JoinSplit(s: string, c: char)
    ensures Join(Split(s, c), [c]) == s
    decreases |s|
  {
    if s != [] {
      JoinSplit(s[1..], c);
      var t := Split(s[1..], c);
      if s[0] != c && |t| > 1 {
        assert Join(t, [c]) == t[0] + [c] + Join(t[1..], [c]);
      }
    }
  }

  lemma {:induction false} SplitNoSeparator(s: string, c: char)
    requires c !in s
    ensures Split(s, c) == [s]
    decreases |s|
  {
    if s != [] {
      assert c !in s[1..];
      SplitNoSeparator(s[1..], c);
      assert s == [s[0]] + s[1..];
    }
  }

  /** Splitting distributes over a separator written between two texts. */
  lemma {:induction false} SplitAround(a: string, b: string, c: char)
    ensures Split(a + [c] + b, c) == Split(a, c) + Split(b, c)
    decreases |a|
  {
    if a == [] {
      assert a + [c] + b == [c] + b;
    } else {
      assert (a + [c] + b)[1..] == a[1..] + [c] + b;
      SplitAround(a[1..], b, c);
    }
  }

  // ---------------------------------------------------------------------------
  // lstrip, strip

  /** `s.lstrip(c)` for one character: drops every leading `c`. */
  function LStripChar(s: string, c: char): (r: string)
    ensures |r| <= |s| && r == s[|s| - |r|..]
    ensures r == [] || r[0] != c
    decreases |s|
  {
    if s != [] && s[0] == c then LStripChar(s[1..], c) else s
  }

  /** Python's `str.isspace` for one character. */
  predicate IsSpace(ch: char) {
    ch == ' ' || ('\t' <= ch <= '\r') || ('\U{1C}' <= ch <= '\U{1F}')
    || ch == '\U{85}' || ch == '\U{A0}' || ch == '\U{1680}'
    || ('\U{2000}' <= ch <= '\U{200A}') || ch == '\U{2028}' || ch == '\U{2029}'
    || ch == '\U{202F}' || ch == '\U{205F}' || ch == '\U{3000}'
  }

  /** The whitespace `bytes.strip()` removes: space, tab, LF, VT, FF, CR. */
  predicate IsAsciiSpace(ch: char) {
    ch == ' ' || ('\t' <= ch <= '\r')
  }

  /** Which whitespace a strip removes: `str.strip()` or `bytes.strip()`. */
  datatype Whitespace = StrSpace | ByteSpace

  predicate IsWs(ws: Whitespace, ch: char) {
    match ws
    case StrSpace => IsSpace(ch)
    case ByteSpace => IsAsciiSpace(ch)
  }

  function StripLeft(s: string, ws: Whitespace): (r: string)
    ensures |r| <= |s| && r == s[|s| - |r|..]
    decreases |s|
  {
    if s != [] && IsWs(ws, s[0]) then StripLeft(s[1..], ws) else s
  }

  function StripRight(s: string, ws: Whitespace): (r: string)
    ensures |r| <= |s| && r == s[..|r|]
    decreases |s|
  {
    if s != [] && IsWs(ws, s[|s| - 1]) then StripRight(s[..|s| - 1], ws) else s
  }

  /** `s.strip()`: whitespace removed at both ends. */
  function Strip(s: string, ws: Whitespace): string {
    StripRight(StripLeft(s, ws), ws)
  }

  lemma StripNothing(s: string, ws: Whitespace)
    requires s == [] || (!IsWs(ws, s[0]) && !IsWs(ws, s[|s| - 1]))
    ensures Strip(s, ws) == s
  {
  }

  // ---------------------------------------------------------------------------
  // Line splitting

  /** Line boundaries of `str.splitlines()` ("\r\n" counts as one). */
  predicate IsStrLineBreak(ch: char) {
    ('\n' <= ch <= '\r') || ('\U{1C}' <= ch <= '\U{1E}') || ch == '\U{85}'
    || ch == '\U{2028}' || ch == '\U{2029}'
  }

  /** Line boundaries of `bytes.splitlines()`. */
  predicate IsByteLineBreak(ch: char) {
    ch == '\n' || ch == '\r'
  }

  /** Which boundaries a `splitlines()` call recognises. */
  datatype LineBreaks = StrBreaks | ByteBreaks

  predicate IsBreak(brk: LineBreaks, ch: char) {
    match brk
    case StrBreaks => IsStrLineBreak(ch)
    case ByteBreaks => IsByteLineBreak(ch)
  }

  /** `splitlines()` with the given boundary characters: no trailing empty line,
      and the empty text has no lines. */
  function SplitLinesWith(s: string, brk: LineBreaks): (r: seq<string>)
    ensures s == [] <==> r == []
    decreases |s|
  {
    if s == [] then []
    else
      var i := FirstBreak(s, brk, 0);
      if i == |s| then [s]
      else
        var next := if s[i] == '\r' && i + 1 < |s| && s[i + 1] == '\n' then i + 2 else i + 1;
        [s[..i]] + SplitLinesWith(s[next..], brk)
  }

  /** The first index at or after `from` holding a boundary, or |s|. */
  function FirstBreak(s: string, brk: LineBreaks, from: nat): (i: nat)
    requires from <= |s|
    ensures from <= i <= |s|
    ensures i < |s| ==> IsBreak(brk, s[i])
    ensures forall k :: from <= k < i ==> !IsBreak(brk, s[k])
    decreases |s| - from
  {
    if from == |s| || IsBreak(brk, s[from]) then from else FirstBreak(s, brk, from + 1)
  }

  /** A text without any boundary character is one line. */
  lemma SplitLinesSingle(s: string, brk: LineBreaks)
    requires s != [] && forall k :: 0 <= k < |s| ==> !IsBreak(brk, s[k])
    ensures SplitLinesWith(s, brk) == [s]
  {
    var i := FirstBreak(s, brk, 0);
  }

  /** `bytes.readlines()` followed by `rstrip("\n")` of every line: the pieces
      between newlines, where a final newline does not start another line. */
  function FileLines(content: string): (r: seq<string>)
    ensures content == [] ==> r == []
    ensures forall k :: 0 <= k < |r| ==> '\n' !in r[k]
  {
    var parts := Split(content, '\n');
    SplitPiecesHaveNoSeparator(content, '\n');
    if parts[|parts| - 1] == [] then parts[..|parts| - 1] else parts
  }

  lemma {:induction false} SplitPiecesHaveNoSeparator(s: string, c: char)
    ensures forall k :: 0 <= k < |Split(s, c)| ==> c !in Split(s, c)[k]
    decreases |s|
  {
    if s != [] {
      SplitPiecesHaveNoSeparator(s[1..], c);
    }
  }

  // ---------------------------------------------------------------------------
  // int(str) for decimal text

  predicate IsDigit(ch: char) { '0' <= ch <= '9' }

  /** Decimal digits, with single underscores allowed between two digits. */
  predicate IsDigitRun(s: string) {
    && |s| > 0 && IsDigit(s[0]) && IsDigit(s[|s| - 1])
    && (forall k :: 0 <= k < |s| ==> IsDigit(s[k]) || s[k] == '_')
    && (forall k :: 0 <= k < |s| - 1 ==> s[k] == '_' ==> s[k + 1] != '_')
  }

  /** The value of the digits of `s`, underscores skipped. */
  function DigitsValue(s: string): nat
    decreases |s|
  {
    if s == [] then 0
    else
      var last := s[|s| - 1];
      if IsDigit(last) then DigitsValue(s[..|s| - 1]) * 10 + (last as int - '0' as int)
      else DigitsValue(s[..|s| - 1])
  }

  /** Python's `int(text)`: surrounding whitespace, an optional sign, then a digit
      run; anything else raises ValueError (None here). */
  function ParseInt(text: string): Option<int> {
    var t := Strip(text, StrSpace);
    if t == [] then None
    else
      var negative := t[0] == '-';
      var body := if t[0] == '-' || t[0] == '+' then t[1..] else t;
      var v: int := DigitsValue(body);
      if !IsDigitRun(body) then None
      else if negative then Some(-v)
      else Some(v)
  }

  /** `str(n)` for a natural number. */
  function NatToString(n: nat): (r: string)
    ensures |r| > 0 && forall k :: 0 <= k < |r| ==> IsDigit(r[k])
    decreases n
  {
    var d := ['0' + (n % 10) as char];
    if n < 10 then d else NatToString(n / 10) + d
  }

  lemma {:induction false} DigitsOfNatToString(n: nat)
    ensures DigitsValue(NatToString(n)) == n
    decreases n
  {
    var s := NatToString(n);
    if n >= 10 {
      DigitsOfNatToString(n / 10);
      assert s[..|s| - 1] == NatToString(n / 10);
    } else {
      assert s[..0] == [];
    }
  }

  lemma DigitIsNotSpace(ch: char)
    requires IsDigit(ch)
    ensures !IsSpace(ch)
  {
  }

  lemma DigitRunOfDigits(s: string)
    requires |s| > 0 && forall k :: 0 <= k < |s| ==> IsDigit(s[k])
    ensures IsDigitRun(s)
  {
  }

  lemma ParseIntOfDigits(s: string)
    requires |s| > 0 && forall k :: 0 <= k < |s| ==> IsDigit(s[k])
    ensures ParseInt(s) == Some(DigitsValue(s) as int)
  {
    DigitIsNotSpace(s[0]);
    DigitIsNotSpace(s[|s| - 1]);
    StripNothing(s, StrSpace);
    DigitRunOfDigits(s);
  }

  /** `int(str(n)) == n`. */
  lemma ParseIntOfNatToString(n: nat)
    ensures ParseInt(NatToString(n)) == Some(n)
  {
    DigitsOfNatToString(n);
    ParseIntOfDigits(NatToString(n));
  }

  // ---------------------------------------------------------------------------
  // The order of `sorted` on strings: lexicographic by code point

  predicate Less(a: string, b: string)
    decreases |a|
  {
    if a == [] then b != []
    else if b == [] then false
    else if a[0] != b[0] then a[0] < b[0]
    else Less(a[1..], b[1..])
  }

  lemma {:induction false} LessIrreflexive(a: string)
    ensures !Less(a, a)
    decreases |a|
  {
    if a != [] {
      LessIrreflexive(a[1..]);
    }
  }

  lemma {:induction false} LessTotal(a: string, b: string)
    requires a != b
    ensures Less(a, b) || Less(b, a)
    decreases |a|
  {
    if a != [] && b != [] && a[0] == b[0] {
      assert a == [a[0]] + a[1..] && b == [b[0]] + b[1..];
      LessTotal(a[1..], b[1..]);
    }
  }

  lemma {:induction false} LessAsymmetric(a: string, b: string)
    requires Less(a, b)
    ensures !Less(b, a)
    decreases |a|
  {
    if a != [] && b != [] && a[0] == b[0] {
      LessAsymmetric(a[1..], b[1..]);
    }
  }

  lemma {:induction false} LessTransitive(a: string, b: string, c: string)
    requires Less(a, b) && Less(b, c)
    ensures Less(a, c)
    decreases |a|
  {
    if a != [] && b != [] && c != [] && a[0] == b[0] && b[0] == c[0] {
      LessTransitive(a[1..], b[1..], c[1..]);
    }
  }
}
