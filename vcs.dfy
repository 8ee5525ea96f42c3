/** The parts of the VCS support (bumpv/client/vcs/vcs.py and its earlier copy
    bumpversion/vcs.py) that are plain logic: reading `git describe` output, deciding
    from `status` output whether the working directory is clean, and choosing the VCS.
    The commands themselves are not run: their output is an input. */
module Vcs {
  import opened Wrappers
  import opened Strings

  datatype VcsError =
    | NotEnoughParts                         // IndexError popping from the describe parts
    | BadDistance(text: string)              // ValueError from int()
    | DirtyWorkingDirectory(lines: seq<string>)  // WorkingDirectoryIsDirtyException
    | KeyError(key: string)                  // defaults['allow_dirty'] missing
    | StatusFailed                           // CalledProcessError from the status command

  /** The dict `latest_tag_info` fills; `dirty` stands for the "dirty" key, which is
      present (and True) only for a dirty tree. */
  datatype TagInfo = TagInfo(dirty: bool, commitSha: string, distance: int, currentVersion: string)

  // ---------------------------------------------------------------------------
  // git describe

  /** `latest_tag_info()` given the output of `git describe --dirty --tags --long`,
      None when the command failed (then the result is the empty dict, None here). The
      output is split on "-"; a last part that strips to "dirty" is dropped and
      recorded; the next last part, less its leading "g"s, is the commit; the one
      before it the distance; the rest, joined by "-" and less its leading "v"s, the
      version. */
  function DescribeSpec(output: Option<string>): Result<Option<TagInfo>, VcsError> {
    if output.None? then Success(None) else DescribeParts(Split(output.value, '-'))
  }

  /** The same, from the parts of the output between the dashes. */
  function DescribeParts(parts: seq<string>): Result<Option<TagInfo>, VcsError>
    requires |parts| >= 1
  {
    var dirty := Strip(parts[|parts| - 1], StrSpace) == "dirty";
    var rest := if dirty then parts[..|parts| - 1] else parts;
    if |rest| < 2 then Failure(NotEnoughParts)
    else
      match ParseInt(rest[|rest| - 2])
      case None => Failure(BadDistance(rest[|rest| - 2]))
      case Some(d) =>
        Success(Some(TagInfo(
          dirty,
          LStripChar(rest[|rest| - 1], 'g'),
          d,
          LStripChar(Join(rest[..|rest| - 2], "-"), 'v'))))
  }

  /** `latest_tag_info()`: run the command, split its output on "-", pop the parts. */
  method LatestTagInfo(output: Option<string>) returns (r: Result<Option<TagInfo>, VcsError>)
    ensures r == DescribeSpec(output)
  {
    if output.None? {
      return Success(None);
    }
    r := PopParts(Split(output.value, '-'));
  }

  /** The pops of `latest_tag_info`, one after the other. */
  method PopParts(parts: seq<string>) returns (r: Result<Option<TagInfo>, VcsError>)
    requires |parts| >= 1
    ensures r == DescribeParts(parts)
  {
    var describeOut := parts;
    var dirty := false;
    if Strip(describeOut[|describeOut| - 1], StrSpace) == "dirty" {
      dirty := true;
      describeOut := describeOut[..|describeOut| - 1];
    }
    ghost var rest := describeOut;
    assert rest == if dirty then parts[..|parts| - 1] else parts;
    if describeOut == [] {
      return Failure(NotEnoughParts);
    }
    var commitSha := LStripChar(describeOut[|describeOut| - 1], 'g');
    describeOut := describeOut[..|describeOut| - 1];
    if describeOut == [] {
      return Failure(NotEnoughParts);
    }
    var distanceText := describeOut[|describeOut| - 1];
    describeOut := describeOut[..|describeOut| - 1];
    assert describeOut == rest[..|rest| - 2];
    var distance := ParseInt(distanceText);
    if distance.None? {
      return Failure(BadDistance(distanceText));
    }
    var currentVersion := LStripChar(Join(describeOut, "-"), 'v');
    return Success(Some(TagInfo(dirty, commitSha, distance.value, currentVersion)));
  }

  /** The output `git describe --long` prints for a tag `v<version>`, `distance`
      commits and commit `sha`, with `-dirty` for a dirty tree. */
  function DescribeOutput(version: string, distance: nat, sha: string, dirty: bool): string {
    "v" + version + "-" + NatToString(distance) + "-" + CommitPart(sha, dirty)
  }

  /** The end of that output: `g<sha>`, `-dirty` for a dirty tree, and the newline. */
  function CommitPart(sha: string, dirty: bool): string {
    "g" + sha + (if dirty then "-dirty" else "") + "\n"
  }

  lemma LStripOne(s: string, c: char)
    requires s == [] || s[0] != c
    ensures LStripChar([c] + s, c) == s
  {
    assert ([c] + s)[1..] == s;
  }

  /** A part that starts with `g` never strips to "dirty". */
  lemma NotDirtyPart(x: string)
    requires x != [] && x[0] == 'g'
    ensures Strip(x, StrSpace) != "dirty"
  {
    assert StripLeft(x, StrSpace) == x;
    var t := Strip(x, StrSpace);
    if t != [] {
      assert t[0] == x[0];
    }
  }

  /** Where the dashes split the end of the output: the commit, then "dirty". */
  lemma CommitSplit(sha: string, dirty: bool)
    requires '-' !in sha
    ensures Split(CommitPart(sha, dirty), '-')
         == [if dirty then "g" + sha else "g" + sha + "\n"] + (if dirty then ["dirty\n"] else [])
  {
    var g := "g" + sha;
    assert '-' !in g;
    if dirty {
      var dirtyLine := "dirty\n";
      assert "-dirty" + "\n" == ['-'] + dirtyLine;
      assert CommitPart(sha, dirty) == g + ['-'] + dirtyLine;
      SplitAround(g, dirtyLine, '-');
      SplitNoSeparator(g, '-');
      SplitNoSeparator(dirtyLine, '-');
    } else {
      assert CommitPart(sha, dirty) == g + "\n";
      assert '-' !in g + "\n";
      SplitNoSeparator(g + "\n", '-');
    }
  }

  lemma NoDashInNumber(distance: nat)
    ensures '-' !in NatToString(distance)
  {
    var num := NatToString(distance);
    forall k | 0 <= k < |num| ensures num[k] != '-' {
      assert IsDigit(num[k]);
    }
  }

  /** Where the dashes split the describe output. */
  lemma DescribeSplit(version: string, distance: nat, sha: string, dirty: bool)
    requires '-' !in sha
    ensures Split(DescribeOutput(version, distance, sha, dirty), '-')
         == Split("v" + version, '-') + [NatToString(distance), "g" + sha + (if dirty then [] else "\n")]
            + (if dirty then ["dirty\n"] else [])
  {
    var head := "v" + version;
    var num := NatToString(distance);
    var commit := CommitPart(sha, dirty);
    NoDashInNumber(distance);
    assert DescribeOutput(version, distance, sha, dirty) == head + ['-'] + (num + ['-'] + commit);
    SplitAround(head, num + ['-'] + commit, '-');
    SplitAround(num, commit, '-');
    SplitNoSeparator(num, '-');
    CommitSplit(sha, dirty);
    if dirty {
      assert "g" + sha + [] == "g" + sha;
    }
  }

  lemma StripDirtyLine()
    ensures Strip("dirty\n", StrSpace) == "dirty"
  {
    assert StripLeft("dirty\n", StrSpace) == "dirty\n";
    assert StripRight("dirty\n", StrSpace) == "dirty";
  }

  /** `DescribeParts` on parts of the expected shape. */
  lemma DescribePartsOfShape(prefix: seq<string>, num: string, shaPart: string, dirty: bool, d: int)
    requires Strip(shaPart, StrSpace) != "dirty"
    requires ParseInt(num) == Some(d)
    ensures DescribeParts(prefix + [num, shaPart] + (if dirty then ["dirty\n"] else []))
         == Success(Some(TagInfo(dirty, LStripChar(shaPart, 'g'), d, LStripChar(Join(prefix, "-"), 'v'))))
  {
    var parts := prefix + [num, shaPart] + (if dirty then ["dirty\n"] else []);
    var rest := prefix + [num, shaPart];
    if dirty {
      StripDirtyLine();
      assert parts[|parts| - 1] == "dirty\n";
      assert parts[..|parts| - 1] == rest;
    } else {
      assert parts == rest;
    }
    assert rest[|rest| - 2] == num && rest[|rest| - 1] == shaPart;
    assert rest[..|rest| - 2] == prefix;
  }

  /** Reading the describe output back gives the version, distance and commit it was
      printed from; the commit keeps the output's final newline unless the tree is
      dirty, since only then is the newline on the dropped "dirty" part. */
  lemma DescribeRoundTrip(version: string, distance: nat, sha: string, dirty: bool)
    requires version == [] || version[0] != 'v'
    requires '-' !in sha && (sha == [] || sha[0] != 'g')
    ensures DescribeSpec(Some(DescribeOutput(version, distance, sha, dirty)))
         == Success(Some(TagInfo(dirty, if dirty then sha else sha + "\n", distance, version)))
  {
    var out := DescribeOutput(version, distance, sha, dirty);
    var head := "v" + version;
    var shaText := sha + (if dirty then [] else "\n");
    var shaPart := ['g'] + shaText;
    var prefix := Split(head, '-');
    var num := NatToString(distance);
    var parts := prefix + [num, shaPart] + (if dirty then ["dirty\n"] else []);
    assert Split(out, '-') == parts by {
      DescribeSplit(version, distance, sha, dirty);
      assert "g" + sha + (if dirty then [] else "\n") == shaPart;
    }
    assert DescribeParts(parts)
        == Success(Some(TagInfo(dirty, LStripChar(shaPart, 'g'), distance, LStripChar(Join(prefix, "-"), 'v')))) by {
      NotDirtyPart(shaPart);
      ParseIntOfNatToString(distance);
      DescribePartsOfShape(prefix, num, shaPart, dirty, distance);
    }
    assert LStripChar(Join(prefix, "-"), 'v') == version by {
      JoinSplit(head, '-');
      assert head == ['v'] + version;
      LStripOne(version, 'v');
    }
    assert LStripChar(shaPart, 'g') == shaText by {
      LStripOne(shaText, 'g');
    }
    assert shaText == if dirty then sha else sha + "\n" by {
      if dirty {
        assert sha + [] == sha;
      }
    }
    assert DescribeSpec(Some(out)) == DescribeParts(parts);
  }

  // ---------------------------------------------------------------------------
  // The status filter

  /** A status line for an untracked file: "??" once stripped. */
  predicate Untracked(line: string) {
    StartsWith(Strip(line, ByteSpace), "??")
  }

  /** Every line is for an untracked file. */
  predicate AllUntracked(lines: seq<string>) {
    forall i :: 0 <= i < |lines| ==> Untracked(lines[i])
  }

  /** `[line.strip() for line in lines if not line.strip().startswith(b"??")]`. */
  function KeptLines(lines: seq<string>): (r: seq<string>)
    ensures |r| <= |lines|
    decreases |lines|
  {
    if lines == [] then []
    else
      if Untracked(lines[0]) then KeptLines(lines[1..]) else [Strip(lines[0], ByteSpace)] + KeptLines(lines[1..])
  }

  /** The kept lines are the stripped lines that do not start with "??". */
  lemma KeptLinesIff(lines: seq<string>, x: string)
    ensures x in KeptLines(lines) <==>
      exists i :: 0 <= i < |lines| && !Untracked(lines[i]) && x == Strip(lines[i], ByteSpace)
  {
    if x in KeptLines(lines) {
      KeptLinesSound(lines, x);
    }
    if exists i :: 0 <= i < |lines| && !Untracked(lines[i]) && x == Strip(lines[i], ByteSpace) {
      var i :| 0 <= i < |lines| && !Untracked(lines[i]) && x == Strip(lines[i], ByteSpace);
      KeptLinesComplete(lines, i);
    }
  }

  /** Every kept line is a stripped line that does not start with "??". */
  lemma {:induction false} KeptLinesSound(lines: seq<string>, x: string)
    requires x in KeptLines(lines)
    ensures exists i :: 0 <= i < |lines| && !Untracked(lines[i]) && x == Strip(lines[i], ByteSpace)
    decreases |lines|
  {
    var tail := lines[1..];
    if !Untracked(lines[0]) && x == Strip(lines[0], ByteSpace) {
      assert 0 < |lines| && !Untracked(lines[0]) && x == Strip(lines[0], ByteSpace);
    } else {
      if Untracked(lines[0]) {
        assert KeptLines(lines) == KeptLines(tail);
      } else {
        assert KeptLines(lines) == [Strip(lines[0], ByteSpace)] + KeptLines(tail);
      }
      assert x in KeptLines(tail);
      KeptLinesSound(tail, x);
      var i :| 0 <= i < |tail| && !Untracked(tail[i]) && x == Strip(tail[i], ByteSpace);
      assert lines[i + 1] == tail[i];
      assert 0 <= i + 1 < |lines| && !Untracked(lines[i + 1]) && x == Strip(lines[i + 1], ByteSpace);
    }
  }

  /** Every line that does not start with "??" is kept, stripped. */
  lemma {:induction false} KeptLinesComplete(lines: seq<string>, i: nat)
    requires i < |lines| && !Untracked(lines[i])
    ensures Strip(lines[i], ByteSpace) in KeptLines(lines)
    decreases i
  {
    var tail := lines[1..];
    if i == 0 {
      assert KeptLines(lines) == [Strip(lines[0], ByteSpace)] + KeptLines(tail);
    } else {
      assert tail[i - 1] == lines[i];
      KeptLinesComplete(tail, i - 1);
      if Untracked(lines[0]) {
        assert KeptLines(lines) == KeptLines(tail);
      } else {
        assert KeptLines(lines) == [Strip(lines[0], ByteSpace)] + KeptLines(tail);
      }
    }
  }

  /** `assert_nondirty()` given the output of the status command, None when the
      command exits non-zero and `check_output` raises: otherwise the working directory
      is dirty when some line, stripped, does not start with "??". */
  function AssertNondirty(status: Option<string>): Option<VcsError> {
    if status.None? then Some(StatusFailed)
    else
      var kept := KeptLines(SplitLinesWith(status.value, ByteBreaks));
      if kept == [] then None else Some(DirtyWorkingDirectory(kept))
  }

  /** Nothing is kept exactly when every line starts with "??" once stripped. */
  lemma {:induction false} KeptLinesEmptyIff(lines: seq<string>)
    ensures KeptLines(lines) == [] <==> AllUntracked(lines)
    decreases |lines|
  {
    if lines != [] {
      KeptLinesEmptyIff(lines[1..]);
      UntrackedCons(lines);
      if !Untracked(lines[0]) {
        assert |KeptLines(lines)| >= 1;
      }
    }
  }

  /** A non-empty list is all untracked exactly when its head and its tail are. */
  lemma UntrackedCons(lines: seq<string>)
    requires lines != []
    ensures AllUntracked(lines) <==> Untracked(lines[0]) && AllUntracked(lines[1..])
  {
    var tail := lines[1..];
    if AllUntracked(lines) {
      forall i | 0 <= i < |tail| ensures Untracked(tail[i]) {
        assert tail[i] == lines[i + 1];
      }
    }
    if Untracked(lines[0]) && AllUntracked(tail) {
      forall i | 0 <= i < |lines| ensures Untracked(lines[i]) {
        if i > 0 {
          assert lines[i] == tail[i - 1];
        }
      }
    }
  }

  /** Clean exactly when the status command succeeds and every line of its output
      starts with "??" once stripped; so a line of only whitespace makes the directory
      dirty. A failing command raises CalledProcessError. */
  lemma CleanIff(status: Option<string>)
    ensures status.None? ==> AssertNondirty(status) == Some(StatusFailed)
    ensures AssertNondirty(status).None? <==> status.Some? && AllUntracked(SplitLinesWith(status.value, ByteBreaks))
  {
    if status.Some? {
      CleanOutputIff(status.value);
    }
  }

  lemma CleanOutputIff(output: string)
    ensures AssertNondirty(Some(output)).None? <==> AllUntracked(SplitLinesWith(output, ByteBreaks))
  {
    var lines := SplitLinesWith(output, ByteBreaks);
    var kept := KeptLines(lines);
    KeptLinesEmptyIff(lines);
    if kept == [] {
      assert AssertNondirty(Some(output)) == None;
    } else {
      assert AssertNondirty(Some(output)) == Some(DirtyWorkingDirectory(kept));
    }
  }

  // ---------------------------------------------------------------------------
  // Choosing the VCS

  datatype Vcs = Git | Mercurial

  /** `VCS = [Git, Mercurial]`. */
  const VcsOrder: seq<Vcs> := [Git, Mercurial]

  /** What the commands report for one VCS: whether `is_usable()` holds and the output
      of its status command, None when that command fails. */
  datatype Probe = Probe(usable: bool, status: Option<string>)
  datatype Probes = Probes(git: Probe, hg: Probe)

  function ProbeOf(probes: Probes, vcs: Vcs): Probe {
    match vcs
    case Git => probes.git
    case Mercurial => probes.hg
  }

  /** The scan from position `i` of the VCS list. `allowDirty` is None when the
      `allow_dirty` setting is missing, which raises KeyError only when consulted. */
  function ScanFrom(probes: Probes, allowDirty: Option<bool>, i: nat): Result<Option<Vcs>, VcsError>
    requires i <= |VcsOrder|
    decreases |VcsOrder| - i
  {
    if i == |VcsOrder| then Success(None)
    else
      var p := ProbeOf(probes, VcsOrder[i]);
      if !p.usable then ScanFrom(probes, allowDirty, i + 1)
      else
        match AssertNondirty(p.status)
        case None => Success(Some(VcsOrder[i]))
        case Some(e) =>
          if !e.DirtyWorkingDirectory? then Failure(e)
          else match allowDirty
          case None => Failure(KeyError("allow_dirty"))
          case Some(allowed) => if allowed then Success(Some(VcsOrder[i])) else Failure(e)
  }

  /** The loop shared by both `get_vcs` functions. */
  method ScanVcs(probes: Probes, allowDirty: Option<bool>) returns (r: Result<Option<Vcs>, VcsError>)
    ensures r == ScanFrom(probes, allowDirty, 0)
  {
    for i := 0 to |VcsOrder|
      invariant ScanFrom(probes, allowDirty, i) == ScanFrom(probes, allowDirty, 0)
    {
      var vcs := VcsOrder[i];
      var p := ProbeOf(probes, vcs);
      if p.usable {
        var dirty := AssertNondirty(p.status);
        if dirty.Some? {
          if !dirty.value.DirtyWorkingDirectory? {
            return Failure(dirty.value);
          }
          if allowDirty.None? {
            return Failure(KeyError("allow_dirty"));
          }
          if !allowDirty.value {
            return Failure(dirty.value);
          }
        }
        return Success(Some(vcs));
      }
    }
    return Success(None);
  }

  /** `get_vcs(allow_dirty)` of bumpv/client/vcs/vcs.py. */
  method GetVcs(probes: Probes, allowDirty: bool) returns (r: Result<Option<Vcs>, VcsError>)
    ensures r == ScanFrom(probes, Some(allowDirty), 0)
    ensures r.Failure? ==> r.error.DirtyWorkingDirectory? || r.error == StatusFailed
  {
    NeverKeyErrorWithSetting(probes, allowDirty, 0);
    r := ScanVcs(probes, Some(allowDirty));
  }

  /** `get_vcs(defaults)` of bumpversion/vcs.py. */
  method GetVcsLegacy(probes: Probes, defaults: map<string, bool>) returns (r: Result<Option<Vcs>, VcsError>)
    ensures r == ScanFrom(probes, if "allow_dirty" in defaults then Some(defaults["allow_dirty"]) else None, 0)
  {
    r := ScanVcs(probes, if "allow_dirty" in defaults then Some(defaults["allow_dirty"]) else None);
  }

  lemma {:induction false} NeverKeyErrorWithSetting(probes: Probes, allowDirty: bool, i: nat)
    requires i <= |VcsOrder|
    ensures ScanFrom(probes, Some(allowDirty), i).Failure? ==>
      ScanFrom(probes, Some(allowDirty), i).error.DirtyWorkingDirectory?
      || ScanFrom(probes, Some(allowDirty), i).error == StatusFailed
    decreases |VcsOrder| - i
  {
    if i < |VcsOrder| {
      NeverKeyErrorWithSetting(probes, allowDirty, i + 1);
    }
  }

  /** The chosen VCS is the first usable one in the order Git, Mercurial; none is chosen
      only when none is usable. Only that VCS's status is consulted: a failing status
      command raises whatever the setting, and a dirty tree raises only when dirtiness
      is not allowed (or, in the legacy copy, the setting is missing). */
  lemma {:induction false} ScanChoosesFirstUsable(probes: Probes, allowDirty: Option<bool>, i: nat)
    requires i <= |VcsOrder|
    ensures ScanFrom(probes, allowDirty, i) == Success(None)
        <==> forall j :: i <= j < |VcsOrder| ==> !ProbeOf(probes, VcsOrder[j]).usable
    ensures ScanFrom(probes, allowDirty, i) != Success(None) ==>
      exists j :: i <= j < |VcsOrder| && ProbeOf(probes, VcsOrder[j]).usable
        && (forall m :: i <= m < j ==> !ProbeOf(probes, VcsOrder[m]).usable)
        && (ScanFrom(probes, allowDirty, i).Success? ==> ScanFrom(probes, allowDirty, i).value == Some(VcsOrder[j]))
        && (ScanFrom(probes, allowDirty, i).Failure? <==>
              ProbeOf(probes, VcsOrder[j]).status.None?
              || (AssertNondirty(ProbeOf(probes, VcsOrder[j]).status).Some? && allowDirty != Some(true)))
        && (ProbeOf(probes, VcsOrder[j]).status.None? ==> ScanFrom(probes, allowDirty, i) == Failure(StatusFailed))
    decreases |VcsOrder| - i
  {
    if i < |VcsOrder| {
      ScanChoosesFirstUsable(probes, allowDirty, i + 1);
      var r := ScanFrom(probes, allowDirty, i);
      var p := ProbeOf(probes, VcsOrder[i]);
      if p.usable {
        assert r != Success(None);
        assert p.status.None? ==> r == Failure(StatusFailed);
        assert r.Failure? <==> p.status.None? || (AssertNondirty(p.status).Some? && allowDirty != Some(true));
        assert r.Success? ==> r.value == Some(VcsOrder[i]);
      } else {
        assert r == ScanFrom(probes, allowDirty, i + 1);
      }
    }
  }
}
