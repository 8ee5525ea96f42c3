/** `FileUpdater` (bumpv/client/files/updater.py): fills the search and replace
    templates with the serialized current and new versions, checks that every
    configured file contains the search text, and only then rewrites the files. */
module Updater {
  import opened Wrappers
  import opened Strings
  import opened Template
  import opened LineWindow
  import opened FileSystem
  import opened TextEdit

  datatype UpdateError =
    | FormatFailed(error: FormatError)  // KeyError or IndexError from `str.format`
    | FileNotFound(path: string)        // InvalidTargetFile from `_contains`: file listed in config not found
    | OpenFailed(path: string)          // FileNotFoundError from `open` in `_replace`
    | NotFound(path: string)            // InvalidTargetFile: did not find the search text
    | NoSearchLines                     // IndexError: the search text has no lines
    | NoOriginal                        // TypeError: `str.replace(None, ...)`

  /** What replacing the files produced: the files afterwards, the paths written, in
      order, and the error that stopped the run, if any. */
  datatype Outcome = Outcome(files: map<string, string>, written: seq<string>, error: Option<UpdateError>)

  // ---------------------------------------------------------------------------
  // Validation over the answers of the containment checks

  /** `_validate()` given what `_contains` answered for each of `names`, from position
      `i` on: the first check that raises or answers False decides the error. */
  function FirstFailure(checks: seq<Result<bool, UpdateError>>, names: seq<string>, i: nat): Result<bool, UpdateError>
    requires |checks| == |names| && i <= |names|
    decreases |names| - i
  {
    if i == |names| then Success(true)
    else if checks[i].Failure? then Failure(checks[i].error)
    else if !checks[i].value then Failure(NotFound(names[i]))
    else FirstFailure(checks, names, i + 1)
  }

  /** One step of `_validate()`'s loop: the check at `i` either decides the error or
      passes the decision on to the next path. */
  lemma FirstFailureStep(checks: seq<Result<bool, UpdateError>>, names: seq<string>, i: nat, c: Result<bool, UpdateError>)
    requires |checks| == |names| && i < |names| && checks[i] == c
    ensures c.Failure? ==> FirstFailure(checks, names, i) == Failure(c.error)
    ensures c.Success? && !c.value ==> FirstFailure(checks, names, i) == Failure(NotFound(names[i]))
    ensures c == Success(true) ==> FirstFailure(checks, names, i) == FirstFailure(checks, names, i + 1)
  {
  }

  /** The error raised for a check that does not answer True. */
  function CheckError(checks: seq<Result<bool, UpdateError>>, names: seq<string>, j: nat): UpdateError
    requires |checks| == |names| && j < |names|
  {
    if checks[j].Failure? then checks[j].error else NotFound(names[j])
  }

  lemma {:induction false} FirstFailureSucceeds(checks: seq<Result<bool, UpdateError>>, names: seq<string>, i: nat)
    requires |checks| == |names| && i <= |names|
    ensures FirstFailure(checks, names, i) == Success(true)
        <==> forall j :: i <= j < |names| ==> checks[j] == Success(true)
    ensures FirstFailure(checks, names, i).Success? ==> FirstFailure(checks, names, i).value
    decreases |names| - i
  {
    if i < |names| {
      FirstFailureSucceeds(checks, names, i + 1);
      if checks[i] == Success(true) {
        assert (forall j :: i <= j < |names| ==> checks[j] == Success(true))
           <==> (forall j :: i + 1 <= j < |names| ==> checks[j] == Success(true));
      }
    }
  }

  lemma {:induction false} FirstFailureFails(checks: seq<Result<bool, UpdateError>>, names: seq<string>, i: nat)
    requires |checks| == |names| && i <= |names|
    ensures FirstFailure(checks, names, i).Failure? ==>
      exists j :: i <= j < |names| && checks[j] != Success(true)
        && (forall m :: i <= m < j ==> checks[m] == Success(true))
        && FirstFailure(checks, names, i).error == CheckError(checks, names, j)
    decreases |names| - i
  {
    var r := FirstFailure(checks, names, i);
    if i < |names| && r.Failure? {
      var j: nat;
      if checks[i] != Success(true) {
        j := i;
      } else {
        assert r == FirstFailure(checks, names, i + 1);
        FirstFailureFails(checks, names, i + 1);
        j :| i + 1 <= j < |names| && checks[j] != Success(true)
          && (forall m :: i + 1 <= m < j ==> checks[m] == Success(true))
          && r.error == CheckError(checks, names, j);
      }
      assert i <= j < |names| && checks[j] != Success(true)
        && (forall m :: i <= m < j ==> checks[m] == Success(true))
        && r.error == CheckError(checks, names, j);
    }
  }

  /** `self.context`: the serialized versions under their template names. */
  function UpdateContext(currentVersion: string, newVersion: string): (ctx: map<string, string>)
    ensures ctx.Keys == {"current_version", "new_version"}
    ensures ctx["current_version"] == currentVersion && ctx["new_version"] == newVersion
  {
    map["current_version" := currentVersion, "new_version" := newVersion]
  }

  class FileUpdater {
    const paths: seq<string>
    const searchFor: string
    const replaceWith: string
    /** `current_version.original`, which may be None. */
    const original: Option<string>

    constructor(paths: seq<string>, searchFor: string, replaceWith: string, original: Option<string>)
      ensures this.paths == paths && this.searchFor == searchFor
      ensures this.replaceWith == replaceWith && this.original == original
    {
      this.paths := paths;
      this.searchFor := searchFor;
      this.replaceWith := replaceWith;
      this.original := original;
    }

    /** `FileUpdater(config, current_version, new_version)`: the search template is
        filled first, then the replace template, each with the two serialized versions. */
    static method Create(
      paths: seq<string>, search: Format, replace: Format,
      currentVersion: string, newVersion: string, original: Option<string>)
      returns (r: Result<FileUpdater, UpdateError>)
      ensures var ctx := UpdateContext(currentVersion, newVersion);
        if Render(search, ctx).Failure? then r == Failure(FormatFailed(Render(search, ctx).error))
        else if Render(replace, ctx).Failure? then r == Failure(FormatFailed(Render(replace, ctx).error))
        else (r.Success? && fresh(r.value) && r.value.paths == paths && r.value.original == original
          && r.value.searchFor == Render(search, ctx).value && r.value.replaceWith == Render(replace, ctx).value)
    {
      var ctx := UpdateContext(currentVersion, newVersion);
      var searchFor := Render(search, ctx);
      if searchFor.Failure? {
        return Failure(FormatFailed(searchFor.error));
      }
      var replaceWith := Render(replace, ctx);
      if replaceWith.Failure? {
        return Failure(FormatFailed(replaceWith.error));
      }
      var u := new FileUpdater(paths, searchFor.value, replaceWith.value, original);
      return Success(u);
    }

    // -------------------------------------------------------------------------
    // Validation

    /** `_contains(path)`: a missing file raises InvalidTargetFile; otherwise the
        line-window test on its content. */
    function ContainsSpec(files: map<string, string>, path: string): Result<bool, UpdateError> {
      if path !in files then Failure(FileNotFound(path))
      else
        match ContainsText(searchFor, files[path])
        case Success(b) => Success(b)
        case Failure(_) => Failure(NoSearchLines)
    }

    method ContainsPath(disk: Disk, path: string) returns (r: Result<bool, UpdateError>)
      ensures r == ContainsSpec(disk.files, path)
    {
      var content := disk.Read(path);
      if content.None? {
        return Failure(FileNotFound(path));
      }
      var found := Scan(SplitLinesWith(searchFor, StrBreaks), FileLines(content.value));
      if found.Failure? {
        return Failure(NoSearchLines);
      }
      return Success(found.value);
    }

    /** What `_contains` answers for each configured path. */
    function Checks(files: map<string, string>): (r: seq<Result<bool, UpdateError>>)
      ensures |r| == |paths| && forall j :: 0 <= j < |paths| ==> r[j] == ContainsSpec(files, paths[j])
    {
      seq(|paths|, j requires 0 <= j < |paths| => ContainsSpec(files, paths[j]))
    }

    /** `_validate()`: the paths are checked in order. */
    function ValidateSpec(files: map<string, string>): Result<bool, UpdateError> {
      FirstFailure(Checks(files), paths, 0)
    }

    method Validate(disk: Disk) returns (r: Result<bool, UpdateError>)
      ensures r == ValidateSpec(disk.files)
    {
      ghost var checks := Checks(disk.files);
      r := Success(true);
      var i := 0;
      while i < |paths| && r == Success(true)
        invariant i <= |paths|
        invariant r == Success(true) ==> FirstFailure(checks, paths, i) == ValidateSpec(disk.files)
        invariant r != Success(true) ==> r == ValidateSpec(disk.files)
      {
        var c := ContainsPath(disk, paths[i]);
        FirstFailureStep(checks, paths, i, c);
        if c.Failure? {
          r := Failure(c.error);
        } else if !c.value {
          r := Failure(NotFound(paths[i]));
        }
        i := i + 1;
      }
    }

    /** The path at `i` exists and contains the search text. */
    predicate PathOk(files: map<string, string>, i: nat)
      requires i < |paths|
    {
      ContainsSpec(files, paths[i]) == Success(true)
    }

    /** The error a path that does not pass raises: InvalidTargetFile for a missing
        file or one without the search text, IndexError for a search text with no
        lines. */
    function PathError(files: map<string, string>, j: nat): UpdateError
      requires j < |paths|
    {
      if paths[j] !in files then FileNotFound(paths[j])
      else if ContainsSpec(files, paths[j]).Failure? then NoSearchLines
      else NotFound(paths[j])
    }

    /** Validation succeeds exactly when every path passes; otherwise the error comes
        from the first path that does not. */
    lemma ValidateIff(files: map<string, string>)
      ensures ValidateSpec(files).Success? <==> forall j :: 0 <= j < |paths| ==> PathOk(files, j)
      ensures ValidateSpec(files).Success? ==> ValidateSpec(files).value
      ensures ValidateSpec(files).Failure? ==>
        exists j :: 0 <= j < |paths| && !PathOk(files, j) && (forall m :: 0 <= m < j ==> PathOk(files, m))
          && ValidateSpec(files).error == PathError(files, j)
    {
      var checks := Checks(files);
      FirstFailureSucceeds(checks, paths, 0);
      FirstFailureFails(checks, paths, 0);
      assert forall j :: 0 <= j < |paths| ==> (PathOk(files, j) <==> checks[j] == Success(true));
      if ValidateSpec(files).Failure? {
        var j :| 0 <= j < |paths| && checks[j] != Success(true)
          && (forall m :: 0 <= m < j ==> checks[m] == Success(true))
          && ValidateSpec(files).error == CheckError(checks, paths, j);
        assert PathError(files, j) == CheckError(checks, paths, j);
        assert !PathOk(files, j) && (forall m :: 0 <= m < j ==> PathOk(files, m));
      }
    }

    // -------------------------------------------------------------------------
    // Rewriting one file

    /** `_replace` on one file's text. */
    function NewContent(before: string): Result<string, UpdateError> {
      match Rewrite(before, searchFor, replaceWith, original)
      case None => Failure(NoOriginal)
      case Some(after) => Success(after)
    }

    // -------------------------------------------------------------------------
    // Rewriting all files

    /** The files after rewriting `ps` one after the other; a dry run writes nothing. */
    function RewriteFrom(files: map<string, string>, ps: seq<string>, dryRun: bool): Outcome
      decreases |ps|
    {
      if ps == [] then Outcome(files, [], None)
      else if ps[0] !in files then Outcome(files, [], Some(OpenFailed(ps[0])))
      else
        match NewContent(files[ps[0]])
        case Failure(e) => Outcome(files, [], Some(e))
        case Success(c) =>
          var rest := RewriteFrom(if dryRun then files else files[ps[0] := c], ps[1..], dryRun);
          if dryRun then rest else Outcome(rest.files, [ps[0]] + rest.written, rest.error)
    }

    /** `replace(dry_run)`: nothing happens unless every file validates. */
    function ReplaceSpec(files: map<string, string>, dryRun: bool): Outcome {
      var v := ValidateSpec(files);
      if v.Failure? then Outcome(files, [], Some(v.error))
      else RewriteFrom(files, paths, dryRun)
    }

    method ReplaceFile(disk: Disk, path: string, dryRun: bool) returns (r: Option<UpdateError>)
      modifies disk
      ensures path !in old(disk.files) ==> r == Some(OpenFailed(path)) && unchanged(disk)
      ensures path in old(disk.files) && NewContent(old(disk.files)[path]).Failure? ==>
        r == Some(NewContent(old(disk.files)[path]).error) && unchanged(disk)
      ensures path in old(disk.files) && NewContent(old(disk.files)[path]).Success? ==>
        r == None
        && disk.files == (if dryRun then old(disk.files) else old(disk.files)[path := NewContent(old(disk.files)[path]).value])
        && disk.writes == old(disk.writes) + (if dryRun then [] else [path])
    {
      var before := disk.Read(path);
      if before.None? {
        return Some(OpenFailed(path));
      }
      var after := NewContent(before.value);
      if after.Failure? {
        return Some(after.error);
      }
      if !dryRun {
        disk.Write(path, after.value);
      }
      return None;
    }

    /** One step of `RewriteFrom` on a path whose new content could be computed. */
    lemma RewriteStep(files: map<string, string>, ps: seq<string>, dryRun: bool)
      requires ps != [] && ps[0] in files && NewContent(files[ps[0]]).Success?
      ensures var next := RewriteFrom(if dryRun then files else files[ps[0] := NewContent(files[ps[0]]).value], ps[1..], dryRun);
        RewriteFrom(files, ps, dryRun) == if dryRun then next else Outcome(next.files, [ps[0]] + next.written, next.error)
    {
    }

    /** A dry run neither changes nor writes any file. */
    lemma {:induction false} DryRunWritesNothing(files: map<string, string>, ps: seq<string>)
      ensures RewriteFrom(files, ps, true).files == files
      ensures RewriteFrom(files, ps, true).written == []
      decreases |ps|
    {
      if ps != [] && ps[0] in files && NewContent(files[ps[0]]).Success? {
        DryRunWritesNothing(files, ps[1..]);
      }
    }

    /** A real run over distinct paths that all exist and can all be rewritten writes
        every one of them, in order, gives each its new content, and leaves every other
        file as it was. */
    lemma {:induction false} RealRunRewritesEach(files: map<string, string>, ps: seq<string>)
      requires forall k, m :: 0 <= k < m < |ps| ==> ps[k] != ps[m]
      requires forall k :: 0 <= k < |ps| ==> ps[k] in files && NewContent(files[ps[k]]).Success?
      ensures RewriteFrom(files, ps, false).error == None
      ensures RewriteFrom(files, ps, false).written == ps
      ensures RewriteFrom(files, ps, false).files.Keys == files.Keys
      ensures forall p :: p in files ==>
        RewriteFrom(files, ps, false).files[p] == if p in ps then NewContent(files[p]).value else files[p]
      decreases |ps|
    {
      if ps != [] {
        var files' := files[ps[0] := NewContent(files[ps[0]]).value];
        forall k | 0 <= k < |ps[1..]| ensures ps[1..][k] in files' && NewContent(files'[ps[1..][k]]).Success? {
          assert ps[1..][k] == ps[k + 1] != ps[0];
        }
        RealRunRewritesEach(files', ps[1..]);
        assert ps[0] !in ps[1..];
        forall p | p in files
          ensures RewriteFrom(files, ps, false).files[p] == if p in ps then NewContent(files[p]).value else files[p]
        {
          assert p in ps <==> p == ps[0] || p in ps[1..];
        }
      }
    }

    /** When some configured path does not pass validation, `replace` raises before
        writing anything: no file changes. */
    lemma ValidationFailureWritesNothing(files: map<string, string>, dryRun: bool, j: nat)
      requires j < |paths| && !PathOk(files, j)
      ensures ReplaceSpec(files, dryRun).error.Some?
      ensures ReplaceSpec(files, dryRun).files == files
      ensures ReplaceSpec(files, dryRun).written == []
    {
      ValidateIff(files);
    }

    /** The rewrite loop over `paths`, once validation has passed. */
    method RewriteAll(disk: Disk, dryRun: bool) returns (r: Option<UpdateError>)
      modifies disk
      ensures var o := RewriteFrom(old(disk.files), paths, dryRun);
        disk.files == o.files && disk.writes == old(disk.writes) + o.written && r == o.error
    {
      ghost var o := RewriteFrom(disk.files, paths, dryRun);
      ghost var startWrites := disk.writes;
      ghost var done: seq<string> := [];
      assert paths[0..] == paths;
      for i := 0 to |paths|
        invariant disk.writes == startWrites + done
        invariant done + RewriteFrom(disk.files, paths[i..], dryRun).written == o.written
        invariant RewriteFrom(disk.files, paths[i..], dryRun).files == o.files
        invariant RewriteFrom(disk.files, paths[i..], dryRun).error == o.error
      {
        ghost var before := disk.files;
        assert paths[i..][0] == paths[i] && paths[i..][1..] == paths[i + 1..];
        var e := ReplaceFile(disk, paths[i], dryRun);
        if e.Some? {
          return e;
        }
        RewriteStep(before, paths[i..], dryRun);
        if !dryRun {
          done := done + [paths[i]];
        }
      }
      return None;
    }

    method Replace(disk: Disk, dryRun: bool) returns (r: Option<UpdateError>)
      modifies disk
      ensures var o := ReplaceSpec(old(disk.files), dryRun);
        disk.files == o.files && disk.writes == old(disk.writes) + o.written && r == o.error
    {
      var v := Validate(disk);
      if v.Failure? {
        return Some(v.error);
      }
      r := RewriteAll(disk, dryRun);
    }
  }
}
