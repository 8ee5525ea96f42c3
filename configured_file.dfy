/** `ConfiguredFile` (bumpv/client/config/configured_file.py), the per-file updater
    that preceded `FileUpdater`: it serializes the versions itself, writes them into
    the caller's context, and checks or rewrites one file. */
module ConfiguredFiles {
  import opened Wrappers
  import opened Strings
  import opened Template
  import opened VersionConfig
  import opened LineWindow
  import opened FileSystem
  import opened TextEdit

  datatype FileError =
    | SerializeFailed(cause: SerializeError)  // raised by `serialize`
    | FormatFailed(reason: FormatError)       // KeyError or IndexError from `str.format`
    | FileNotFound(path: string)              // FileNotFoundError from `open`
    | NoSearchLines                           // IndexError: the search text has no lines
    | NotContained(path: string)              // AssertionError: neither text is in the file

  /** The context dict the caller passes in and sees updated. */
  class Context {
    var values: map<string, string>

    constructor(values: map<string, string>)
      ensures this.values == values
    {
      this.values := values;
    }
  }

  /** What `replace` leaves behind: the files, the caller's context, and the error, if
      any. */
  datatype ReplaceOutcome = ReplaceOutcome(files: map<string, string>, context: map<string, string>, error: Option<FileError>)

  class ConfiguredFile {
    const path: string
    const versionConfig: Config

    constructor(path: string, versionConfig: Config)
      ensures this.path == path && this.versionConfig == versionConfig
    {
      this.path := path;
      this.versionConfig := versionConfig;
    }

    /** `self._versionconfig.serialize(version, context)`. */
    function Serialized(version: ParsedVersion, context: map<string, string>): Result<string, SerializeError> {
      SerializeSpec(version, context, versionConfig.serializeFormats)
    }

    /** `contains(search)`: the line-window test on the file's text. */
    function ContainsSpec(files: map<string, string>, search: string): Result<bool, FileError> {
      if path !in files then Failure(FileNotFound(path))
      else
        match ContainsText(search, files[path])
        case Success(b) => Success(b)
        case Failure(_) => Failure(NoSearchLines)
    }

    method ContainsSearch(disk: Disk, search: string) returns (r: Result<bool, FileError>)
      ensures r == ContainsSpec(disk.files, search)
    {
      var content := disk.Read(path);
      if content.None? {
        return Failure(FileNotFound(path));
      }
      var found := Scan(SplitLinesWith(search, StrBreaks), FileLines(content.value));
      if found.Failure? {
        return Failure(NoSearchLines);
      }
      return Success(found.value);
    }

    // -------------------------------------------------------------------------
    // should_contain_version

    /** The error `should_contain_version` raises once `current_version` is in the
        context: the formatted search text is looked for first, then the original
        version string, which must be non-empty. */
    function CheckSpec(files: map<string, string>, version: ParsedVersion, ctx: map<string, string>): Option<FileError> {
      var search := Render(versionConfig.search, ctx);
      if search.Failure? then Some(FormatFailed(search.error))
      else
        var c := ContainsSpec(files, search.value);
        if c.Failure? then Some(c.error)
        else if c.value then None
        else if version.original == [] then Some(NotContained(path))
        else
          var c2 := ContainsSpec(files, version.original);
          if c2.Failure? then Some(c2.error)
          else if c2.value then None
          else Some(NotContained(path))
    }

    /** `should_contain_version(version, context)`: the context and the error. */
    function ShouldContainSpec(files: map<string, string>, version: ParsedVersion, context: map<string, string>)
      : (map<string, string>, Option<FileError>)
    {
      var s := Serialized(version, context);
      if s.Failure? then (context, Some(SerializeFailed(s.error)))
      else
        var ctx := context["current_version" := s.value];
        (ctx, CheckSpec(files, version, ctx))
    }

    method ShouldContainVersion(disk: Disk, version: ParsedVersion, context: Context) returns (r: Option<FileError>)
      modifies context
      ensures (context.values, r) == ShouldContainSpec(disk.files, version, old(context.values))
    {
      var s := Serialize(version, context.values, versionConfig.serializeFormats);
      if s.Failure? {
        return Some(SerializeFailed(s.error));
      }
      context.values := context.values["current_version" := s.value];
      var search := Render(versionConfig.search, context.values);
      if search.Failure? {
        return Some(FormatFailed(search.error));
      }
      var c := ContainsSearch(disk, search.value);
      if c.Failure? {
        return Some(c.error);
      }
      if c.value {
        return None;
      }
      if version.original != [] {
        var c2 := ContainsSearch(disk, version.original);
        if c2.Failure? {
          return Some(c2.error);
        }
        if c2.value {
          return None;
        }
      }
      return Some(NotContained(path));
    }

    /** Once serialization succeeds the caller's context holds the serialized version
        under `current_version` and is otherwise as it was, whatever the check finds. */
    lemma ShouldContainUpdatesContext(files: map<string, string>, version: ParsedVersion, context: map<string, string>)
      requires Serialized(version, context).Success?
      ensures var ctx := ShouldContainSpec(files, version, context).0;
        && ctx.Keys == context.Keys + {"current_version"}
        && ctx["current_version"] == Serialized(version, context).value
        && forall k :: k in context && k != "current_version" ==> ctx[k] == context[k]
    {
    }

    /** For search texts on one line: the check passes exactly when some line of the
        file contains the formatted search text or, failing that, the original version
        string, which must be non-empty. */
    lemma CheckSingleLine(files: map<string, string>, version: ParsedVersion, ctx: map<string, string>)
      requires path in files
      requires Render(versionConfig.search, ctx).Success?
      requires var t := Render(versionConfig.search, ctx).value;
        t != [] && forall k :: 0 <= k < |t| ==> !IsStrLineBreak(t[k])
      requires forall k :: 0 <= k < |version.original| ==> !IsStrLineBreak(version.original[k])
      ensures var t := Render(versionConfig.search, ctx).value;
        var lines := FileLines(files[path]);
        CheckSpec(files, version, ctx).None?
        <==> ((exists j :: 0 <= j < |lines| && Contains(lines[j], t))
          || (version.original != [] && exists j :: 0 <= j < |lines| && Contains(lines[j], version.original)))
    {
      SingleLineText(Render(versionConfig.search, ctx).value, files[path]);
      if version.original != [] {
        SingleLineText(version.original, files[path]);
      }
    }

    // -------------------------------------------------------------------------
    // replace

    /** `replace(current_version, new_version, context, dry_run)`: the file is read
        before anything else; `new_version` is serialized in the context that already
        holds the serialized `current_version`. */
    function ReplaceSpec(
      files: map<string, string>, current: ParsedVersion, newVersion: ParsedVersion,
      context: map<string, string>, dryRun: bool): ReplaceOutcome
    {
      if path !in files then ReplaceOutcome(files, context, Some(FileNotFound(path)))
      else
        var s1 := Serialized(current, context);
        if s1.Failure? then ReplaceOutcome(files, context, Some(SerializeFailed(s1.error)))
        else
          var ctx1 := context["current_version" := s1.value];
          var s2 := Serialized(newVersion, ctx1);
          if s2.Failure? then ReplaceOutcome(files, ctx1, Some(SerializeFailed(s2.error)))
          else
            RewriteSpec(files, current, ctx1["new_version" := s2.value], dryRun)
    }

    /** The rest of `replace` once both versions are in the context `ctx`: the search
        and replace texts are rendered, and the file is rewritten unless this is a dry
        run. */
    function RewriteSpec(files: map<string, string>, current: ParsedVersion, ctx: map<string, string>, dryRun: bool)
      : (o: ReplaceOutcome)
      requires path in files
      ensures o.context == ctx
    {
      var searchFor := Render(versionConfig.search, ctx);
      if searchFor.Failure? then ReplaceOutcome(files, ctx, Some(FormatFailed(searchFor.error)))
      else
        var replaceWith := Render(versionConfig.replace, ctx);
        if replaceWith.Failure? then ReplaceOutcome(files, ctx, Some(FormatFailed(replaceWith.error)))
        else
          var after := Rewrite(files[path], searchFor.value, replaceWith.value, Some(current.original)).value;
          ReplaceOutcome(if dryRun then files else files[path := after], ctx, None)
    }

    method Replace(disk: Disk, current: ParsedVersion, newVersion: ParsedVersion, context: Context, dryRun: bool)
      returns (r: Option<FileError>)
      modifies disk, context
      ensures var o := ReplaceSpec(old(disk.files), current, newVersion, old(context.values), dryRun);
        disk.files == o.files && context.values == o.context && r == o.error
      ensures disk.writes == old(disk.writes) + (if r.None? && !dryRun then [path] else [])
    {
      var before := disk.Read(path);
      if before.None? {
        return Some(FileNotFound(path));
      }
      var s1 := Serialize(current, context.values, versionConfig.serializeFormats);
      if s1.Failure? {
        return Some(SerializeFailed(s1.error));
      }
      context.values := context.values["current_version" := s1.value];
      var s2 := Serialize(newVersion, context.values, versionConfig.serializeFormats);
      if s2.Failure? {
        return Some(SerializeFailed(s2.error));
      }
      context.values := context.values["new_version" := s2.value];
      var searchFor := Render(versionConfig.search, context.values);
      if searchFor.Failure? {
        return Some(FormatFailed(searchFor.error));
      }
      var replaceWith := Render(versionConfig.replace, context.values);
      if replaceWith.Failure? {
        return Some(FormatFailed(replaceWith.error));
      }
      var after := Rewrite(before.value, searchFor.value, replaceWith.value, Some(current.original));
      if !dryRun {
        disk.Write(path, after.value);
      }
      return None;
    }

    /** A missing file raises before the context is touched, and nothing is written. */
    lemma ReplaceMissingFile(files: map<string, string>, current: ParsedVersion, newVersion: ParsedVersion,
                             context: map<string, string>, dryRun: bool)
      requires path !in files
      ensures ReplaceSpec(files, current, newVersion, context, dryRun) == ReplaceOutcome(files, context, Some(FileNotFound(path)))
    {
    }

    /** A run that succeeds read the file, put both serialized versions into the
        context, and then rendered and rewrote in that final context. */
    lemma ReplaceSucceeded(files: map<string, string>, current: ParsedVersion, newVersion: ParsedVersion,
                           context: map<string, string>, dryRun: bool)
      requires ReplaceSpec(files, current, newVersion, context, dryRun).error.None?
      ensures path in files
      ensures var o := ReplaceSpec(files, current, newVersion, context, dryRun);
        o == RewriteSpec(files, current, o.context, dryRun)
    {
      var r := ReplaceSpec(files, current, newVersion, context, dryRun);
      assert path in files;
      var s1 := Serialized(current, context);
      assert s1.Success?;
      var ctx1 := context["current_version" := s1.value];
      var s2 := Serialized(newVersion, ctx1);
      assert s2.Success?;
      var ctx2 := ctx1["new_version" := s2.value];
      assert r == RewriteSpec(files, current, ctx2, dryRun);
      assert r.context == ctx2;
    }

    /** A rewrite that succeeds changes only this file, and a dry run changes nothing.
        When the search text occurs in the file and differs from the replacement,
        every occurrence of it is replaced; otherwise every occurrence of the original
        version string is. An empty search text puts the replacement around every
        character, or, when the replacement is empty too, the original is replaced. */
    lemma ReplaceRewrites(files: map<string, string>, current: ParsedVersion, ctx: map<string, string>, dryRun: bool)
      requires path in files
      requires RewriteSpec(files, current, ctx, dryRun).error.None?
      ensures var o := RewriteSpec(files, current, ctx, dryRun);
        && Render(versionConfig.search, ctx).Success?
        && Render(versionConfig.replace, ctx).Success?
        && var searchFor := Render(versionConfig.search, ctx).value;
           var replaceWith := Render(versionConfig.replace, ctx).value;
        && o.context == ctx
        && o.files.Keys == files.Keys
        && (forall p :: p in files && p != path ==> o.files[p] == files[p])
        && (dryRun ==> o.files == files)
        && (!dryRun && searchFor != [] && Contains(files[path], searchFor) && searchFor != replaceWith ==>
              o.files[path] == ReplaceAll(files[path], searchFor, replaceWith))
        && (!dryRun && searchFor != [] && (!Contains(files[path], searchFor) || searchFor == replaceWith) ==>
              o.files[path] == ReplaceAll(files[path], current.original, replaceWith))
        && (!dryRun && searchFor == [] && replaceWith != [] ==>
              o.files[path] == InsertEverywhere(files[path], replaceWith))
        && (!dryRun && searchFor == [] && replaceWith == [] ==>
              o.files[path] == ReplaceAll(files[path], current.original, []))
    {
      var searchFor := Render(versionConfig.search, ctx).value;
      var replaceWith := Render(versionConfig.replace, ctx).value;
      if searchFor != [] {
        FallbackIff(files[path], searchFor, replaceWith, Some(current.original));
      } else {
        EmptySearchRewrite(files[path], replaceWith, Some(current.original));
      }
    }
  }
}
