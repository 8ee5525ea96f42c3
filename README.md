# bumpv version-text engine in Dafny

This project models the part of bumpv that works on version text, and proves
properties of it. bumpv is a tool that increments a version number and rewrites it
in the files of a project. The model covers:

- **Serialization-format selection** (`VersionConfig`). Formats are sequences of
  literal text and `{label}` fields. The version's parts are laid over the caller's
  context. The parts a format must show are worked out, each configured format is
  tested for completeness, one is chosen and then rendered.
- **The three-part `Version` record** (`Version`). It supports lookup by name, a
  length of three, iteration over `major`, `minor` and `patch`, and bumping.
- **Checking and rewriting files**:
  - `FileUpdater` (module `Updater`) and its predecessor `ConfiguredFile` (module
    `ConfiguredFiles`) work on a `Disk` object that holds the files as a map from
    path to text;
  - both share the line-window containment test (`LineWindow`) and the
    replace-with-fallback rewrite (`TextEdit`).
- **The configuration** (`Configurations`). Sections are maps of options, and
  section names have the form `bumpv:<kind>:<name>`. The module covers the defaults,
  option lookup, listing files and parts, and updating one option.
- **VCS logic** (`Vcs`): reading `git describe` output, the status filter that
  decides whether a working directory is dirty, and the choice of the first usable
  VCS.
- **Map helpers** (`Utils`): `merge_dicts`, the `$`-prefixed environment, the
  verbosity table and `kv_string`.

Python's string operations that the code relies on are modelled in `Strings`. They
are `in`, `replace`, `split`, `join`, `lstrip`, `strip`, `splitlines`, `readlines`,
`int()` and the ordering of `sorted`. `Template` models `str.format` on
literal/field token sequences. `Wrappers` holds `Option` and `Result`: every Python
exception the core raises is a `Failure` of a `Result`.

Subprocesses, regular expressions and the filesystem are not run. What they produce
becomes a parameter:
- the match of the parse pattern;
- the output of `git describe` and of the status commands, or their failure;
- whether a VCS is usable;
- whether the configuration file exists, and its parsed sections;
- the files, held in a `Disk` object.

Imperative code stays imperative:
- the `lookbehind` loop;
- the validation and rewrite loops over the paths;
- the `values` merge and the `keys_needing_representation` loop;
- the selection loop;
- `get_section_names`;
- the pops of `latest_tag_info`;
- the `get_vcs` scan;
- `merge_dicts`.

Each of these is a `method` proved equal to a specification function, and the
lemmas are about those functions. The objects that are updated in place are classes:
`Disk`, `FileUpdater`, `ConfiguredFile` and the caller's `Context`, and
`Configuration`.

Three behaviours of the code are worth knowing before reading the model:
- **Which format is chosen.** The selection loop
  (bumpv/client/versioning/version_config.py:133-141) keeps overwriting `chosen`.
  It returns the last complete format, or the first format when none is complete,
  as long as no format string is "". Python treats "" as false, so in general the
  result is the first format that is not "", looking from the last complete format
  on (from the first format when none is complete). Splitting a `serialize` option
  that starts with a newline (config.py:55) gives a leading "" format, whose empty
  labels mean that no part needs representing; then the last format is chosen.
  `VersionConfig.ThreePartExample` shows the case from tests/test_cli_git.py:746-760,
  which writes `Version: 1`, not `Version: 1.0.0`.
- **An unparsable version.** `parse` returns `None` without raising
  (version_config.py:57-60).
- **The part order.** The order of the parts is the labels of the first serialize
  format (version_config.py:43-46).

## Model

| member | source | states |
|---|---|---|
| Template.LabelsIff | bumpv/client/versioning/version_config.py:36-41 | a string is a label exactly when it is a non-empty field name of the format |
| Template.LabelsAppend | bumpv/client/versioning/version_config.py:36-41 | labels are read left to right: the labels of a concatenation are the concatenated labels |
| Template.RenderFailsAtFirstUnfillable | bumpv/client/versioning/version_config.py:83-95 | `format(**values)` succeeds exactly when every field can be filled; otherwise the error (KeyError, or IndexError for a positional field) names the first field that cannot |
| Template.RenderLocal | bumpv/client/versioning/version_config.py:85 | rendering reads only the values of the format's own fields |
| Template.RenderSelf | bumpv/client/versioning/version_config.py:85 | filling each field with its own `{name}` text gives back the format string |
| Template.EmptyTextNoLabels | bumpv/client/versioning/version_config.py:36-45 | a format string "" has no labels, so a first format "" gives an empty part order |
| Template.TextEmptyIff | bumpv/client/versioning/version_config.py:140-146 | a format string is "" (false as `chosen`) exactly when it holds only empty literals |
| VersionConfig.Order | bumpv/client/versioning/version_config.py:43-46 | the part order is exactly the non-empty field names of the first format |
| VersionConfig.Parse | bumpv/client/versioning/version_config.py:54-65 | no match gives None without error; a match gives one part per named group, built from the group's text and the part's configuration, and keeps the version string as `original` |
| VersionConfig.Namespace | bumpv/client/versioning/version_config.py:77-79 | the namespace has the keys of both maps; a version part replaces the context entry of the same name, and other context entries are kept |
| VersionConfig.MergeValues | bumpv/client/versioning/version_config.py:77-79 | the copy-then-overwrite loop produces that namespace |
| VersionConfig.RequiredFromIff | bumpv/client/versioning/version_config.py:97-112 | the flagged scan selects exactly the parts that are non-optional, or optional with no non-optional part before them while the flag is unset |
| VersionConfig.RequiredKeysIff | bumpv/client/versioning/version_config.py:97-112 | the required keys are the non-optional parts plus the optional parts before the first non-optional one; context-only values are never required |
| VersionConfig.SerializeFormat | bumpv/client/versioning/version_config.py:71-125 | the loop version of `_serialize` returns what `SerializeWith` specifies: the missing-value error, a KeyError for an order name without a value, incompleteness when a required key is not a label, otherwise the rendered text |
| VersionConfig.ChooseSerializeFormat | bumpv/client/versioning/version_config.py:127-151 | the selection loop returns what `ChooseFormat` specifies, and a chosen format is one of the configured formats |
| VersionConfig.Serialize | bumpv/client/versioning/version_config.py:153-156 | `serialize` renders the chosen format |
| VersionConfig.ChooseLastComplete | bumpv/client/versioning/version_config.py:133-147 | when no format string is "" and no format raises, the choice is the LAST complete format, or the first format when none is complete; an empty list gives the "no suitable format" KeyError |
| VersionConfig.ChooseFromLast | bumpv/client/versioning/version_config.py:133-147 | when no format string is "", over any attempts none of which raises, the selection is the last complete format, or the first format when none is complete |
| VersionConfig.ChooseFromTail | bumpv/client/versioning/version_config.py:133-141 | when no format string is "" and a non-empty format was chosen so far, from any point of the loop on, with only complete and incomplete attempts ahead, the result is the last complete format still ahead, or what was chosen so far |
| VersionConfig.ChooseFromAny | bumpv/client/versioning/version_config.py:133-147 | for any format strings, over attempts none of which raises, the selection is the first format that is not "" from the last complete format on (from the first format when none is complete); when every such format is "", or the list is empty, it raises the "no suitable format" KeyError |
| VersionConfig.ChooseFromAnyTail | bumpv/client/versioning/version_config.py:133-141 | from any point of the loop on, with nothing ahead that raises: after the last complete format ahead, the first format that is not ""; with no complete format ahead, a true `chosen` is kept, or else the first format ahead that is not "" is taken |
| VersionConfig.FirstNonEmpty | bumpv/client/versioning/version_config.py:134-145 | the position found holds a format that is not "" and every format before it from the start point is ""; none is found only when all of them are "" |
| VersionConfig.EmptyOrderNeverIncomplete | bumpv/client/versioning/version_config.py:97-122 | with an empty part order nothing needs representing, so raising on incomplete formats changes nothing and no format is incomplete |
| VersionConfig.LeadingEmptyFormatChoosesLast | bumpv/client/versioning/version_config.py:133-147 | with a first format "" (a `serialize` option split at config.py:55 that starts with a newline), every format that renders is complete and the last format is chosen, when it is not "" |
| VersionConfig.ChooseFromRaises | bumpv/client/versioning/version_config.py:142-144 | a format that raises anything but incompleteness makes the whole selection fail |
| VersionConfig.SerializeAbortsOnUnfillable | bumpv/client/versioning/version_config.py:83-95 | a format anywhere in the list with a label that neither the version nor the context fills makes selection and `serialize` fail |
| VersionConfig.ThreePartExample | tests/test_cli_git.py:746-760 | version 1.0.0 with optional minor and patch, formats `{major}.{minor}.{patch}`, `{major}.{minor}`, `{major}`: the text written is `Version: 1` |
| Version.Make | bumpv/client/versioning/version.py:9-14 | a new version has the given numbers, no release and no original |
| Version.GetItem | bumpv/client/versioning/version.py:20-24 | each of `major`, `minor`, `patch`, `release` and their underscored fields looks up that datum, `original` looks up the original text, and a name that is neither data nor a class or inherited attribute raises KeyError naming it |
| Version.Keys | bumpv/client/versioning/version.py:26-34 | iteration yields `major`, `minor`, `patch` in that order, as many as `len` (3), and each name looks up its own number |
| Version.BumpByOrder | bumpv/client/versioning/version.py:55-75 | bumping the part at position i adds one to it, keeps the parts before it, resets the parts after it to 0 and drops release and original; any other name is UnknownVersionPartError |
| Version.BumpMovesForward | bumpv/client/versioning/version.py:55-65 | every successful bump gives a later version |
| Version.BumpMajorExample | bumpv/client/versioning/version.py:55-57 | 4.2.8 bumped at major is 5.0.0 |
| LineWindow.Inner | bumpv/client/files/updater.py:58 | `xs[1:-1]` is empty for two or fewer lines, and otherwise the lines between the first and the last |
| LineWindow.WindowAt | bumpv/client/files/updater.py:50-54 | after line j the window holds the last min(j+1, n) lines |
| LineWindow.Scan | bumpv/client/files/updater.py:50-62 | the `lookbehind` loop answers what `ScanSpec` specifies: true exactly when the window after some line passes the test; no lines gives false; an empty search text with lines raises |
| LineWindow.SingleLineSearch | bumpv/client/files/updater.py:47-62 | a one-line search matches exactly when some line contains it |
| LineWindow.SingleLineText | bumpv/client/files/updater.py:47-62 | a search text without line breaks is found exactly when some line of the file contains it |
| LineWindow.FullWindowFound | bumpv/client/files/updater.py:50-61 | any n consecutive lines that pass the test (first and last by substring, inner lines equal) are found |
| LineWindow.LongSearchNeedsFullWindow | bumpv/client/files/updater.py:53-58 | with three or more search lines only a full window can pass |
| LineWindow.LongMatchIsFull | bumpv/client/files/updater.py:53-58 | a match of three or more search lines is a run of n consecutive lines that passes the test |
| LineWindow.LongSearchIff | bumpv/client/files/updater.py:50-62 | for three or more search lines the scan answers exactly whether some run of n consecutive lines passes the test, so an empty file answers false |
| LineWindow.TwoLineSearchOnFirstLine | bumpv/client/files/updater.py:50-61 | the test also runs before the window is full: a two-line search is found on a first line that contains both search lines |
| LineWindow.ScanEdgeCases | bumpv/client/files/updater.py:47-62 | an empty file never matches; an empty search text raises IndexError once the file has a line |
| FileSystem.Disk.Read | bumpv/client/files/updater.py:67-68 | reading gives the file's text, or nothing when the path is absent |
| FileSystem.Disk.Write | bumpv/client/files/updater.py:96-98 | writing replaces or creates exactly one file and records the path |
| TextEdit.Rewrite | bumpv/client/files/updater.py:70-77 | no result only when the fallback is needed and there is no original string |
| TextEdit.EmptySearchRewrite | bumpv/client/config/configured_file.py:62-72 | an empty search text puts a non-empty replacement before every character and at the end, as `str.replace("", r)` does; with an empty replacement too nothing changes, so the original version string is replaced instead |
| TextEdit.FallbackIff | bumpv/client/files/updater.py:70-77 | every occurrence of the search text is replaced when it occurs and differs from the replacement; otherwise every occurrence of the original version string is |
| TextEdit.RewriteLength | bumpv/client/files/updater.py:70 | the length changes by the length difference for each occurrence, and by nothing else |
| Updater.UpdateContext | bumpv/client/files/updater.py:24-27 | the context holds exactly `current_version` and `new_version` |
| Updater.FileUpdater.Create | bumpv/client/files/updater.py:19-29 | the updater keeps the paths and the search and replace templates filled with the serialized versions; the search template's error comes first |
| Updater.FileUpdater.ContainsPath | bumpv/client/files/updater.py:43-64 | the check reads the file and runs the line window on it; a missing file raises InvalidTargetFile |
| Updater.FileUpdater.Validate | bumpv/client/files/updater.py:31-41 | the validation loop answers what `ValidateSpec` specifies |
| Updater.FileUpdater.ValidateIff | bumpv/client/files/updater.py:31-41 | validation succeeds (with true) exactly when every path exists and contains the search text; otherwise the error comes from the first path that fails |
| Updater.FirstFailureSucceeds | bumpv/client/files/updater.py:31-41 | checking in order passes (with true) exactly when every check passed |
| Updater.FirstFailureFails | bumpv/client/files/updater.py:31-41 | otherwise the error is that of the first check that did not pass: its own error, or the not-found error for a check that answered false |
| Updater.FileUpdater.ReplaceFile | bumpv/client/files/updater.py:66-98 | one file: a missing file raises; otherwise a real run writes the new content (even unchanged) and a dry run writes nothing |
| Updater.FileUpdater.RewriteStep | bumpv/client/files/updater.py:102-103 | one step of the rewrite loop rewrites the first path and carries on with the rest |
| Updater.FileUpdater.DryRunWritesNothing | bumpv/client/files/updater.py:96-98 | a dry run neither changes nor writes a file |
| Updater.FileUpdater.RealRunRewritesEach | bumpv/client/files/updater.py:100-103 | a real run over distinct existing paths writes each path once, in order; each gets its new content and every other file is untouched |
| Updater.FileUpdater.ValidationFailureWritesNothing | bumpv/client/files/updater.py:100-103 | when some path fails validation, `replace` raises with every file unchanged and nothing written |
| Updater.FileUpdater.RewriteAll | bumpv/client/files/updater.py:102-103 | the rewrite loop leaves the disk as `RewriteFrom` specifies |
| Updater.FileUpdater.Replace | bumpv/client/files/updater.py:100-103 | `replace` leaves the files, writes and error that `ReplaceSpec` specifies: validate everything first, then rewrite |
| ConfiguredFiles.ConfiguredFile.ContainsSearch | bumpv/client/config/configured_file.py:32-49 | `contains` runs the line window over the file, and a missing file raises |
| ConfiguredFiles.ConfiguredFile.ShouldContainVersion | bumpv/client/config/configured_file.py:15-30 | the context gains the serialized `current_version`; then the search text, failing that the non-empty original, must be in the file |
| ConfiguredFiles.ConfiguredFile.ShouldContainUpdatesContext | bumpv/client/config/configured_file.py:17 | after a successful serialization the caller's context holds `current_version` and is otherwise unchanged |
| ConfiguredFiles.ConfiguredFile.CheckSingleLine | bumpv/client/config/configured_file.py:19-30 | for one-line texts the check passes exactly when some line contains the search text, or the original is non-empty and some line contains it |
| ConfiguredFiles.ConfiguredFile.Replace | bumpv/client/config/configured_file.py:51-93 | `replace` reads first, puts both serialized versions into the caller's context, and writes the rewritten file unless this is a dry run |
| ConfiguredFiles.ConfiguredFile.ReplaceMissingFile | bumpv/client/config/configured_file.py:53-54 | a missing file raises before the context is touched |
| ConfiguredFiles.ConfiguredFile.ReplaceSucceeded | bumpv/client/config/configured_file.py:51-93 | a `replace` that succeeds found the file, and its outcome is the rewrite with both serialized versions in the context |
| ConfiguredFiles.ConfiguredFile.ReplaceRewrites | bumpv/client/config/configured_file.py:59-93 | a run that succeeds changes only this file; a dry run changes nothing; a non-empty search text is replaced, or the original when that changes nothing; an empty search text puts a non-empty replacement around every character, and with an empty replacement the original is replaced |
| Configurations.OverlayKeeps | bumpv/client/config/config.py:39-42 | reading a file keeps the default sections and adds the file's sections, with no section listed twice |
| Configurations.OverlayValues | bumpv/client/config/config.py:39-42 | each option holds the value read last; defaults the file does not set survive |
| Configurations.BoolOption | bumpv/client/config/config.py:51-52 | `getboolean` accepts exactly ConfigParser's eight boolean words in any case and rejects anything else |
| Configurations.DefaultBooleansAreFalse | bumpv/client/config/config.py:17-18 | the defaults of `commit` and `tag` read as false |
| Configurations.DefaultSerialize | bumpv/client/config/config.py:55 | the default `serialize` splits into the single format `{major}.{minor}.{patch}` |
| Configurations.SectionNamesIff | bumpv/client/config/config.py:77-85 | the names are listed exactly when every section but `bumpv` has three `:`-parts, and then a name is listed exactly when some section of that kind has it as third part |
| Configurations.SectionNamesOne | bumpv/client/config/config.py:79-84 | one section: `bumpv` lists nothing, a name without three `:`-parts raises ValueError, and a section of the kind lists its third part |
| Configurations.SectionNamesAppend | bumpv/client/config/config.py:77-85 | the names are listed in section order: for a concatenation of section lists they are the names of the first followed by those of the second, and the first malformed name raises |
| Configurations.SplitPrefixed | bumpv/client/config/config.py:82 | a prefixed section name splits into `bumpv`, its kind and its name |
| Configurations.JoinPrefixed | bumpv/client/config/config.py:82 | a name that splits into `bumpv`, a kind and a name is that prefix plus the name |
| Configurations.PartsListsPart | bumpv/client/config/config.py:93-94 | a configuration with one part section lists that part |
| Configurations.Configuration.Load | bumpv/client/config/config.py:37-58 | a missing file raises InvalidConfigPath; otherwise the fields are read from the `bumpv` section laid over the defaults, `serialize` is split on newlines, and non-boolean `commit`/`tag` values raise |
| Configurations.Configuration.GetSection | bumpv/client/config/config.py:68-69 | the section, or KeyError when it does not exist |
| Configurations.Configuration.GetRawSectionOption | bumpv/client/config/config.py:71-75 | the option's value, "" for a missing option, OptionNotFound for a missing section |
| Configurations.Configuration.GetFileSection | bumpv/client/config/config.py:90-91 | the section `bumpv:file:` plus the path |
| Configurations.Configuration.GetPartSection | bumpv/client/config/config.py:96-97 | as written, it looks under the `bumpv:file:` prefix |
| Configurations.Configuration.GetPartSectionIntended | bumpv/client/config/config.py:96-97 | the corrected lookup under `bumpv:part:` |
| Configurations.Configuration.GetSectionNames | bumpv/client/config/config.py:77-85 | the loop answers what `SectionNames` specifies |
| Configurations.Configuration.Files | bumpv/client/config/config.py:87-88 | the names of the `file` sections |
| Configurations.Configuration.Parts | bumpv/client/config/config.py:93-94 | the names of the `part` sections |
| Configurations.Configuration.SetValue | bumpv/client/config/config.py:99-100 | exactly one option of one existing section changes; a missing section raises KeyError and nothing changes |
| Configurations.Configuration.PartSectionMissed | bumpv/client/config/config.py:96-97 | a part that `parts()` lists from its `bumpv:part:` section is not found by `get_part_section` as written |
| Configurations.Configuration.PartSectionFound | bumpv/client/config/config.py:93-97 | the corrected lookup finds the section of every part listed from a `bumpv:part:<name>` section |
| Vcs.LatestTagInfo | bumpv/client/vcs/vcs.py:93-105 | the pops give what `DescribeSpec` specifies: no info when the command failed; a last part that strips to "dirty" is dropped; then the `g`-stripped sha, the integer distance (ValueError otherwise) and the `v`-stripped rest rejoined with `-`; too few parts is IndexError |
| Vcs.PopParts | bumpv/client/vcs/vcs.py:97-107 | the pops on the `-`-separated parts give what `DescribeParts` specifies |
| Vcs.CommitSplit | bumpv/client/vcs/vcs.py:83-92 | the commit part `g<sha>[-dirty]` plus newline splits on `-` into `g` plus the sha (with the newline unless dirty) and `dirty` with the newline |
| Vcs.DescribeSplit | bumpv/client/vcs/vcs.py:83-92 | the describe output splits on `-` into the tag's parts, the distance, `g` plus the sha, and `dirty` |
| Vcs.DescribeRoundTrip | bumpv/client/vcs/vcs.py:99-105 | reading back `v<version>-<distance>-g<sha>[-dirty]` gives that version, distance and sha; the sha keeps the final newline unless the tree is dirty |
| Vcs.KeptLinesIff | bumpv/client/vcs/vcs.py:67-71 | the lines kept are exactly the stripped status lines that do not start with `??` |
| Vcs.KeptLinesSound | bumpv/client/vcs/vcs.py:67-71 | every kept line is a stripped status line that does not start with `??` |
| Vcs.KeptLinesComplete | bumpv/client/vcs/vcs.py:67-71 | every status line that does not start with `??` once stripped is kept, stripped |
| Vcs.KeptLinesEmptyIff | bumpv/client/vcs/vcs.py:67-73 | nothing is kept exactly when every status line starts with `??` once stripped |
| Vcs.CleanIff | bumpv/client/vcs/vcs.py:66-74 | a failing status command raises CalledProcessError; otherwise the tree is clean exactly when every status line starts with `??` once stripped, so a blank line makes it dirty |
| Vcs.ScanVcs | bumpv/client/vcs/vcs.py:152-161 | the scan loop answers what `ScanFrom` specifies |
| Vcs.GetVcs | bumpv/client/vcs/vcs.py:152-161 | `get_vcs(allow_dirty)` runs the scan and can only fail with the dirty-tree error or the CalledProcessError of a failing status command |
| Vcs.GetVcsLegacy | bumpversion/vcs.py:12-21 | `get_vcs(defaults)` runs the same scan; a missing `allow_dirty` is a KeyError only when it is consulted |
| Vcs.ScanChoosesFirstUsable | bumpv/client/vcs/vcs.py:149-161 | the result is the first usable VCS in the order Git, Mercurial, or none exactly when none is usable; it fails exactly when that VCS's status command fails (CalledProcessError, whatever the setting) or its tree is dirty and dirtiness is not allowed |
| Utils.MergeDicts | bumpv/client/utils.py:60-64 | the update loop gives `MergeSpec` |
| Utils.MergeLastWins | bumpv/client/utils.py:60-64 | the merged keys are those of all the inputs (none for no inputs), and each key has the value of the last input that has it |
| Utils.PrefixedEnviron | bumpv/client/utils.py:49-50 | each variable `k` appears as `$k` with its value, and there are no other keys |
| Utils.PrefixedEnvironCount | bumpv/client/utils.py:49-50 | no two variables share a key, so the entry count is kept |
| Utils.LogLevel | bumpv/client/utils.py:32-36 | 0 gives WARNING and 1 gives INFO; every other value gives DEBUG |
| Utils.LogLevelMonotone | bumpv/client/utils.py:32-36 | more verbosity never raises the level |
| Utils.SortItemsSorted | bumpversion/utils.py:13 | `sorted(d.items())` orders the items by ascending key |
| Utils.SortItems | bumpversion/utils.py:13 | sorting keeps exactly the dict's items |
| Utils.Entries | bumpversion/utils.py:13 | each item is rendered as `key=value` |
| Utils.KvStringSorted | bumpversion/utils.py:12-13 | `kv_string` joins with ", " the entries of a key-ascending sequence of exactly the dict's items; an empty dict gives "" |
| Utils.KvStringOrderFree | bumpversion/utils.py:12-13 | the text does not depend on the order the dict was filled in |

## Left out

- Version.GetItem: a method or class attribute comes back as its name, not as a bound method or its value. The attributes inherited from `object` are those of CPython 3.8 to 3.10; 3.11 adds `__getstate__`.
- Regular expressions: compiling and matching the parse pattern (version_config.py:21, 54). `Parse` receives the match as an optional map from group name to optional text.
- VersionPart and PartConfiguration come from modules that are not part of this model. A part is a value text and an optional flag, and building one from a group and its configuration is the function parameter of `Parse`.
- The `Version` that version_config.py constructs is not the three-part record of version.py. The serializing model uses a parsed version: a part map and the original text.
- The misspelt exception import and the missing imports of `Version`, `logger` and `kv_string` in version_config.py would raise NameError. The model follows the evident intent.
- `Version.serialize`, which updater.py calls, is defined in no version module. The serialized texts are inputs of `FileUpdater.Create`.
- Python's format mini-language: format specs, conversions, `{{` escapes and attribute or index access in fields. Templates are literal/field token sequences, and a field of digits raises IndexError.
- The time context (`datetime.now`) and `os.environ`: they are nondeterministic, and the environment is an input of `PrefixedEnviron`.
- Subprocesses: running git and hg, `is_usable`, `commit`, `tag`, `add_path`. Their outputs and usability are inputs; a failing status command is an absent output, and the CalledProcessError it raises is `StatusFailed`.
- UTF-8 encoding and decoding of file bytes: files are text.
- Logging and the unified diff shown before a rewrite: they only inform.
- ConfigParser internals: parsing INI text, `%` interpolation, lowercasing of option names, the DEFAULT section and writing files, including `new_config_file`. Sections arrive parsed.
- Configurations.BoolOption: the lower-casing is ASCII only; `str.lower` also folds non-ASCII letters, which only matters for non-ASCII option values.
- VersionConfig.ChooseLastComplete, VersionConfig.ChooseFromLast, VersionConfig.ChooseFromTail: they state the choice only when no format string is "". `VersionConfig.ChooseFromAny` and `VersionConfig.LeadingEmptyFormatChoosesLast` state it for any format strings.
- Strings.ParseInt: it accepts ASCII digits only; Python's `int()` also accepts other Unicode digits.
- Argparse glue (`DiscardDefaultIfSpecifiedAppendAction`) and logger setup: library plumbing.
- Vcs.LatestTagInfo: the dict holds the key `dirty` only when the tree is dirty; the model records it as a boolean that is false otherwise.
- Assertions in configured_file.py are modelled as raising, as they do unless Python runs with `-O`.
- Concurrency and file changes by other processes between the validation and the rewrite.

## Findings

| source | as written | input that shows it | evidently intended | confidence | as-written member | corrected member |
|---|---|---|---|---|---|---|
| bumpv/client/config/config.py:96-97 | `get_part_section(part)` looks up `bumpv:file:` + part | a configuration with section `bumpv:part:major` and no `bumpv:file:major`: `parts()` lists `major`, and `get_part_section("major")` raises KeyError | look up `bumpv:part:` + part, the prefix defined at config.py:11 | high, not executed | Configurations.Configuration.PartSectionMissed | Configurations.Configuration.PartSectionFound |
