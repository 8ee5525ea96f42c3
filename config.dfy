/** `Configuration` (bumpv/client/config/config.py): the INI settings with the
    defaults beneath them, the fields read from the `bumpv` section, and the lookups
    of the `bumpv:<kind>:<name>` sections. Reading the INI text itself is not
    modelled: the parsed sections of the file are an input. */
module Configurations {
  import opened Wrappers
  import opened Strings

  const FileSectionPrefix: string := "bumpv:file:"
  const PartSectionPrefix: string := "bumpv:part:"

  /** The `bumpv` section of `DEFAULT`, as ConfigParser stores it (every value a
      string, so `False` becomes "False"). */
  const DefaultBumpv: map<string, string> := map[
    "current_version" := "",
    "commit" := "False",
    "tag" := "False",
    "parse" := "(?P<major>\\d+)\\.(?P<minor>\\d+)\\.(?P<patch>\\d+)",
    "serialize" := "{major}.{minor}.{patch}",
    "search" := "{current_version}",
    "replace" := "{new_version}",
    "tag_name" := "v{new_version}",
    "message" := "Bump version: {current_version} \U{2192} {new_version}"]

  type Sections = map<string, map<string, string>>

  /** A section as read from the configuration file, in file order. */
  datatype Section = Section(name: string, options: map<string, string>)

  datatype ConfigError =
    | InvalidConfigPath(path: string)               // no file at the given path
    | KeyError(key: string)                         // no section of that name
    | OptionNotFound(key: string, option: string)   // get_raw_section_option on a missing section
    | NotBoolean(value: string)                     // ValueError from getboolean
    | BadSectionName(section: string)               // ValueError unpacking section.split(":")

  // ---------------------------------------------------------------------------
  // Reading: defaults first, then the file

  /** `read_dict` / `read`: each section read is added after the existing ones, or,
      when it exists already, has its options overridden. */
  function Overlay(sections: Sections, order: seq<string>, parsed: seq<Section>): (r: (Sections, seq<string>))
    decreases |parsed|
  {
    if parsed == [] then (sections, order)
    else
      var s := parsed[0];
      var base := if s.name in sections then sections[s.name] else map[];
      Overlay(sections[s.name := base + s.options],
              if s.name in sections then order else order + [s.name],
              parsed[1..])
  }

  /** The sections list and the section map agree, with no name twice. */
  predicate OrderMatches(sections: Sections, order: seq<string>) {
    && (forall i :: 0 <= i < |order| ==> order[i] in sections)
    && (forall k :: k in sections ==> k in order)
    && (forall i, j :: 0 <= i < j < |order| ==> order[i] != order[j])
  }

  /** Reading keeps every section and option already there, adds the file's sections,
      and keeps the section list in step with the sections. */
  lemma {:induction false} OverlayKeeps(sections: Sections, order: seq<string>, parsed: seq<Section>)
    requires OrderMatches(sections, order)
    ensures OrderMatches(Overlay(sections, order, parsed).0, Overlay(sections, order, parsed).1)
    ensures forall k :: k in sections ==> (k in Overlay(sections, order, parsed).0
      && sections[k].Keys <= Overlay(sections, order, parsed).0[k].Keys)
    ensures forall i :: 0 <= i < |parsed| ==> parsed[i].name in Overlay(sections, order, parsed).0
    decreases |parsed|
  {
    if parsed != [] {
      var s := parsed[0];
      var base := if s.name in sections then sections[s.name] else map[];
      var sections' := sections[s.name := base + s.options];
      var order' := if s.name in sections then order else order + [s.name];
      assert OrderMatches(sections', order');
      OverlayKeeps(sections', order', parsed[1..]);
      forall i | 1 <= i < |parsed| ensures parsed[i].name in Overlay(sections, order, parsed).0 {
        assert parsed[i] == parsed[1..][i - 1];
      }
    }
  }

  /** No section of `parsed` from position `i` on sets option `o` of section `k`. */
  predicate NotSetLater(parsed: seq<Section>, i: nat, k: string, o: string) {
    forall j :: i <= j < |parsed| && parsed[j].name == k ==> o !in parsed[j].options
  }

  /** The value of an option after reading is the one read last: a value set by the
      file survives unless a later section of the same name sets it again, and a value
      already there survives unless the file sets it. */
  lemma {:induction false} OverlayValues(sections: Sections, order: seq<string>, parsed: seq<Section>)
    ensures forall i, o :: 0 <= i < |parsed| && o in parsed[i].options && NotSetLater(parsed, i + 1, parsed[i].name, o) ==>
      parsed[i].name in Overlay(sections, order, parsed).0
      && o in Overlay(sections, order, parsed).0[parsed[i].name]
      && Overlay(sections, order, parsed).0[parsed[i].name][o] == parsed[i].options[o]
    ensures forall k, o :: k in sections && o in sections[k] && NotSetLater(parsed, 0, k, o) ==>
      k in Overlay(sections, order, parsed).0
      && o in Overlay(sections, order, parsed).0[k]
      && Overlay(sections, order, parsed).0[k][o] == sections[k][o]
    decreases |parsed|
  {
    if parsed != [] {
      var s := parsed[0];
      var base := if s.name in sections then sections[s.name] else map[];
      var sections' := sections[s.name := base + s.options];
      var order' := if s.name in sections then order else order + [s.name];
      OverlayValues(sections', order', parsed[1..]);
      var result := Overlay(sections, order, parsed).0;
      forall i, o | 0 <= i < |parsed| && o in parsed[i].options && NotSetLater(parsed, i + 1, parsed[i].name, o)
        ensures parsed[i].name in result && o in result[parsed[i].name]
          && result[parsed[i].name][o] == parsed[i].options[o]
      {
        if i == 0 {
          assert NotSetLater(parsed[1..], 0, s.name, o) by {
            forall j | 0 <= j < |parsed[1..]| && parsed[1..][j].name == s.name
              ensures o !in parsed[1..][j].options
            {
              assert parsed[1..][j] == parsed[j + 1];
            }
          }
        } else {
          assert parsed[i] == parsed[1..][i - 1];
          assert NotSetLater(parsed[1..], i, parsed[i].name, o) by {
            forall j | i <= j < |parsed[1..]| && parsed[1..][j].name == parsed[i].name
              ensures o !in parsed[1..][j].options
            {
              assert parsed[1..][j] == parsed[j + 1];
            }
          }
        }
      }
      forall k, o | k in sections && o in sections[k] && NotSetLater(parsed, 0, k, o)
        ensures k in result && o in result[k] && result[k][o] == sections[k][o]
      {
        assert NotSetLater(parsed[1..], 0, k, o) by {
          forall j | 0 <= j < |parsed[1..]| && parsed[1..][j].name == k
            ensures o !in parsed[1..][j].options
          {
            assert parsed[1..][j] == parsed[j + 1];
          }
        }
        if k == s.name {
          assert o !in s.options;
        }
      }
    }
  }

  /** ASCII lower case. */
  function Lower(s: string): (r: string)
    ensures |r| == |s|
    ensures forall i :: 0 <= i < |s| ==> r[i] == if 'A' <= s[i] <= 'Z' then s[i] - 'A' + 'a' else s[i]
  {
    seq(|s|, i requires 0 <= i < |s| => if 'A' <= s[i] <= 'Z' then s[i] - 'A' + 'a' else s[i])
  }

  /** `getboolean`: ConfigParser's boolean words, in any case. */
  function BoolOption(value: string): (r: Result<bool, ConfigError>)
    ensures r.Success? <==> Lower(value) in {"1", "yes", "true", "on", "0", "no", "false", "off"}
    ensures r.Success? ==> (r.value <==> Lower(value) in {"1", "yes", "true", "on"})
    ensures r.Failure? ==> r.error == NotBoolean(value)
  {
    var v := Lower(value);
    if v in {"1", "yes", "true", "on"} then Success(true)
    else if v in {"0", "no", "false", "off"} then Success(false)
    else Failure(NotBoolean(value))
  }

  lemma DefaultBooleansAreFalse()
    ensures BoolOption(DefaultBumpv["commit"]) == Success(false)
    ensures BoolOption(DefaultBumpv["tag"]) == Success(false)
  {
    assert Lower("False") == "false";
  }

  // ---------------------------------------------------------------------------
  // Section names

  /** `get_section_names(key)` over the section list: every name but `bumpv` must
      have exactly three `:`-separated parts; the third part of each whose second part
      is `key` is listed, in order. The first part is not checked. */
  function SectionNames(order: seq<string>, key: string): Result<seq<string>, ConfigError>
    decreases |order|
  {
    if order == [] then Success([])
    else
      var rest := SectionNames(order[1..], key);
      if order[0] == "bumpv" then rest
      else
        var parts := Split(order[0], ':');
        if |parts| != 3 then Failure(BadSectionName(order[0]))
        else if rest.Failure? then rest
        else if parts[1] == key then Success([parts[2]] + rest.value)
        else rest
  }

  /** Section `s` names something of kind `key` called `name`. */
  predicate Names(s: string, key: string, name: string) {
    var parts := Split(s, ':');
    s != "bumpv" && |parts| == 3 && parts[1] == key && parts[2] == name
  }

  /** A section name the unpacking accepts. */
  predicate WellFormed(s: string) {
    s == "bumpv" || |Split(s, ':')| == 3
  }

  /** The names are listed exactly when every section name is well formed, and then
      they are exactly the names of the sections of that kind. */
  lemma {:induction false} SectionNamesIff(order: seq<string>, key: string, name: string)
    ensures SectionNames(order, key).Success? <==> forall i :: 0 <= i < |order| ==> WellFormed(order[i])
    ensures SectionNames(order, key).Success? ==>
      (name in SectionNames(order, key).value <==> exists i :: 0 <= i < |order| && Names(order[i], key, name))
    decreases |order|
  {
    if order != [] {
      SectionNamesIff(order[1..], key, name);
      assert forall i :: 1 <= i < |order| ==> order[i] == order[1..][i - 1];
      if SectionNames(order, key).Success? {
        if exists i :: 0 <= i < |order| && Names(order[i], key, name) {
          var i :| 0 <= i < |order| && Names(order[i], key, name);
          if i > 0 {
            assert Names(order[1..][i - 1], key, name);
          }
        }
        if name in SectionNames(order, key).value && !(name in SectionNames(order[1..], key).value) {
          assert Names(order[0], key, name);
        }
      }
    }
  }

  /** One section: `bumpv` lists nothing, a name without three parts raises, and a
      name of the kind lists its third part. */
  lemma SectionNamesOne(s: string, key: string)
    ensures SectionNames([s], key) ==
      if s == "bumpv" then Success([])
      else if !WellFormed(s) then Failure(BadSectionName(s))
      else if Names(s, key, Split(s, ':')[2]) then Success([Split(s, ':')[2]])
      else Success([])
  {
    assert [s][1..] == [];
    assert SectionNames([s][1..], key) == Success([]);
    var parts := Split(s, ':');
    if s != "bumpv" && |parts| == 3 {
      assert [parts[2]] + [] == [parts[2]];
    }
  }

  /** Sections are read in order: the names of a concatenation are the names of the
      first part followed by those of the second, and the first malformed name in the
      whole list is the one reported. */
  lemma {:induction false} SectionNamesAppend(a: seq<string>, b: seq<string>, key: string)
    ensures SectionNames(a + b, key) ==
      if SectionNames(a, key).Failure? then SectionNames(a, key)
      else if SectionNames(b, key).Failure? then SectionNames(b, key)
      else Success(SectionNames(a, key).value + SectionNames(b, key).value)
    decreases |a|
  {
    if a == [] {
      assert a + b == b;
      if SectionNames(b, key).Success? {
        assert [] + SectionNames(b, key).value == SectionNames(b, key).value;
      }
    } else {
      assert (a + b)[0] == a[0] && (a + b)[1..] == a[1..] + b;
      SectionNamesAppend(a[1..], b, key);
      var ra := SectionNames(a[1..], key);
      var rb := SectionNames(b, key);
      var parts := Split(a[0], ':');
      if a[0] != "bumpv" && |parts| == 3 && ra.Success? && rb.Success? && parts[1] == key {
        assert [parts[2]] + (ra.value + rb.value) == ([parts[2]] + ra.value) + rb.value;
      }
    }
  }

  /** `(prefix + name).split(":")` for a name without `:`. */
  lemma SplitPrefixed(kind: string, name: string)
    requires ':' !in kind && ':' !in name
    ensures Split("bumpv:" + kind + ":" + name, ':') == ["bumpv", kind, name]
  {
    assert "bumpv:" + kind + ":" + name == "bumpv" + [':'] + (kind + [':'] + name);
    SplitAround("bumpv", kind + [':'] + name, ':');
    SplitAround(kind, name, ':');
    assert ':' !in "bumpv";
    SplitNoSeparator("bumpv", ':');
    SplitNoSeparator(kind, ':');
    SplitNoSeparator(name, ':');
  }

  /** A section whose parts are `bumpv`, a kind and a name is named by the prefix of
      that kind followed by the name. */
  lemma JoinPrefixed(s: string, kind: string, name: string)
    requires Split(s, ':') == ["bumpv", kind, name]
    ensures s == "bumpv:" + kind + ":" + name
  {
    JoinSplit(s, ':');
    var parts := Split(s, ':');
    assert Join(parts, ":") == parts[0] + ":" + Join(parts[1..], ":");
    assert Join(parts[1..], ":") == parts[1] + ":" + Join(parts[2..], ":");
  }

  /** A configuration with one part section lists that part. */
  lemma PartsListsPart(part: string)
    requires ':' !in part
    ensures SectionNames(["bumpv", PartSectionPrefix + part], "part") == Success([part])
  {
    SplitPrefixed("part", part);
    assert PartSectionPrefix + part == "bumpv:" + "part" + ":" + part;
    var order := ["bumpv", PartSectionPrefix + part];
    assert order[1..] == [PartSectionPrefix + part] && order[1..][1..] == [];
    assert PartSectionPrefix + part != "bumpv" by {
      assert |PartSectionPrefix + part| > |"bumpv"|;
    }
    assert SectionNames(order[1..][1..], "part") == Success([]);
    assert [part] + [] == [part];
    assert SectionNames(order[1..], "part") == Success([part]);
  }

  /** The default `serialize` is one format. */
  lemma DefaultSerialize()
    ensures Split(DefaultBumpv["serialize"], '\n') == ["{major}.{minor}.{patch}"]
  {
    assert '\n' !in "{major}.{minor}.{patch}";
    SplitNoSeparator("{major}.{minor}.{patch}", '\n');
  }

  // ---------------------------------------------------------------------------
  // The configuration object

  class Configuration {
    var sections: Sections
    var order: seq<string>
    const filePath: string
    const currentVersion: string
    const commit: bool
    const tag: bool
    const tagName: string
    const parse: string
    const serialize: seq<string>
    const search: string
    const replace: string
    const message: string

    constructor(
      filePath: string, sections: Sections, order: seq<string>,
      currentVersion: string, commit: bool, tag: bool, tagName: string, parse: string,
      serialize: seq<string>, search: string, replace: string, message: string)
      ensures this.filePath == filePath && this.sections == sections && this.order == order
      ensures this.currentVersion == currentVersion && this.commit == commit && this.tag == tag
      ensures this.tagName == tagName && this.parse == parse && this.serialize == serialize
      ensures this.search == search && this.replace == replace && this.message == message
    {
      this.filePath := filePath;
      this.sections := sections;
      this.order := order;
      this.currentVersion := currentVersion;
      this.commit := commit;
      this.tag := tag;
      this.tagName := tagName;
      this.parse := parse;
      this.serialize := serialize;
      this.search := search;
      this.replace := replace;
      this.message := message;
    }

    /** `Configuration(file_path)`: the defaults, overlaid by the file's sections when
        the file exists; the fields are read from the resulting `bumpv` section, with
        `serialize` split into one format per line. */
    static method Load(filePath: string, fileExists: bool, parsed: seq<Section>)
      returns (r: Result<Configuration, ConfigError>)
      ensures !fileExists ==> r == Failure(InvalidConfigPath(filePath))
      ensures fileExists ==>
        var (sections, order) := Overlay(map["bumpv" := DefaultBumpv], ["bumpv"], parsed);
        && "bumpv" in sections && DefaultBumpv.Keys <= sections["bumpv"].Keys
        && var b := sections["bumpv"];
        if BoolOption(b["commit"]).Failure? then r == Failure(BoolOption(b["commit"]).error)
        else if BoolOption(b["tag"]).Failure? then r == Failure(BoolOption(b["tag"]).error)
        else (r.Success? && fresh(r.value)
          && r.value.sections == sections && r.value.order == order && OrderMatches(sections, order)
          && r.value.currentVersion == b["current_version"]
          && r.value.commit == BoolOption(b["commit"]).value && r.value.tag == BoolOption(b["tag"]).value
          && r.value.tagName == b["tag_name"] && r.value.parse == b["parse"]
          && r.value.serialize == Split(b["serialize"], '\n')
          && r.value.search == b["search"] && r.value.replace == b["replace"] && r.value.message == b["message"])
    {
      if !fileExists {
        return Failure(InvalidConfigPath(filePath));
      }
      var defaults := map["bumpv" := DefaultBumpv];
      assert OrderMatches(defaults, ["bumpv"]);
      OverlayKeeps(defaults, ["bumpv"], parsed);
      var (sections, order) := Overlay(defaults, ["bumpv"], parsed);
      var b := sections["bumpv"];
      var commit := BoolOption(b["commit"]);
      if commit.Failure? {
        return Failure(commit.error);
      }
      var tag := BoolOption(b["tag"]);
      if tag.Failure? {
        return Failure(tag.error);
      }
      var c := new Configuration(
        filePath, sections, order, b["current_version"], commit.value, tag.value, b["tag_name"],
        b["parse"], Split(b["serialize"], '\n'), b["search"], b["replace"], b["message"]);
      return Success(c);
    }

    /** `get_section(key)`: KeyError when there is no such section. */
    function GetSection(key: string): (r: Result<map<string, string>, ConfigError>)
      reads this
      ensures r.Success? <==> key in sections
      ensures r.Success? ==> r.value == sections[key]
      ensures r.Failure? ==> r.error == KeyError(key)
    {
      if key in sections then Success(sections[key]) else Failure(KeyError(key))
    }

    /** `get_raw_section_option(key, option)`: "" for a missing option,
        OptionNotFound for a missing section. */
    function GetRawSectionOption(key: string, option: string): (r: Result<string, ConfigError>)
      reads this
      ensures r.Failure? <==> key !in sections
      ensures r.Failure? ==> r.error == OptionNotFound(key, option)
      ensures r.Success? ==> r.value == if option in sections[key] then sections[key][option] else ""
    {
      if key !in sections then Failure(OptionNotFound(key, option))
      else Success(if option in sections[key] then sections[key][option] else "")
    }

    /** `get_file_section(path)`. */
    function GetFileSection(path: string): (r: Result<map<string, string>, ConfigError>)
      reads this
      ensures r == GetSection(FileSectionPrefix + path)
    {
      GetSection(FileSectionPrefix + path)
    }

    /** `get_part_section(part)` as written: it looks under the FILE prefix. */
    function GetPartSection(part: string): (r: Result<map<string, string>, ConfigError>)
      reads this
      ensures r == GetSection(FileSectionPrefix + part)
    {
      GetSection(FileSectionPrefix + part)
    }

    /** `get_part_section(part)` as evidently intended: the PART prefix. */
    function GetPartSectionIntended(part: string): (r: Result<map<string, string>, ConfigError>)
      reads this
      ensures r == GetSection(PartSectionPrefix + part)
    {
      GetSection(PartSectionPrefix + part)
    }

    /** `get_section_names(key)`: the loop over `sections()`. */
    method GetSectionNames(key: string) returns (r: Result<seq<string>, ConfigError>)
      ensures r == SectionNames(order, key)
    {
      var names: seq<string> := [];
      assert order[0..] == order;
      if SectionNames(order, key).Success? {
        assert [] + SectionNames(order, key).value == SectionNames(order, key).value;
      }
      for i := 0 to |order|
        invariant SectionNames(order, key) ==
          (var rest := SectionNames(order[i..], key); if rest.Failure? then rest else Success(names + rest.value))
      {
        assert order[i..][0] == order[i] && order[i..][1..] == order[i + 1..];
        var section := order[i];
        if section == "bumpv" {
          continue;
        }
        var parts := Split(section, ':');
        if |parts| != 3 {
          return Failure(BadSectionName(section));
        }
        if parts[1] == key {
          if SectionNames(order[i + 1..], key).Success? {
            var rest := SectionNames(order[i + 1..], key).value;
            assert names + ([parts[2]] + rest) == (names + [parts[2]]) + rest;
          }
          names := names + [parts[2]];
        }
      }
      assert order[|order|..] == [];
      assert names + [] == names;
      return Success(names);
    }

    /** `files()`. */
    method Files() returns (r: Result<seq<string>, ConfigError>)
      ensures r == SectionNames(order, "file")
    {
      r := GetSectionNames("file");
    }

    /** `parts()`. */
    method Parts() returns (r: Result<seq<string>, ConfigError>)
      ensures r == SectionNames(order, "part")
    {
      r := GetSectionNames("part");
    }

    /** `set_value(key, option, value)`: exactly one option of one existing section
        changes; a missing section is KeyError and changes nothing. */
    method SetValue(key: string, option: string, value: string) returns (r: Option<ConfigError>)
      modifies this
      ensures order == old(order)
      ensures key !in old(sections) ==> r == Some(KeyError(key)) && sections == old(sections)
      ensures key in old(sections) ==> r == None && sections == old(sections)[key := old(sections)[key][option := value]]
      ensures key in old(sections) ==> GetRawSectionOption(key, option) == Success(value)
      ensures forall k, o :: k != key || o != option ==> GetRawSectionOption(k, o) == old(GetRawSectionOption(k, o))
    {
      if key !in sections {
        return Some(KeyError(key));
      }
      sections := sections[key := sections[key][option := value]];
      return None;
    }

    // -------------------------------------------------------------------------
    // The part-section lookup

    /** Every part section that `parts()` lists from a section `bumpv:part:<name>`
        is missed by `get_part_section` as written unless a file section of the same
        name happens to exist. */
    lemma PartSectionMissed(part: string)
      requires ':' !in part
      requires PartSectionPrefix + part in sections && FileSectionPrefix + part !in sections
      ensures Names(PartSectionPrefix + part, "part", part)
      ensures GetPartSection(part) == Failure(KeyError(FileSectionPrefix + part))
      ensures GetPartSectionIntended(part) == Success(sections[PartSectionPrefix + part])
    {
      SplitPrefixed("part", part);
      assert PartSectionPrefix + part == "bumpv:" + "part" + ":" + part;
    }

    /** The corrected lookup finds the section of every part listed from a section
        whose first part is `bumpv`. */
    lemma PartSectionFound(i: nat, part: string)
      requires i < |order| && order[i] in sections
      requires Split(order[i], ':') == ["bumpv", "part", part]
      ensures GetPartSectionIntended(part) == Success(sections[order[i]])
    {
      JoinPrefixed(order[i], "part", part);
      assert "bumpv:" + "part" + ":" + part == PartSectionPrefix + part;
    }
  }
}
