/** Serialization of a parsed version (bumpv/client/versioning/version_config.py):
    which parts a format must show, whether a format shows them, which format of the
    configured list is chosen, and the rendering of that choice. The parse regex is
    not modelled: `Parse` receives the outcome of matching it. */
module VersionConfig {
  import opened Wrappers
  import opened Template

  /** A part of a parsed version: its text and whether it holds the part's optional
      value (which a format may leave out). */
  datatype VersionPart = VersionPart(value: string, optional: bool)

  /** A parsed version: one part per named group and the text it was parsed from. */
  datatype ParsedVersion = ParsedVersion(parts: map<string, VersionPart>, original: string)

  /** An entry of the namespace a format is rendered in. */
  datatype Entry = Part(part: VersionPart) | Extra(text: string)

  /** The serialization settings: candidate formats, most complete first, and the
      search and replace templates of the files. */
  datatype Config = Config(serializeFormats: seq<Format>, search: Format, replace: Format)

  datatype SerializeError =
    | MissingValue(key: string)  // MissingValueForSerializationException
    | PositionalArgument         // IndexError raised by a positional field
    | KeyError(key: string)      // a label of the first format has no value
    | Incomplete                 // IncompleteVersionRepresentationException
    | NoSuitableFormat           // KeyError("Did not find suitable serialization format")

  // ---------------------------------------------------------------------------
  // Part order and parsing

  /** `order()`: the labels of the first format, which is taken to be the most complete. */
  function Order(formats: seq<Format>): (r: seq<string>)
    requires |formats| > 0
    ensures forall k :: k in r <==> k != [] && Field(k) in formats[0]
  {
    forall k ensures k in Labels(formats[0]) <==> k != [] && Field(k) in formats[0] {
      LabelsIff(formats[0], k);
    }
    Labels(formats[0])
  }

  /** `parse(version_string)` given the match of the parse pattern (None when it does
      not match, else the named groups, a group that took part in no match being None).
      `makePart` stands for constructing a VersionPart from a group's text and the
      part's configuration, if any. */
  function Parse<C>(
    groups: Option<map<string, Option<string>>>,
    versionString: string,
    partConfigs: map<string, C>,
    makePart: (Option<string>, Option<C>) -> VersionPart): (r: Option<ParsedVersion>)
    ensures r.None? <==> groups.None?
    ensures r.Some? ==> r.value.original == versionString && r.value.parts.Keys == groups.value.Keys
    ensures r.Some? ==> forall k :: k in r.value.parts ==>
      r.value.parts[k] == makePart(groups.value[k], if k in partConfigs then Some(partConfigs[k]) else None)
  {
    match groups
    case None => None
    case Some(g) =>
      Some(ParsedVersion(
        map k | k in g :: makePart(g[k], if k in partConfigs then Some(partConfigs[k]) else None),
        versionString))
  }

  // ---------------------------------------------------------------------------
  // The namespace: the context overlaid with the version's parts

  /** The values a format is rendered with: every context entry, except that a part of
      the version replaces the context entry of the same name. */
  function Namespace(version: ParsedVersion, context: map<string, string>): (ns: map<string, Entry>)
    ensures ns.Keys == version.parts.Keys + context.Keys
    ensures forall k :: k in version.parts ==> ns[k] == Part(version.parts[k])
    ensures forall k :: k in context && k !in version.parts ==> ns[k] == Extra(context[k])
  {
    (map k | k in context :: Extra(context[k])) + (map k | k in version.parts :: Part(version.parts[k]))
  }

  /** `values = context.copy(); for k in version: values[k] = version[k]`. */
  method MergeValues(version: ParsedVersion, context: map<string, string>) returns (values: map<string, Entry>)
    ensures values.Keys == version.parts.Keys + context.Keys
    ensures forall k :: k in version.parts ==> values[k] == Part(version.parts[k])
    ensures forall k :: k in context && k !in version.parts ==> values[k] == Extra(context[k])
  {
    values := map k | k in context :: Extra(context[k]);
    var pending := version.parts.Keys;
    while pending != {}
      invariant pending <= version.parts.Keys
      invariant values.Keys == (version.parts.Keys - pending) + context.Keys
      invariant forall k :: k in version.parts && k !in pending ==> values[k] == Part(version.parts[k])
      invariant forall k :: k in context && (k !in version.parts || k in pending) ==> values[k] == Extra(context[k])
      decreases pending
    {
      var k :| k in pending;
      values := values[k := Part(version.parts[k])];
      pending := pending - {k};
    }
  }

  /** The text each entry renders as. */
  function Texts(ns: map<string, Entry>): (r: map<string, string>)
    ensures r.Keys == ns.Keys
  {
    map k | k in ns :: match ns[k] case Part(p) => p.value case Extra(t) => t
  }

  // ---------------------------------------------------------------------------
  // Parts that a format must represent

  /** A part that is not at its optional value. */
  predicate NonOptionalAt(order: seq<string>, ns: map<string, Entry>, j: int)
    requires 0 <= j < |order|
  {
    order[j] in ns && ns[order[j]].Part? && !ns[order[j]].part.optional
  }

  /** The parts that must be represented, scanning `order` with the flag `found` telling
      whether a non-optional part has been seen already; an order name without a value
      raises KeyError. */
  function RequiredFrom(order: seq<string>, ns: map<string, Entry>, found: bool): Result<set<string>, SerializeError>
    decreases |order|
  {
    if order == [] then Success({})
    else
      var k := order[0];
      if k !in ns then Failure(KeyError(k))
      else
        var rest := RequiredFrom(order[1..], ns, found || NonOptionalAt(order, ns, 0));
        if rest.Failure? then rest
        else if ns[k].Part? && (!ns[k].part.optional || !found) then Success({k} + rest.value)
        else rest
  }

  /** `keys_needing_representation`. */
  function RequiredKeys(order: seq<string>, ns: map<string, Entry>): Result<set<string>, SerializeError> {
    RequiredFrom(order, ns, false)
  }

  /** `k` is a part (not a context value) at position `i` of the order that is either
      non-optional or comes before every non-optional part. */
  ghost predicate RequiredAt(order: seq<string>, ns: map<string, Entry>, found: bool, k: string, i: int) {
    && 0 <= i < |order| && order[i] == k && k in ns && ns[k].Part?
    && (!ns[k].part.optional || (!found && forall j :: 0 <= j < i ==> !NonOptionalAt(order, ns, j)))
  }

  lemma NonOptionalShift(order: seq<string>, ns: map<string, Entry>, j: int)
    requires 1 <= j < |order|
    ensures NonOptionalAt(order, ns, j) == NonOptionalAt(order[1..], ns, j - 1)
  {
    assert order[j] == order[1..][j - 1];
  }

  lemma {:induction false} RequiredFromIff(order: seq<string>, ns: map<string, Entry>, found: bool, k: string)
    requires forall i :: 0 <= i < |order| ==> order[i] in ns
    ensures RequiredFrom(order, ns, found).Success?
    ensures k in RequiredFrom(order, ns, found).value <==> exists i :: RequiredAt(order, ns, found, k, i)
    decreases |order|
  {
    if order != [] {
      var found' := found || NonOptionalAt(order, ns, 0);
      forall i | 0 <= i < |order[1..]| ensures order[1..][i] in ns {
        assert order[1..][i] == order[i + 1];
      }
      RequiredFromIff(order[1..], ns, found', k);
      var rest := RequiredFrom(order[1..], ns, found').value;
      if k in RequiredFrom(order, ns, found).value {
        if k == order[0] && ns[k].Part? && (!ns[k].part.optional || !found) {
          assert RequiredAt(order, ns, found, k, 0);
        } else {
          assert k in rest;
          var i :| RequiredAt(order[1..], ns, found', k, i);
          if ns[k].part.optional {
            forall j | 0 <= j < i + 1 ensures !NonOptionalAt(order, ns, j) {
              if j > 0 {
                NonOptionalShift(order, ns, j);
              }
            }
          }
          assert RequiredAt(order, ns, found, k, i + 1);
        }
      }
      if exists i :: RequiredAt(order, ns, found, k, i) {
        var i :| RequiredAt(order, ns, found, k, i);
        if i > 0 {
          if ns[k].part.optional {
            forall j | 0 <= j < i - 1 ensures !NonOptionalAt(order[1..], ns, j) {
              NonOptionalShift(order, ns, j + 1);
            }
          }
          assert RequiredAt(order[1..], ns, found', k, i - 1);
        }
      }
    }
  }

  /** The parts a format must show are the parts that are not optional, plus the
      optional parts ordered before the first non-optional one; context values are
      never required. */
  lemma RequiredKeysIff(order: seq<string>, ns: map<string, Entry>, k: string)
    requires forall i :: 0 <= i < |order| ==> order[i] in ns
    ensures RequiredKeys(order, ns).Success?
    ensures k in RequiredKeys(order, ns).value <==>
      exists i :: 0 <= i < |order| && order[i] == k && ns[k].Part?
        && (!ns[k].part.optional || forall j :: 0 <= j < i ==> !NonOptionalAt(order, ns, j))
  {
    RequiredFromIff(order, ns, false, k);
    if exists i :: RequiredAt(order, ns, false, k, i) {
      var i :| RequiredAt(order, ns, false, k, i);
      assert order[i] == k && ns[k].Part?;
    }
    if exists i :: 0 <= i < |order| && order[i] == k && ns[k].Part?
        && (!ns[k].part.optional || forall j :: 0 <= j < i ==> !NonOptionalAt(order, ns, j)) {
      var i :| 0 <= i < |order| && order[i] == k && ns[k].Part?
        && (!ns[k].part.optional || forall j :: 0 <= j < i ==> !NonOptionalAt(order, ns, j));
      assert RequiredAt(order, ns, false, k, i);
    }
  }

  /** The error of a failed scan, or the scan's set with `acc` added. */
  function WithAcc(acc: set<string>, r: Result<set<string>, SerializeError>): Result<set<string>, SerializeError> {
    if r.Failure? then r else Success(acc + r.value)
  }

  lemma WithAccEmpty(r: Result<set<string>, SerializeError>)
    ensures WithAcc({}, r) == r
  {
    if r.Success? {
      assert {} + r.value == r.value;
    }
  }

  /** One step of the scan: the part at position `i` joins the accumulated set when it
      is non-optional or no non-optional part has been seen yet. */
  lemma RequiredStep(order: seq<string>, ns: map<string, Entry>, i: nat, found: bool, acc: set<string>)
    requires i < |order| && order[i] in ns
    ensures var v := ns[order[i]];
      WithAcc(acc, RequiredFrom(order[i..], ns, found))
      == WithAcc(if v.Part? && (!v.part.optional || !found) then acc + {order[i]} else acc,
                 RequiredFrom(order[i + 1..], ns, found || (v.Part? && !v.part.optional)))
  {
    var k := order[i];
    assert order[i..][0] == k && order[i..][1..] == order[i + 1..];
    var rest := RequiredFrom(order[i + 1..], ns, found || NonOptionalAt(order[i..], ns, 0));
    if rest.Success? && ns[k].Part? && (!ns[k].part.optional || !found) {
      assert acc + ({k} + rest.value) == (acc + {k}) + rest.value;
    }
  }

  /** `set(labels) >= keys_needing_representation`. */
  predicate Represents(f: Format, required: set<string>) {
    forall k :: k in required ==> k in Labels(f)
  }

  function FromFormatError(e: FormatError): SerializeError {
    match e
    case MissingKey(k) => MissingValue(k)
    case PositionalIndex => PositionalArgument
  }

  // ---------------------------------------------------------------------------
  // Serializing with one format

  /** `_serialize(version, serialize_format, context, raise_if_incomplete)`. */
  function SerializeWith(
    version: ParsedVersion, f: Format, context: map<string, string>,
    formats: seq<Format>, raiseIfIncomplete: bool): Result<string, SerializeError>
    requires |formats| > 0
  {
    var ns := Namespace(version, context);
    var rendered := Render(f, Texts(ns));
    if rendered.Failure? then Failure(FromFormatError(rendered.error))
    else
      var required := RequiredKeys(Order(formats), ns);
      if required.Failure? then Failure(required.error)
      else if raiseIfIncomplete && !Represents(f, required.value) then Failure(Incomplete)
      else Success(rendered.value)
  }

  method SerializeFormat(
    version: ParsedVersion, f: Format, context: map<string, string>,
    formats: seq<Format>, raiseIfIncomplete: bool) returns (r: Result<string, SerializeError>)
    requires |formats| > 0
    ensures r == SerializeWith(version, f, context, formats, raiseIfIncomplete)
  {
    var values := MergeValues(version, context);
    assert values == Namespace(version, context);
    var rendered := Render(f, Texts(values));
    if rendered.Failure? {
      return Failure(FromFormatError(rendered.error));
    }
    var order := Order(formats);
    var keysNeedingRepresentation: set<string> := {};
    var foundRequired := false;
    assert order[0..] == order;
    WithAccEmpty(RequiredFrom(order, values, false));
    for i := 0 to |order|
      invariant WithAcc(keysNeedingRepresentation, RequiredFrom(order[i..], values, foundRequired))
             == RequiredKeys(order, values)
    {
      var k := order[i];
      if k !in values {
        assert order[i..][0] == k;
        return Failure(KeyError(k));
      }
      RequiredStep(order, values, i, foundRequired, keysNeedingRepresentation);
      var v := values[k];
      if !v.Part? {
        continue;
      }
      if !v.part.optional {
        foundRequired := true;
        keysNeedingRepresentation := keysNeedingRepresentation + {k};
      } else if !foundRequired {
        keysNeedingRepresentation := keysNeedingRepresentation + {k};
      }
    }
    if raiseIfIncomplete && !Represents(f, keysNeedingRepresentation) {
      return Failure(Incomplete);
    }
    return Success(rendered.value);
  }

  // ---------------------------------------------------------------------------
  // Choosing the format

  /** Python's truth value of `chosen`: None and "" are false. */
  predicate Truthy(chosen: Option<Format>) {
    chosen.Some? && Text(chosen.value) != []
  }

  /** What `_serialize(version, f, context, raise_if_incomplete=True)` gives for each
      format `f`, in order. */
  function Attempts(version: ParsedVersion, context: map<string, string>, formats: seq<Format>)
    : (r: seq<Result<string, SerializeError>>)
    ensures |r| == |formats|
    ensures forall j :: 0 <= j < |formats| ==> r[j] == SerializeWith(version, formats[j], context, formats, true)
  {
    seq(|formats|, j requires 0 <= j < |formats| => SerializeWith(version, formats[j], context, formats, true))
  }

  /** The selection loop from position `i` on, given the attempts, with `chosen`
      picked so far. */
  function ChooseFrom(
    attempts: seq<Result<string, SerializeError>>, formats: seq<Format>,
    i: nat, chosen: Option<Format>): (r: Result<Format, SerializeError>)
    requires |attempts| == |formats| && i <= |formats|
    requires chosen.Some? ==> chosen.value in formats
    ensures r.Success? ==> r.value in formats
    decreases |formats| - i
  {
    if i == |formats| then
      if Truthy(chosen) then Success(chosen.value) else Failure(NoSuitableFormat)
    else if attempts[i].Success? then ChooseFrom(attempts, formats, i + 1, Some(formats[i]))
    else if attempts[i].error == Incomplete then
      ChooseFrom(attempts, formats, i + 1, if Truthy(chosen) then chosen else Some(formats[i]))
    else Failure(attempts[i].error)
  }

  /** `_choose_serialize_format(version, context)`. */
  function ChooseFormat(version: ParsedVersion, context: map<string, string>, formats: seq<Format>): Result<Format, SerializeError> {
    ChooseFrom(Attempts(version, context, formats), formats, 0, None)
  }

  method ChooseSerializeFormat(version: ParsedVersion, context: map<string, string>, formats: seq<Format>)
    returns (r: Result<Format, SerializeError>)
    ensures r == ChooseFormat(version, context, formats)
    ensures r.Success? ==> r.value in formats
  {
    ghost var attempts := Attempts(version, context, formats);
    var chosen: Option<Format> := None;
    for i := 0 to |formats|
      invariant chosen.Some? ==> chosen.value in formats
      invariant ChooseFrom(attempts, formats, i, chosen) == ChooseFormat(version, context, formats)
    {
      var f := formats[i];
      var attempt := SerializeFormat(version, f, context, formats, true);
      assert attempt == attempts[i];
      if attempt.Success? {
        chosen := Some(f);
      } else if attempt.error == Incomplete {
        if !Truthy(chosen) {
          chosen := Some(f);
        }
      } else {
        return Failure(attempt.error);
      }
    }
    if !Truthy(chosen) {
      return Failure(NoSuitableFormat);
    }
    return Success(chosen.value);
  }

  /** `serialize(version, context)`: the chosen format, rendered. */
  function SerializeSpec(version: ParsedVersion, context: map<string, string>, formats: seq<Format>): Result<string, SerializeError> {
    var chosen := ChooseFormat(version, context, formats);
    if chosen.Failure? then Failure(chosen.error)
    else SerializeWith(version, chosen.value, context, formats, false)
  }

  method Serialize(version: ParsedVersion, context: map<string, string>, formats: seq<Format>)
    returns (r: Result<string, SerializeError>)
    ensures r == SerializeSpec(version, context, formats)
  {
    var chosen := ChooseSerializeFormat(version, context, formats);
    if chosen.Failure? {
      return Failure(chosen.error);
    }
    r := SerializeFormat(version, chosen.value, context, formats, false);
  }

  // ---------------------------------------------------------------------------
  // What the selection picks

  /** The last successful attempt among positions lo .. hi-1, if any. */
  ghost function LastComplete(attempts: seq<Result<string, SerializeError>>, lo: nat, hi: nat): (r: Option<nat>)
    requires lo <= hi <= |attempts|
    ensures r.Some? ==> lo <= r.value < hi && attempts[r.value].Success?
    ensures r.Some? ==> forall j :: r.value < j < hi ==> !attempts[j].Success?
    ensures r.None? ==> forall j :: lo <= j < hi ==> !attempts[j].Success?
    decreases hi - lo
  {
    if lo == hi then None
    else if attempts[hi - 1].Success? then Some(hi - 1)
    else LastComplete(attempts, lo, hi - 1)
  }

  lemma {:induction false} LastCompleteFrom(attempts: seq<Result<string, SerializeError>>, lo: nat, hi: nat)
    requires lo < hi <= |attempts|
    ensures LastComplete(attempts, lo, hi) ==
      if LastComplete(attempts, lo + 1, hi).Some? then LastComplete(attempts, lo + 1, hi)
      else if attempts[lo].Success? then Some(lo)
      else None
    decreases hi - lo
  {
    if lo + 1 < hi && !attempts[hi - 1].Success? {
      LastCompleteFrom(attempts, lo, hi - 1);
    }
  }

  /** From position `i` on, with only complete and incomplete formats ahead and a
      non-empty format chosen so far, the selection ends with the last complete format
      still ahead, or keeps what was chosen. */
  lemma {:induction false} ChooseFromTail(
    attempts: seq<Result<string, SerializeError>>, formats: seq<Format>, i: nat, c: Format)
    requires |attempts| == |formats| && i <= |formats| && c in formats && Text(c) != []
    requires forall j :: 0 <= j < |formats| ==> Text(formats[j]) != []
    requires forall j :: 0 <= j < |formats| ==> attempts[j].Success? || attempts[j].error == Incomplete
    ensures ChooseFrom(attempts, formats, i, Some(c)) ==
      Success(match LastComplete(attempts, i, |formats|)
              case Some(j) => formats[j]
              case None => c)
    decreases |formats| - i
  {
    var n := |formats|;
    if i < n {
      LastCompleteFrom(attempts, i, n);
      var c' := if attempts[i].Success? then formats[i] else c;
      assert ChooseFrom(attempts, formats, i, Some(c)) == ChooseFrom(attempts, formats, i + 1, Some(c'));
      ChooseFromTail(attempts, formats, i + 1, c');
    }
  }

  /** With non-empty formats none of which raises, the selection returns the LAST format
      that represents the version completely, or the first format when none does; an
      empty list raises KeyError. */
  lemma ChooseLastComplete(version: ParsedVersion, context: map<string, string>, formats: seq<Format>)
    requires forall j :: 0 <= j < |formats| ==> Text(formats[j]) != []
    requires var a := Attempts(version, context, formats);
      forall j :: 0 <= j < |formats| ==> a[j].Success? || a[j].error == Incomplete
    ensures |formats| == 0 ==> ChooseFormat(version, context, formats) == Failure(NoSuitableFormat)
    ensures var a := Attempts(version, context, formats);
      |formats| > 0 ==> (
      || (exists i :: 0 <= i < |formats| && a[i].Success? && (forall j :: i < j < |formats| ==> !a[j].Success?)
            && ChooseFormat(version, context, formats) == Success(formats[i]))
      || ((forall i :: 0 <= i < |formats| ==> !a[i].Success?)
            && ChooseFormat(version, context, formats) == Success(formats[0])))
  {
    ChooseFromLast(Attempts(version, context, formats), formats);
  }

  /** The selection over given attempts, none of which raises: the last complete
      format, or the first format when none is complete. */
  lemma ChooseFromLast(attempts: seq<Result<string, SerializeError>>, formats: seq<Format>)
    requires |attempts| == |formats|
    requires forall j :: 0 <= j < |formats| ==> Text(formats[j]) != []
    requires forall j :: 0 <= j < |formats| ==> attempts[j].Success? || attempts[j].error == Incomplete
    ensures |formats| == 0 ==> ChooseFrom(attempts, formats, 0, None) == Failure(NoSuitableFormat)
    ensures |formats| > 0 ==> (
      || (exists i :: 0 <= i < |formats| && attempts[i].Success?
            && (forall j :: i < j < |formats| ==> !attempts[j].Success?)
            && ChooseFrom(attempts, formats, 0, None) == Success(formats[i]))
      || ((forall i :: 0 <= i < |formats| ==> !attempts[i].Success?)
            && ChooseFrom(attempts, formats, 0, None) == Success(formats[0])))
  {
    var n := |formats|;
    if n > 0 {
      var c := formats[0];
      assert ChooseFrom(attempts, formats, 0, None) == ChooseFrom(attempts, formats, 1, Some(c));
      ChooseFromTail(attempts, formats, 1, c);
      LastCompleteFrom(attempts, 0, n);
      var last := LastComplete(attempts, 0, n);
      if last.Some? {
        var i := last.value;
        assert attempts[i].Success? && (forall j :: i < j < n ==> !attempts[j].Success?)
          && ChooseFrom(attempts, formats, 0, None) == Success(formats[i]);
      }
    }
  }

  /** The first position from `k` on whose format string is not "", if any. */
  function FirstNonEmpty(formats: seq<Format>, k: nat): (r: Option<nat>)
    requires k <= |formats|
    ensures r.Some? ==> k <= r.value < |formats| && Text(formats[r.value]) != []
    ensures r.Some? ==> forall j :: k <= j < r.value ==> Text(formats[j]) == []
    ensures r.None? ==> forall j :: k <= j < |formats| ==> Text(formats[j]) == []
    decreases |formats| - k
  {
    if k == |formats| then None
    else if Text(formats[k]) != [] then Some(k)
    else FirstNonEmpty(formats, k + 1)
  }

  /** The format the selection settles on when it starts looking at position `k`:
      the first one from there on that Python finds true, or KeyError when every
      format from there on is "". */
  function PickFrom(formats: seq<Format>, k: nat): Result<Format, SerializeError>
    requires k <= |formats|
  {
    match FirstNonEmpty(formats, k)
    case Some(m) => Success(formats[m])
    case None => Failure(NoSuitableFormat)
  }

  /** From position `i` on, with no format ahead that raises, whatever the formats'
      strings: after the last complete format still ahead, the selection keeps that
      format if it is not "" and otherwise the first later format that is not "";
      with no complete format ahead it keeps a true `chosen`, or else takes the first
      format ahead that is not "". */
  lemma {:induction false} ChooseFromAnyTail(
    attempts: seq<Result<string, SerializeError>>, formats: seq<Format>, i: nat, chosen: Option<Format>)
    requires |attempts| == |formats| && i <= |formats|
    requires chosen.Some? ==> chosen.value in formats
    requires forall j :: i <= j < |formats| ==> attempts[j].Success? || attempts[j].error == Incomplete
    ensures ChooseFrom(attempts, formats, i, chosen) ==
      match LastComplete(attempts, i, |formats|)
      case Some(j) => PickFrom(formats, j)
      case None => if Truthy(chosen) then Success(chosen.value) else PickFrom(formats, i)
    decreases |formats| - i
  {
    var n := |formats|;
    if i < n {
      LastCompleteFrom(attempts, i, n);
      var next := if attempts[i].Success? || !Truthy(chosen) then Some(formats[i]) else chosen;
      assert ChooseFrom(attempts, formats, i, chosen) == ChooseFrom(attempts, formats, i + 1, next);
      ChooseFromAnyTail(attempts, formats, i + 1, next);
      assert PickFrom(formats, i) == if Text(formats[i]) != [] then Success(formats[i]) else PickFrom(formats, i + 1);
    }
  }

  /** The selection over attempts none of which raises, for any format strings:
      it starts at the last complete format (the first format when none is complete)
      and returns the first format from there on that is not "", or raises KeyError
      when there is none, so an empty list raises it too. */
  lemma ChooseFromAny(attempts: seq<Result<string, SerializeError>>, formats: seq<Format>)
    requires |attempts| == |formats|
    requires forall j :: 0 <= j < |formats| ==> attempts[j].Success? || attempts[j].error == Incomplete
    ensures ChooseFrom(attempts, formats, 0, None) ==
      match LastComplete(attempts, 0, |formats|)
      case Some(j) => PickFrom(formats, j)
      case None => PickFrom(formats, 0)
  {
    ChooseFromAnyTail(attempts, formats, 0, None);
  }

  /** With an empty order no part needs representing: raising on an incomplete format
      changes nothing, so no format is incomplete. */
  lemma EmptyOrderNeverIncomplete(
    version: ParsedVersion, f: Format, context: map<string, string>, formats: seq<Format>)
    requires |formats| > 0 && Order(formats) == []
    ensures SerializeWith(version, f, context, formats, true) == SerializeWith(version, f, context, formats, false)
    ensures SerializeWith(version, f, context, formats, true) != Failure(Incomplete)
  {
    assert RequiredKeys([], Namespace(version, context)) == Success({});
  }

  /** A first format "" (what a serialize option starting with a newline gives) has no
      labels, so no part needs representing and every format that renders is complete:
      the selection is the last format, when that one is not "". */
  lemma LeadingEmptyFormatChoosesLast(version: ParsedVersion, context: map<string, string>, formats: seq<Format>)
    requires |formats| > 0 && Text(formats[0]) == [] && Text(formats[|formats| - 1]) != []
    requires var a := Attempts(version, context, formats);
      forall j :: 0 <= j < |formats| ==> a[j].Success? || a[j].error == Incomplete
    ensures var a := Attempts(version, context, formats);
      forall j :: 0 <= j < |formats| ==> a[j].Success?
    ensures ChooseFormat(version, context, formats) == Success(formats[|formats| - 1])
  {
    var a := Attempts(version, context, formats);
    var n := |formats|;
    EmptyTextNoLabels(formats[0]);
    forall j | 0 <= j < n ensures a[j].Success? {
      EmptyOrderNeverIncomplete(version, formats[j], context, formats);
    }
    ChooseFromAny(a, formats);
    assert LastComplete(a, 0, n) == Some(n - 1);
    assert FirstNonEmpty(formats, n - 1) == Some(n - 1);
  }

  lemma {:induction false} ChooseFromRaises(
    attempts: seq<Result<string, SerializeError>>, formats: seq<Format>, s: nat, chosen: Option<Format>, i: nat)
    requires |attempts| == |formats| && s <= i < |formats|
    requires attempts[i].Failure? && attempts[i].error != Incomplete
    requires chosen.Some? ==> chosen.value in formats
    ensures ChooseFrom(attempts, formats, s, chosen).Failure?
    decreases i - s
  {
    if s < i && (attempts[s].Success? || attempts[s].error == Incomplete) {
      if attempts[s].Success? {
        ChooseFromRaises(attempts, formats, s + 1, Some(formats[s]), i);
      } else {
        ChooseFromRaises(attempts, formats, s + 1, if Truthy(chosen) then chosen else Some(formats[s]), i);
      }
    }
  }

  /** A format anywhere in the list with a label that neither the version nor the
      context can fill makes `serialize` raise: no later or earlier format rescues it. */
  lemma SerializeAbortsOnUnfillable(version: ParsedVersion, context: map<string, string>, formats: seq<Format>, i: nat)
    requires i < |formats| && Render(formats[i], Texts(Namespace(version, context))).Failure?
    ensures ChooseFormat(version, context, formats).Failure?
    ensures SerializeSpec(version, context, formats).Failure?
  {
    var attempts := Attempts(version, context, formats);
    assert attempts[i] == SerializeWith(version, formats[i], context, formats, true);
    ChooseFromRaises(attempts, formats, 0, None, i);
  }

  // The three-part example: version 1.0.0 after a major bump, minor and patch at their
  // optional value 0, with formats `Version: {major}.{minor}.{patch}`,
  // `Version: {major}.{minor}` and `Version: {major}`.

  /** The bumped version was not parsed from any text, so its original text is empty;
      serializing never reads it. */
  function ExampleVersion(): ParsedVersion {
    ParsedVersion(
      map["major" := VersionPart("1", false), "minor" := VersionPart("0", true), "patch" := VersionPart("0", true)],
      "")
  }

  function ExampleFormats(): seq<Format> {
    [[Lit("Version: "), Field("major"), Lit("."), Field("minor"), Lit("."), Field("patch")],
     [Lit("Version: "), Field("major"), Lit("."), Field("minor")],
     [Lit("Version: "), Field("major")]]
  }

  lemma ExampleOrder()
    ensures Order(ExampleFormats()) == ["major", "minor", "patch"]
  {
    var f := ExampleFormats()[0];
    assert f[1..] == [Field("major"), Lit("."), Field("minor"), Lit("."), Field("patch")];
    assert Labels(f[5..]) == ["patch"];
    assert Labels(f[3..]) == ["minor", "patch"];
    assert Labels(f) == ["major", "minor", "patch"];
  }

  lemma ExampleNamespace()
    ensures Namespace(ExampleVersion(), map[])
         == map["major" := Part(VersionPart("1", false)), "minor" := Part(VersionPart("0", true)),
                "patch" := Part(VersionPart("0", true))]
  {
  }

  lemma ExampleRequired()
    ensures RequiredKeys(Order(ExampleFormats()), Namespace(ExampleVersion(), map[])) == Success({"major"})
  {
    ExampleOrder();
    ExampleNamespace();
    var ns := Namespace(ExampleVersion(), map[]);
    var order: seq<string> := ["major", "minor", "patch"];
    assert order[1..] == ["minor", "patch"] && order[1..][1..] == ["patch"];
    assert RequiredFrom(["patch"], ns, true) == Success({});
    assert RequiredFrom(["minor", "patch"], ns, true) == Success({});
    assert NonOptionalAt(order, ns, 0);
    assert {"major"} + {} == {"major"};
  }

  lemma ExampleTexts()
    ensures Texts(Namespace(ExampleVersion(), map[])) == ExampleValues()
  {
    ExampleNamespace();
    var t := Texts(Namespace(ExampleVersion(), map[]));
    assert t.Keys == {"major", "minor", "patch"};
    assert t["major"] == "1" && t["minor"] == "0" && t["patch"] == "0";
  }

  function ExampleValues(): map<string, string> {
    map["major" := "1", "minor" := "0", "patch" := "0"]
  }

  lemma ExampleFieldsNamed()
    ensures !IsPositional("major") && !IsPositional("minor") && !IsPositional("patch")
  {
    assert "major"[0] == 'm' && "minor"[0] == 'm' && "patch"[0] == 'p';
  }

  lemma ExampleRendersMajor()
    ensures Render(ExampleFormats()[2], ExampleValues()) == Success("Version: 1")
  {
    ExampleFieldsNamed();
    var j: Format := [Field("major")];
    assert j[1..] == [];
    assert "1" + "" == "1";
    assert Render(j, ExampleValues()) == Success("1");
    assert ExampleFormats()[2] == [Lit("Version: ")] + j;
    assert ExampleFormats()[2][1..] == j;
    assert "Version: " + "1" == "Version: 1";
  }

  lemma ExampleRendersMinor()
    ensures Render(ExampleFormats()[1], ExampleValues()) == Success("Version: 1.0")
  {
    ExampleFieldsNamed();
    var texts := ExampleValues();
    var m: Format := [Field("minor")];
    var dm: Format := [Lit(".")] + m;
    assert m[1..] == [] && dm[1..] == m && ([Field("major")] + dm)[1..] == dm;
    assert "0" + "" == "0" && "." + "0" == ".0" && "1" + ".0" == "1.0";
    assert Render(m, texts) == Success("0");
    assert Render(dm, texts) == Success(".0");
    assert Render([Field("major")] + dm, texts) == Success("1.0");
    assert ExampleFormats()[1] == [Lit("Version: ")] + ([Field("major")] + dm);
    assert ExampleFormats()[1][1..] == [Field("major")] + dm;
    assert "Version: " + "1.0" == "Version: 1.0";
  }

  /** `.{minor}.{patch}` renders as `.0.0`. */
  lemma ExampleRendersMinorPatch()
    ensures Render([Lit("."), Field("minor"), Lit("."), Field("patch")], ExampleValues()) == Success(".0.0")
  {
    ExampleFieldsNamed();
    var texts := ExampleValues();
    var p: Format := [Field("patch")];
    var dp: Format := [Lit(".")] + p;
    var mdp: Format := [Field("minor")] + dp;
    var dmdp: Format := [Lit(".")] + mdp;
    assert p[1..] == [] && dp[1..] == p && mdp[1..] == dp && dmdp[1..] == mdp;
    assert "0" + "" == "0" && "." + "0" == ".0" && "0" + ".0" == "0.0" && "." + "0.0" == ".0.0";
    assert Render(p, texts) == Success("0");
    assert Render(dp, texts) == Success(".0");
    assert Render(mdp, texts) == Success("0.0");
    assert dmdp == [Lit("."), Field("minor"), Lit("."), Field("patch")];
  }

  lemma ExampleRendersFull()
    ensures Render(ExampleFormats()[0], ExampleValues()) == Success("Version: 1.0.0")
  {
    ExampleFieldsNamed();
    ExampleRendersMinorPatch();
    var texts := ExampleValues();
    var dmdp: Format := [Lit("."), Field("minor"), Lit("."), Field("patch")];
    var full: Format := [Field("major")] + dmdp;
    assert full[1..] == dmdp;
    assert "1" + ".0.0" == "1.0.0";
    assert Render(full, texts) == Success("1.0.0");
    assert ExampleFormats()[0] == [Lit("Version: ")] + full;
    assert ExampleFormats()[0][1..] == full;
    assert "Version: " + "1.0.0" == "Version: 1.0.0";
  }

  lemma ExampleComplete(i: nat, raiseIfIncomplete: bool)
    requires i < 3
    ensures SerializeWith(ExampleVersion(), ExampleFormats()[i], map[], ExampleFormats(), raiseIfIncomplete)
         == Success(["Version: 1.0.0", "Version: 1.0", "Version: 1"][i])
  {
    var formats := ExampleFormats();
    var f := formats[i];
    var ns := Namespace(ExampleVersion(), map[]);
    var out := ["Version: 1.0.0", "Version: 1.0", "Version: 1"][i];
    ExampleTexts();
    if i == 0 {
      ExampleRendersFull();
    } else if i == 1 {
      ExampleRendersMinor();
    } else {
      ExampleRendersMajor();
    }
    assert Render(f, Texts(ns)) == Success(out);
    ExampleRequired();
    assert f[1] == Field("major");
    LabelsIff(f, "major");
    assert Represents(f, {"major"});
  }

  /** In the example every format is complete, so the last, `Version: {major}`, is
      written: the version reads `Version: 1`. */
  lemma ThreePartExample()
    ensures SerializeSpec(ExampleVersion(), map[], ExampleFormats()) == Success("Version: 1")
  {
    var v := ExampleVersion();
    var f := ExampleFormats();
    ExampleComplete(0, true);
    ExampleComplete(1, true);
    ExampleComplete(2, true);
    ExampleComplete(2, false);
    TextEmptyIff(f[2]);
    assert f[2][0] != Lit([]);
    assert Truthy(Some(f[2]));
    var attempts := Attempts(v, map[], f);
    assert ChooseFrom(attempts, f, 3, Some(f[2])) == Success(f[2]);
    assert ChooseFrom(attempts, f, 2, Some(f[1])) == Success(f[2]);
    assert ChooseFrom(attempts, f, 1, Some(f[0])) == Success(f[2]);
    assert ChooseFormat(v, map[], f) == Success(f[2]);
  }
}
