/** Format strings as `str.format` and `string.Formatter().parse` see them: literal
    text and replacement fields `{name}`. Format specs, conversions and `{{` escapes
    are not part of this model. */
module Template {
  import opened Wrappers

  datatype Token = Lit(text: string) | Field(name: string)

  type Format = seq<Token>

  /** The format string the tokens were read from. */
  function Text(f: Format): string
    decreases |f|
  {
    if f == [] then []
    else
      match f[0]
      case Lit(t) => t + Text(f[1..])
      case Field(n) => "{" + n + "}" + Text(f[1..])
  }

  /** The format string is "" (so Python treats it as false): only empty literals. */
  lemma {:induction false} TextEmptyIff(f: Format)
    ensures Text(f) == [] <==> forall i :: 0 <= i < |f| ==> f[i] == Lit([])
    decreases |f|
  {
    if f != [] {
      TextEmptyIff(f[1..]);
      if Text(f) == [] {
        assert f[0] == Lit([]);
      }
      if forall i :: 0 <= i < |f| ==> f[i] == Lit([]) {
        assert forall i :: 0 <= i < |f[1..]| ==> f[1..][i] == f[i + 1];
      }
    }
  }

  /** Field names `str.format` looks up positionally instead of by keyword. */
  predicate IsPositional(name: string) {
    forall i :: 0 <= i < |name| ==> '0' <= name[i] <= '9'
  }

  /** `_labels_for_format`: the names of the fields, skipping empty ones, in order. */
  function Labels(f: Format): (r: seq<string>)
    ensures forall i :: 0 <= i < |r| ==> r[i] != []
    decreases |f|
  {
    if f == [] then []
    else
      match f[0]
      case Field(n) => if n != [] then [n] + Labels(f[1..]) else Labels(f[1..])
      case Lit(_) => Labels(f[1..])
  }

  /** The labels are exactly the non-empty field names of the format. */
  lemma {:induction false} LabelsIff(f: Format, x: string)
    ensures x in Labels(f) <==> x != [] && Field(x) in f
    decreases |f|
  {
    if f != [] {
      LabelsIff(f[1..], x);
      assert f == [f[0]] + f[1..];
    }
  }

  /** A format string "" has no labels. */
  lemma {:induction false} EmptyTextNoLabels(f: Format)
    requires Text(f) == []
    ensures Labels(f) == []
    decreases |f|
  {
    if f != [] {
      assert f[0].Lit?;
      assert Text(f) == f[0].text + Text(f[1..]);
      EmptyTextNoLabels(f[1..]);
    }
  }

  /** Labels are read left to right: the labels of a concatenation are concatenated. */
  lemma {:induction false} LabelsAppend(f: Format, g: Format)
    ensures Labels(f + g) == Labels(f) + Labels(g)
    decreases |f|
  {
    if f == [] {
      assert f + g == g;
    } else {
      assert (f + g)[0] == f[0] && (f + g)[1..] == f[1..] + g;
      LabelsAppend(f[1..], g);
    }
  }

  /** Why `str.format(**values)` gave up. */
  datatype FormatError =
    | MissingKey(key: string)    // KeyError: no value for a named field
    | PositionalIndex            // IndexError: a field asks for a positional argument

  /** `str.format(**values)`: fields filled left to right; the first field that cannot
      be filled raises. */
  function Render(f: Format, values: map<string, string>): Result<string, FormatError>
    decreases |f|
  {
    if f == [] then Success([])
    else
      var rest := Render(f[1..], values);
      match f[0]
      case Lit(t) => if rest.Failure? then rest else Success(t + rest.value)
      case Field(n) =>
        if IsPositional(n) then Failure(PositionalIndex)
        else if n !in values then Failure(MissingKey(n))
        else if rest.Failure? then rest else Success(values[n] + rest.value)
  }

  /** A field `str.format` can fill from `values`. */
  predicate Fillable(t: Token, values: map<string, string>) {
    t.Field? ==> !IsPositional(t.name) && t.name in values
  }

  /** Rendering succeeds exactly when every field can be filled; otherwise the error
      names the first field, in order, that cannot. */
  lemma {:induction false} RenderFailsAtFirstUnfillable(f: Format, values: map<string, string>)
    ensures Render(f, values).Success? <==> forall i :: 0 <= i < |f| ==> Fillable(f[i], values)
    ensures Render(f, values).Failure? ==>
      exists i :: 0 <= i < |f| && !Fillable(f[i], values)
        && (forall j :: 0 <= j < i ==> Fillable(f[j], values))
        && Render(f, values).error == (if IsPositional(f[i].name) then PositionalIndex else MissingKey(f[i].name))
    decreases |f|
  {
    if f != [] {
      RenderFailsAtFirstUnfillable(f[1..], values);
      assert forall i :: 1 <= i < |f| ==> f[i] == f[1..][i - 1];
      if Render(f, values).Failure? && Fillable(f[0], values) {
        var i :| 0 <= i < |f[1..]| && !Fillable(f[1..][i], values)
          && (forall j :: 0 <= j < i ==> Fillable(f[1..][j], values))
          && Render(f[1..], values).error == (if IsPositional(f[1..][i].name) then PositionalIndex else MissingKey(f[1..][i].name));
        assert !Fillable(f[i + 1], values);
      }
    }
  }

  /** Rendering reads only the values of the format's own fields. */
  lemma {:induction false} RenderLocal(f: Format, v1: map<string, string>, v2: map<string, string>)
    requires forall i :: 0 <= i < |f| && f[i].Field? ==>
      (f[i].name in v1 <==> f[i].name in v2) && (f[i].name in v1 ==> v1[f[i].name] == v2[f[i].name])
    ensures Render(f, v1) == Render(f, v2)
    decreases |f|
  {
    if f != [] {
      assert forall i :: 1 <= i < |f| ==> f[i] == f[1..][i - 1];
      RenderLocal(f[1..], v1, v2);
    }
  }

  /** Filling every field with its own `{name}` text gives back the format string. */
  lemma {:induction false} RenderSelf(f: Format, values: map<string, string>)
    requires forall i :: 0 <= i < |f| && f[i].Field? ==>
      !IsPositional(f[i].name) && f[i].name in values && values[f[i].name] == "{" + f[i].name + "}"
    ensures Render(f, values) == Success(Text(f))
    decreases |f|
  {
    if f != [] {
      assert forall i :: 1 <= i < |f| ==> f[i] == f[1..][i - 1];
      RenderSelf(f[1..], values);
    }
  }
}
