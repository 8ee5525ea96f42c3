/** The rewrite both updaters apply to a file's text (`FileUpdater._replace` in
    bumpv/client/files/updater.py and `ConfiguredFile.replace` in
    bumpv/client/config/configured_file.py): replace every occurrence of the search
    text; when that changes nothing, replace every occurrence of the original version
    string instead. */
module TextEdit {
  import opened Wrappers
  import opened Strings

  /** The new text, or None when the fallback is needed and there is no original
      version string (Python's `str.replace(None, ...)` raises TypeError). */
  function Rewrite(before: string, searchFor: string, replaceWith: string, original: Option<string>): (r: Option<string>)
    ensures r.None? <==> original.None? && ReplaceAll(before, searchFor, replaceWith) == before
  {
    var after := ReplaceAll(before, searchFor, replaceWith);
    if before != after then Some(after)
    else if original.None? then None
    else Some(ReplaceAll(before, original.value, replaceWith))
  }

  /** The fallback to the original version string is taken exactly when the text does
      not contain the search text or the search and replace texts are equal. */
  lemma FallbackIff(before: string, searchFor: string, replaceWith: string, original: Option<string>)
    requires searchFor != []
    ensures Contains(before, searchFor) && searchFor != replaceWith ==>
      Rewrite(before, searchFor, replaceWith, original) == Some(ReplaceAll(before, searchFor, replaceWith))
    ensures !Contains(before, searchFor) || searchFor == replaceWith ==>
      Rewrite(before, searchFor, replaceWith, original)
        == (if original.None? then None else Some(ReplaceAll(before, original.value, replaceWith)))
  {
    ReplaceUnchangedIff(before, searchFor, replaceWith);
  }

  /** An empty search text: a non-empty replacement is inserted before every
      character and at the end, as `str.replace("", r)` does; an empty one changes
      nothing, so the original version string is replaced instead. */
  lemma EmptySearchRewrite(before: string, replaceWith: string, original: Option<string>)
    ensures replaceWith != [] ==>
      Rewrite(before, [], replaceWith, original) == Some(InsertEverywhere(before, replaceWith))
    ensures replaceWith == [] ==>
      Rewrite(before, [], replaceWith, original)
        == (if original.None? then None else Some(ReplaceAll(before, original.value, [])))
  {
    if replaceWith == [] {
      InsertNothing(before);
    } else {
      InsertEverywhereLength(before, replaceWith);
      MulNonZero(|before| + 1, |replaceWith|);
    }
  }

  /** When the search text occurs, the new text differs in length from the old by
      the length difference of the two texts for every occurrence, and nothing else. */
  lemma RewriteLength(before: string, searchFor: string, replaceWith: string, original: Option<string>)
    requires searchFor != [] && Contains(before, searchFor) && searchFor != replaceWith
    ensures Rewrite(before, searchFor, replaceWith, original).Some?
    ensures |Rewrite(before, searchFor, replaceWith, original).value|
         == |before| + Occurrences(before, searchFor) * (|replaceWith| - |searchFor|)
  {
    FallbackIff(before, searchFor, replaceWith, original);
    ReplaceLength(before, searchFor, replaceWith);
  }
}
