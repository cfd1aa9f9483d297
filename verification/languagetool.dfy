/**
 One grammar match as the checker reports it, and the two values the
 highlighter takes from it: the wrong word, cut out of the match's context
 snippet, and the suggestion, the first proposed replacement.
 */
module LanguageTool {

  import opened Wrappers
  import opened PyStr

  /** The snippet of text around the error, with the error's position inside it. */
  datatype Context = Context(text: string, offset: int, length: int)

  datatype Replacement = Replacement(value: string)

  /** A match; a match reported without a replacement list has the empty list. */
  datatype Match = Match(context: Context, replacements: seq<Replacement>)

  /** The wrong word: the context text from `offset` for `length` characters, sliced
      the Python way, so bounds outside the snippet shorten the word instead of failing. */
  function WrongWord(m: Match): (w: string)
    ensures |w| <= |m.context.text|
    ensures var c := m.context;
      0 <= c.offset && 0 <= c.length && c.offset + c.length <= |c.text| ==>
        w == c.text[c.offset..c.offset + c.length]
    ensures var c := m.context;
      0 <= c.offset <= |c.text| < c.offset + c.length ==> w == c.text[c.offset..]
    ensures var c := m.context;
      0 <= c.offset + c.length <= c.offset ==> w == []
  {
    Slice(m.context.text, m.context.offset, m.context.offset + m.context.length)
  }

  /** The suggestion: the first replacement's value, or nothing when the list is empty. */
  function Suggestion(m: Match): (s: Option<string>)
    ensures s.None? <==> m.replacements == []
    ensures s.Some? ==> s.value == m.replacements[0].value
  {
    if m.replacements == [] then None else Some(m.replacements[0].value)
  }

  /** The guard that skips a match: the wrong word strips to nothing, or the suggestion
      is missing or empty (both are false in Python). */
  predicate Skipped(m: Match) {
    Strip(WrongWord(m)) == [] || Suggestion(m).None? || Suggestion(m).value == []
  }

  /** A match is skipped exactly when its wrong word is empty or all whitespace, it has
      no replacement, or its first replacement is the empty string; a match that is not
      skipped has a non-empty wrong word and a non-empty suggestion. */
  lemma SkippedIff(m: Match)
    ensures Skipped(m) <==>
      || AllSpace(WrongWord(m))
      || m.replacements == []
      || m.replacements[0].value == []
    ensures !Skipped(m) ==>
      && |WrongWord(m)| > 0
      && Suggestion(m).Some?
      && |Suggestion(m).value| > 0
  {
    StripEmptyIffAllSpace(WrongWord(m));
  }

}
