/**
 The highlighter over a whole document (`highlight_incorrect_words`): the
 matches are taken in order; a match whose wrong word is blank or whose
 suggestion is missing or empty is passed over; otherwise the first paragraph
 whose text contains the wrong word is rebuilt, and the other paragraphs are
 left as they are.
 */
module Highlight {

  import opened Wrappers
  import opened PyStr
  import opened Docx
  import opened LanguageTool
  import opened Runs

  /** The paragraph's text contains `w` (Python's `in` on the paragraph text). */
  predicate Mentions(p: Paragraph, w: string) {
    Contains(Text(p.runs), w)
  }

  /** Paragraph `i` is the first of the document whose text contains `w`. */
  predicate IsFirstMentioning(doc: seq<Paragraph>, w: string, i: nat) {
    && i < |doc|
    && Mentions(doc[i], w)
    && forall k | 0 <= k < i :: !Mentions(doc[k], w)
  }

  /** The first paragraph from index `from` on whose text contains `w`, if any. */
  function FirstMentioning(doc: seq<Paragraph>, w: string, from: nat): (r: Option<nat>)
    requires from <= |doc|
    ensures r.Some? ==> from <= r.value < |doc| && Mentions(doc[r.value], w)
    ensures r.Some? ==> forall k | from <= k < r.value :: !Mentions(doc[k], w)
    ensures r.None? ==> forall k | from <= k < |doc| :: !Mentions(doc[k], w)
    decreases |doc| - from
  {
    if from == |doc| then None
    else if Mentions(doc[from], w) then Some(from)
    else FirstMentioning(doc, w, from + 1)
  }

  /** The runs of a paragraph whose text was set to the empty string and to which `runs`
      were then added: setting the text leaves one empty uncoloured run in front. */
  function Cleared(runs: seq<Run>): seq<Run> {
    [Run([], Plain)] + runs
  }

  /** The empty leading run adds no text, no red run and no occurrence of a non-empty word. */
  lemma ClearedFacts(runs: seq<Run>, w: string)
    requires |w| > 0
    ensures Text(Cleared(runs)) == Text(runs)
    ensures PlainText(Cleared(runs)) == PlainText(runs)
    ensures RedCount(Cleared(runs)) == RedCount(runs)
    ensures PlainRunsAvoid(runs, w) ==> PlainRunsAvoid(Cleared(runs), w)
  {
    var c := Cleared(runs);
    assert c[1..] == runs;
    if PlainRunsAvoid(runs, w) {
      assert !Contains(c[0].text, w);
      assert forall i | 1 <= i < |c| :: c[i] == runs[i - 1];
    }
  }

  /** The paragraph after the rebuild: the empty run left by clearing it, then exactly the
      runs the scan emits for its text. What those runs are is stated in terms of the old
      text. */
  function Rewrite(p: Paragraph, w: string, suggestion: string): (q: Paragraph)
    requires |w| > 0
    ensures q.runs != [] && q.runs[0] == Run([], Plain)
    ensures PlainText(q.runs) == Text(p.runs)
    ensures Text(q.runs) == Annotated(Text(p.runs), w, Annotation(suggestion))
    ensures Shaped(q.runs[1..], w, Annotation(suggestion))
    ensures RedCount(q.runs) == CountOccurrences(Text(p.runs), w)
    ensures PlainRunsAvoid(q.runs, w)
  {
    var runs := Rebuild(Text(p.runs), w, suggestion);
    RebuildProperties(Text(p.runs), w, suggestion);
    ClearedFacts(runs, w);
    assert Cleared(runs)[1..] == runs;
    Paragraph(Cleared(runs))
  }

  /** One turn of the outer loop: apply one match to the document. */
  function HighlightMatch(doc: seq<Paragraph>, m: Match): (r: seq<Paragraph>)
    ensures |r| == |doc|
    ensures Skipped(m) ==> r == doc
  {
    if Skipped(m) then doc
    else
      var w := WrongWord(m);
      SkippedIff(m);
      match FirstMentioning(doc, w, 0)
      case None => doc
      case Some(i) => doc[i := Rewrite(doc[i], w, Suggestion(m).value)]
  }

  /** The whole loop: the matches applied one after the other, first to last. */
  function HighlightIncorrectWords(doc: seq<Paragraph>, matches: seq<Match>): (r: seq<Paragraph>)
    ensures |r| == |doc|
    decreases |matches|
  {
    if matches == [] then doc
    else HighlightIncorrectWords(HighlightMatch(doc, matches[0]), matches[1..])
  }

  /** The outer loop: the matches applied in order, each by `ApplyMatch`. */
  method HighlightDocument(doc: seq<Paragraph>, matches: seq<Match>) returns (out: seq<Paragraph>)
    ensures |out| == |doc|
    ensures out == HighlightIncorrectWords(doc, matches)
  {
    out := doc;
    var n := 0;
    while n < |matches|
      invariant n <= |matches|
      invariant HighlightIncorrectWords(out, matches[n..]) == HighlightIncorrectWords(doc, matches)
    {
      assert matches[n..][0] == matches[n] && matches[n..][1..] == matches[n + 1..];
      out := ApplyMatch(out, matches[n]);
      n := n + 1;
    }
    assert matches[n..] == [];
  }

  /** One turn of the outer loop: pass the match over when its wrong word is blank or its
      suggestion missing or empty; otherwise rebuild the first paragraph whose text
      contains the wrong word with the scan, and stop there. */
  method ApplyMatch(doc: seq<Paragraph>, m: Match) returns (next: seq<Paragraph>)
    ensures next == HighlightMatch(doc, m)
  {
    next := doc;
    if !Skipped(m) {
      SkippedIff(m);
      var w := WrongWord(m);
      var j := FirstParagraphWith(doc, w);
      if j < |doc| {
        var runs := SplitRuns(Text(doc[j].runs), w, Suggestion(m).value);
        next := doc[j := Paragraph(Cleared(runs))];
        HighlightMatchRewritesFirst(doc, m, j);
      } else {
        HighlightMatchNoMention(doc, m);
      }
    }
  }

  /** The inner loop: the index of the first paragraph whose text contains `w`, or the
      number of paragraphs when none does. */
  method FirstParagraphWith(doc: seq<Paragraph>, w: string) returns (j: nat)
    ensures j <= |doc|
    ensures j < |doc| ==> IsFirstMentioning(doc, w, j)
    ensures j == |doc| ==> forall k | 0 <= k < |doc| :: !Mentions(doc[k], w)
  {
    j := 0;
    while j < |doc| && !Mentions(doc[j], w)
      invariant j <= |doc|
      invariant forall k | 0 <= k < j :: !Mentions(doc[k], w)
    {
      j := j + 1;
    }
  }

  /** The search finds paragraph `i` exactly when `i` is the first paragraph containing
      `w`, and finds nothing exactly when no paragraph contains it. */
  lemma FirstMentioningIff(doc: seq<Paragraph>, w: string, i: nat)
    ensures FirstMentioning(doc, w, 0) == Some(i) <==> IsFirstMentioning(doc, w, i)
    ensures FirstMentioning(doc, w, 0).None? <==> forall k | 0 <= k < |doc| :: !Mentions(doc[k], w)
  {
  }

  /** A match that is not passed over rebuilds the first paragraph containing its wrong
      word and leaves every other paragraph as it was. */
  lemma HighlightMatchRewritesFirst(doc: seq<Paragraph>, m: Match, i: nat)
    requires !Skipped(m) && IsFirstMentioning(doc, WrongWord(m), i)
    ensures |WrongWord(m)| > 0 && Suggestion(m).Some?
    ensures HighlightMatch(doc, m) == doc[i := Rewrite(doc[i], WrongWord(m), Suggestion(m).value)]
    ensures PlainText(HighlightMatch(doc, m)[i].runs) == Text(doc[i].runs)
    ensures forall j | 0 <= j < |doc| && j != i :: HighlightMatch(doc, m)[j] == doc[j]
  {
    SkippedIff(m);
    FirstMentioningIff(doc, WrongWord(m), i);
  }

  /** A match whose wrong word no paragraph contains leaves the document unchanged. */
  lemma HighlightMatchNoMention(doc: seq<Paragraph>, m: Match)
    requires forall k | 0 <= k < |doc| :: !Mentions(doc[k], WrongWord(m))
    ensures HighlightMatch(doc, m) == doc
  {
    FirstMentioningIff(doc, WrongWord(m), 0);
  }

  /** A match applied a second time finds the same paragraph again, since the rebuilt
      text still contains the wrong word, and rebuilds it from its annotated text: the
      first annotation becomes part of the uncoloured text, which is then longer than the
      paragraph's original text. */
  lemma RepeatedMatchRebuildsAgain(doc: seq<Paragraph>, m: Match, i: nat)
    requires !Skipped(m) && IsFirstMentioning(doc, WrongWord(m), i)
    ensures |WrongWord(m)| > 0 && Suggestion(m).Some?
    ensures IsFirstMentioning(HighlightMatch(doc, m), WrongWord(m), i)
    ensures PlainText(HighlightMatch(HighlightMatch(doc, m), m)[i].runs) ==
      Annotated(Text(doc[i].runs), WrongWord(m), Annotation(Suggestion(m).value))
    ensures |PlainText(HighlightMatch(HighlightMatch(doc, m), m)[i].runs)| > |Text(doc[i].runs)|
  {
    SkippedIff(m);
    var w := WrongWord(m);
    var suggestion := Suggestion(m).value;
    HighlightMatchRewritesFirst(doc, m, i);
    var once := HighlightMatch(doc, m);
    RewriteStillFirst(doc, w, suggestion, i);
    HighlightMatchRewritesFirst(once, m, i);
    AnnotatedLonger(Text(doc[i].runs), w, Annotation(suggestion));
  }

  /** Rebuilding the first paragraph containing `w` keeps it the first one. */
  lemma RewriteStillFirst(doc: seq<Paragraph>, w: string, suggestion: string, i: nat)
    requires |w| > 0 && IsFirstMentioning(doc, w, i)
    ensures IsFirstMentioning(doc[i := Rewrite(doc[i], w, suggestion)], w, i)
  {
    var next := doc[i := Rewrite(doc[i], w, suggestion)];
    AnnotatedStillContains(Text(doc[i].runs), w, Annotation(suggestion));
    assert Mentions(next[i], w);
    assert forall k | 0 <= k < i :: next[k] == doc[k];
  }

  /** Only the first paragraph containing the wrong word of a match that is not passed
      over can change. */
  lemma HighlightMatchChangesOnlyFirst(doc: seq<Paragraph>, m: Match, j: nat)
    requires j < |doc|
    ensures HighlightMatch(doc, m)[j] != doc[j] ==> !Skipped(m) && IsFirstMentioning(doc, WrongWord(m), j)
  {
    if !Skipped(m) {
      var w := WrongWord(m);
      var r := FirstMentioning(doc, w, 0);
      if r.Some? {
        FirstMentioningIff(doc, w, r.value);
        HighlightMatchRewritesFirst(doc, m, r.value);
      } else {
        FirstMentioningIff(doc, w, 0);
        HighlightMatchNoMention(doc, m);
      }
    }
  }

  /** The matches that are not passed over, in their order. */
  function Kept(matches: seq<Match>): (r: seq<Match>)
    ensures |r| <= |matches|
    ensures forall k | 0 <= k < |r| :: !Skipped(r[k])
    decreases |matches|
  {
    if matches == [] then []
    else if Skipped(matches[0]) then Kept(matches[1..])
    else [matches[0]] + Kept(matches[1..])
  }

  /** A match is kept exactly when it is one of the matches and is not passed over. */
  lemma {:induction false} KeptMembers(matches: seq<Match>)
    ensures forall m :: m in Kept(matches) <==> m in matches && !Skipped(m)
    decreases |matches|
  {
    if matches != [] {
      var rest := matches[1..];
      KeptMembers(rest);
      assert matches == [matches[0]] + rest;
      assert forall m :: m in matches <==> m == matches[0] || m in rest;
    }
  }

  /** Dropping the matches that are passed over does not change the outcome. */
  lemma {:induction false} SkippedMatchesIgnored(doc: seq<Paragraph>, matches: seq<Match>)
    ensures HighlightIncorrectWords(doc, matches) == HighlightIncorrectWords(doc, Kept(matches))
    decreases |matches|
  {
    if matches != [] {
      var m := matches[0];
      var rest := matches[1..];
      SkippedMatchesIgnored(HighlightMatch(doc, m), rest);
      if !Skipped(m) {
        assert ([m] + Kept(rest))[1..] == Kept(rest);
      }
    }
  }

  /** Applying two lists of matches one after the other is applying their concatenation. */
  lemma {:induction false} HighlightAppend(doc: seq<Paragraph>, a: seq<Match>, b: seq<Match>)
    ensures HighlightIncorrectWords(doc, a + b) == HighlightIncorrectWords(HighlightIncorrectWords(doc, a), b)
    decreases |a|
  {
    if a == [] {
      assert a + b == b;
    } else {
      assert (a + b)[0] == a[0] && (a + b)[1..] == a[1..] + b;
      HighlightAppend(HighlightMatch(doc, a[0]), a[1..], b);
    }
  }

  /** A paragraph whose text contains the wrong word of no applied match comes out as it
      went in. */
  lemma {:induction false} UntouchedParagraph(doc: seq<Paragraph>, matches: seq<Match>, j: nat)
    requires j < |doc|
    requires forall k | 0 <= k < |matches| :: Skipped(matches[k]) || !Mentions(doc[j], WrongWord(matches[k]))
    ensures HighlightIncorrectWords(doc, matches)[j] == doc[j]
    decreases |matches|
  {
    if matches != [] {
      var next := HighlightMatch(doc, matches[0]);
      HighlightMatchChangesOnlyFirst(doc, matches[0], j);
      assert next[j] == doc[j];
      assert forall k | 0 <= k < |matches[1..]| ::
        Skipped(matches[1..][k]) || !Mentions(next[j], WrongWord(matches[1..][k])) by {
        assert forall k | 0 <= k < |matches[1..]| :: matches[1..][k] == matches[k + 1];
      }
      UntouchedParagraph(next, matches[1..], j);
    }
  }

}
