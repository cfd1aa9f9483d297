/**
 The rebuild of one paragraph's text (the `while` scan of
 `highlight_incorrect_words`): the text is cut at the non-overlapping
 occurrences of the wrong word, found left to right; each occurrence becomes
 a red run followed by a green run holding the suggestion in parentheses,
 and the text between occurrences becomes uncoloured runs.

 Some lemmas below are there only to keep each inductive proof small enough for the
 solver: the `...Unfold` lemmas do one step of a recursive lemma, taking the induction
 hypothesis as a premise, so that the recursive lemma is left with a single call and
 its recursive call; `Reassociate` regroups a concatenation; and `AnnotatedFindStep`
 names the postcondition of `AnnotatedFromFind` so its per-case lemmas can share it.
 */
module Runs {

  import opened PyStr
  import opened Docx

  /** The text of the green run: the suggestion in parentheses. */
  function Annotation(suggestion: string): string {
    "(" + suggestion + ")"
  }

  /** The uncoloured run for `text[a..b]`, emitted only when that text is not empty. */
  function Gap(text: string, a: nat, b: nat): seq<Run>
    requires a <= b <= |text|
  {
    if a < b then [Run(text[a..b], Plain)] else []
  }

  /** The pair emitted for one occurrence: the wrong word in red, then the suggestion. */
  function Highlighted(w: string, suggestion: string): seq<Run> {
    [Run(w, Red), Run(Annotation(suggestion), Green)]
  }

  /** The runs the scan emits from position `start` of `text` on. */
  function RebuildFrom(text: string, w: string, suggestion: string, start: nat): seq<Run>
    requires |w| > 0 && start <= |text|
    decreases |text| - start
  {
    var idx := Find(text, w, start);
    if idx == -1 then Gap(text, start, |text|)
    else Gap(text, start, idx) + Highlighted(w, suggestion) + RebuildFrom(text, w, suggestion, idx + |w|)
  }

  /** The runs that replace a paragraph whose text is `text`. */
  function Rebuild(text: string, w: string, suggestion: string): seq<Run>
    requires |w| > 0
  {
    RebuildFrom(text, w, suggestion, 0)
  }

  /** Reference count of the occurrences of `w` in `s` taken greedily from the left,
      an occurrence never overlapping the one before it. */
  function CountOccurrences(s: string, w: string): nat
    requires |w| > 0
    decreases |s|
  {
    if |s| < |w| then 0
    else if OccursAt(s, w, 0) then 1 + CountOccurrences(s[|w|..], w)
    else CountOccurrences(s[1..], w)
  }

  /** Reference for a rebuilt paragraph's text: `s` with `annotation` inserted after each
      occurrence of `w` taken greedily from the left. */
  function Annotated(s: string, w: string, annotation: string): string
    requires |w| > 0
    decreases |s|
  {
    if |s| < |w| then s
    else if OccursAt(s, w, 0) then w + annotation + Annotated(s[|w|..], w, annotation)
    else [s[0]] + Annotated(s[1..], w, annotation)
  }

  /** No uncoloured run contains the wrong word. */
  predicate PlainRunsAvoid(runs: seq<Run>, w: string) {
    forall i | 0 <= i < |runs| && runs[i].colour == Plain :: !Contains(runs[i].text, w)
  }

  /** The scan with the emitted runs carried along: the state of the `while` loop is
      the pair (`start`, runs emitted so far). */
  function ScanFrom(text: string, w: string, suggestion: string, start: nat, emitted: seq<Run>): seq<Run>
    requires |w| > 0 && start <= |text|
    decreases |text| - start
  {
    var idx := Find(text, w, start);
    if idx == -1 then emitted + Gap(text, start, |text|)
    else ScanFrom(text, w, suggestion, idx + |w|, emitted + Gap(text, start, idx) + Highlighted(w, suggestion))
  }

  /** Carrying the emitted runs along gives the same runs as the recursive definition. */
  lemma {:induction false} ScanFromRebuild(text: string, w: string, suggestion: string, start: nat, emitted: seq<Run>)
    requires |w| > 0 && start <= |text|
    ensures ScanFrom(text, w, suggestion, start, emitted) == emitted + RebuildFrom(text, w, suggestion, start)
    decreases |text| - start
  {
    var idx := Find(text, w, start);
    if idx != -1 {
      var next := emitted + Gap(text, start, idx) + Highlighted(w, suggestion);
      ScanFromRebuild(text, w, suggestion, idx + |w|, next);
      RebuildFromStep(text, w, suggestion, start);
      Reassociate(emitted, Gap(text, start, idx), Highlighted(w, suggestion), RebuildFrom(text, w, suggestion, idx + |w|));
    }
  }

  /** The scan itself. While the wrong word still occurs at or after `start`, each turn
      emits the text before the occurrence when there is any, the wrong word in red and
      the suggestion in green, and moves `start` past the occurrence; the text after the
      last occurrence, when there is any, closes the list. The word must not be empty:
      the caller's guard ensures it, and with an empty word the scan would never end. */
  method SplitRuns(text: string, w: string, suggestion: string) returns (newRuns: seq<Run>)
    requires |w| > 0
    ensures newRuns == Rebuild(text, w, suggestion)
    ensures PlainText(newRuns) == text
    ensures Shaped(newRuns, w, Annotation(suggestion))
    ensures RedCount(newRuns) == CountOccurrences(text, w)
    ensures PlainRunsAvoid(newRuns, w)
    ensures Text(newRuns) == Annotated(text, w, Annotation(suggestion))
  {
    var start: nat := 0;
    newRuns := [];
    while Contains(text[start..], w)
      invariant start <= |text|
      invariant ScanFrom(text, w, suggestion, start, newRuns) == ScanFrom(text, w, suggestion, 0, [])
      decreases |text| - start
    {
      ContainsSuffixIffFound(text, w, start);
      var idx := Find(text, w, start);
      if idx == -1 {
        break;
      }
      newRuns := newRuns + Gap(text, start, idx);
      newRuns := newRuns + Highlighted(w, suggestion);
      start := idx + |w|;
    }
    ContainsSuffixIffFound(text, w, start);
    newRuns := newRuns + Gap(text, start, |text|);
    ScanFromRebuild(text, w, suggestion, 0, []);
    assert [] + Rebuild(text, w, suggestion) == Rebuild(text, w, suggestion);
    RebuildProperties(text, w, suggestion);
  }

  lemma Reassociate<T>(a: seq<T>, b: seq<T>, c: seq<T>, d: seq<T>)
    ensures a + b + c + d == a + (b + c + d)
  {
  }

  /** What a rebuilt paragraph is: its uncoloured and red runs give back the text, its
      runs follow the grammar `(Plain? Red Green)*  Plain?`, it has one red run per
      greedy non-overlapping occurrence, no uncoloured run contains the wrong word, and
      the paragraph now reads as the old text with the annotation after each occurrence. */
  lemma RebuildProperties(text: string, w: string, suggestion: string)
    requires |w| > 0
    ensures PlainText(Rebuild(text, w, suggestion)) == text
    ensures Shaped(Rebuild(text, w, suggestion), w, Annotation(suggestion))
    ensures RedCount(Rebuild(text, w, suggestion)) == CountOccurrences(text, w)
    ensures PlainRunsAvoid(Rebuild(text, w, suggestion), w)
    ensures Text(Rebuild(text, w, suggestion)) == Annotated(text, w, Annotation(suggestion))
  {
    RebuildText(text, w, suggestion, 0);
    RebuildPlainText(text, w, suggestion, 0);
    RebuildShaped(text, w, suggestion, 0);
    RebuildRedCount(text, w, suggestion, 0);
    RebuildPlainRunsAvoid(text, w, suggestion, 0);
    assert text[0..] == text;
  }

  /** One turn of the scan: the runs from `start` are the gap before the next occurrence,
      the highlighted pair, and the runs from just after the occurrence. */
  lemma RebuildFromStep(text: string, w: string, suggestion: string, start: nat)
    requires |w| > 0 && start <= |text|
    requires Find(text, w, start) != -1
    ensures var idx := Find(text, w, start);
      && idx + |w| <= |text|
      && RebuildFrom(text, w, suggestion, start) ==
           Gap(text, start, idx) + Highlighted(w, suggestion) + RebuildFrom(text, w, suggestion, idx + |w|)
  {
  }

  lemma GapFacts(text: string, a: nat, b: nat)
    requires a <= b <= |text|
    ensures PlainText(Gap(text, a, b)) == text[a..b]
    ensures RedCount(Gap(text, a, b)) == 0
  {
    if a < b {
      assert Gap(text, a, b)[1..] == [];
    }
  }

  lemma HighlightedFacts(w: string, suggestion: string)
    ensures PlainText(Highlighted(w, suggestion)) == w
    ensures RedCount(Highlighted(w, suggestion)) == 1
  {
    var none: seq<Run> := [];
    var g := [Run(Annotation(suggestion), Green)];
    assert g[1..] == none;
    assert PlainText(g) == PlainText(none) == [];
    assert RedCount(g) == RedCount(none) == 0;
    assert Highlighted(w, suggestion)[1..] == g;
    assert PlainText(Highlighted(w, suggestion)) == w + [];
  }

  /** Round trip: dropping the green runs gives back the text exactly. */
  lemma {:induction false} RebuildPlainText(text: string, w: string, suggestion: string, start: nat)
    requires |w| > 0 && start <= |text|
    ensures PlainText(RebuildFrom(text, w, suggestion, start)) == text[start..]
    decreases |text| - start
  {
    var idx := Find(text, w, start);
    PlainTextUnfold(text, w, suggestion, start);
    if idx != -1 {
      RebuildPlainText(text, w, suggestion, idx + |w|);
    }
  }

  /** The last turn of the scan gives back the rest of the text; any other turn gives
      back the text up to the end of the occurrence it highlights. */
  lemma PlainTextUnfold(text: string, w: string, suggestion: string, start: nat)
    requires |w| > 0 && start <= |text|
    ensures var idx := Find(text, w, start);
      if idx == -1 then PlainText(RebuildFrom(text, w, suggestion, start)) == text[start..]
      else
        idx + |w| <= |text| &&
        (PlainText(RebuildFrom(text, w, suggestion, idx + |w|)) == text[idx + |w|..] ==>
         PlainText(RebuildFrom(text, w, suggestion, start)) == text[start..])
  {
    var idx := Find(text, w, start);
    if idx == -1 {
      GapFacts(text, start, |text|);
      assert text[start..|text|] == text[start..];
    } else {
      RebuildFromStep(text, w, suggestion, start);
      var rest := RebuildFrom(text, w, suggestion, idx + |w|);
      if PlainText(rest) == text[idx + |w|..] {
        PlainTextStep(text, w, suggestion, start, idx, rest);
      }
    }
  }

  lemma PlainTextStep(text: string, w: string, suggestion: string, start: nat, idx: nat, rest: seq<Run>)
    requires start <= idx && OccursAt(text, w, idx)
    requires PlainText(rest) == text[idx + |w|..]
    ensures PlainText(Gap(text, start, idx) + Highlighted(w, suggestion) + rest) == text[start..]
  {
    var gap := Gap(text, start, idx);
    var mid := Highlighted(w, suggestion);
    assert PlainText(gap + mid + rest) == text[start..idx] + w + PlainText(rest) by {
      PlainTextAppend(gap + mid, rest);
      PlainTextAppend(gap, mid);
      GapFacts(text, start, idx);
      HighlightedFacts(w, suggestion);
    }
    SplitAtOccurrence(text, w, start, idx);
  }

  /** The text from `start` is the part before the occurrence at `idx`, the word, and the
      part after it. */
  lemma SplitAtOccurrence(text: string, w: string, start: nat, idx: nat)
    requires start <= idx && OccursAt(text, w, idx)
    ensures text[start..] == text[start..idx] + w + text[idx + |w|..]
  {
    OccursAtIff(text, w, idx);
    assert text[start..] == text[start..idx] + text[idx..];
    assert text[idx..] == text[idx..idx + |w|] + text[idx + |w|..];
  }

  /** The rebuilt runs follow the grammar `(Plain? Red Green)* Plain?`. */
  lemma {:induction false} RebuildShaped(text: string, w: string, suggestion: string, start: nat)
    requires |w| > 0 && start <= |text|
    ensures Shaped(RebuildFrom(text, w, suggestion, start), w, Annotation(suggestion))
    decreases |text| - start
  {
    var idx := Find(text, w, start);
    var here := RebuildFrom(text, w, suggestion, start);
    ShapedUnfold(text, w, suggestion, start);
    if idx != -1 {
      RebuildShaped(text, w, suggestion, idx + |w|);
    }
    assert Shaped(here, w, Annotation(suggestion));
  }

  /** The last turn of the scan emits at most one non-empty uncoloured run; any other turn
      prefixes well-shaped runs with an optional uncoloured run and a highlighted pair. */
  lemma ShapedUnfold(text: string, w: string, suggestion: string, start: nat)
    requires |w| > 0 && start <= |text|
    ensures var idx := Find(text, w, start);
      if idx == -1 then Shaped(RebuildFrom(text, w, suggestion, start), w, Annotation(suggestion))
      else
        idx + |w| <= |text| &&
        (Shaped(RebuildFrom(text, w, suggestion, idx + |w|), w, Annotation(suggestion)) ==>
         Shaped(RebuildFrom(text, w, suggestion, start), w, Annotation(suggestion)))
  {
    var idx := Find(text, w, start);
    if idx == -1 {
      if start < |text| {
        assert Gap(text, start, |text|)[1..] == [];
      }
    } else {
      RebuildFromStep(text, w, suggestion, start);
      ShapedStep(text, w, suggestion, start, idx, RebuildFrom(text, w, suggestion, idx + |w|));
    }
  }

  lemma ShapedStep(text: string, w: string, suggestion: string, start: nat, idx: nat, rest: seq<Run>)
    requires start <= idx <= |text|
    ensures Shaped(rest, w, Annotation(suggestion)) ==>
      Shaped(Gap(text, start, idx) + Highlighted(w, suggestion) + rest, w, Annotation(suggestion))
  {
    var mid := Highlighted(w, suggestion);
    assert (mid + rest)[2..] == rest;
    if start < idx {
      assert (Gap(text, start, idx) + mid + rest)[1..] == mid + rest;
    } else {
      assert Gap(text, start, idx) + mid + rest == mid + rest;
    }
  }

  /** One red run per occurrence of the greedy left-to-right count. */
  lemma {:induction false} RebuildRedCount(text: string, w: string, suggestion: string, start: nat)
    requires |w| > 0 && start <= |text|
    ensures RedCount(RebuildFrom(text, w, suggestion, start)) == CountOccurrences(text[start..], w)
    decreases |text| - start
  {
    var idx := Find(text, w, start);
    RedCountUnfold(text, w, suggestion, start);
    if idx != -1 {
      RebuildRedCount(text, w, suggestion, idx + |w|);
    }
  }

  /** One turn of the scan adds one red run and one counted occurrence; the last turn adds
      neither. */
  lemma RedCountUnfold(text: string, w: string, suggestion: string, start: nat)
    requires |w| > 0 && start <= |text|
    ensures var idx := Find(text, w, start);
      if idx == -1 then
        RedCount(RebuildFrom(text, w, suggestion, start)) == 0 == CountOccurrences(text[start..], w)
      else
        RedCount(RebuildFrom(text, w, suggestion, start)) == 1 + RedCount(RebuildFrom(text, w, suggestion, idx + |w|)) &&
        CountOccurrences(text[start..], w) == 1 + CountOccurrences(text[idx + |w|..], w)
  {
    var idx := Find(text, w, start);
    CountFromFind(text, w, start);
    if idx == -1 {
      GapFacts(text, start, |text|);
    } else {
      RebuildFromStep(text, w, suggestion, start);
      RedCountStep(text, w, suggestion, start, idx, RebuildFrom(text, w, suggestion, idx + |w|));
    }
  }

  lemma RedCountStep(text: string, w: string, suggestion: string, start: nat, idx: nat, rest: seq<Run>)
    requires start <= idx <= |text|
    ensures RedCount(Gap(text, start, idx) + Highlighted(w, suggestion) + rest) == 1 + RedCount(rest)
  {
    var gap := Gap(text, start, idx);
    var mid := Highlighted(w, suggestion);
    RedCountAppend(gap + mid, rest);
    RedCountAppend(gap, mid);
    GapFacts(text, start, idx);
    HighlightedFacts(w, suggestion);
  }

  /** The greedy count read through `find`: skip to the next occurrence, count it, and
      continue after it. */
  lemma {:induction false} CountFromFind(text: string, w: string, start: nat)
    requires |w| > 0 && start <= |text|
    ensures var idx := Find(text, w, start);
      CountOccurrences(text[start..], w) ==
        if idx == -1 then 0 else 1 + CountOccurrences(text[idx + |w|..], w)
    decreases |text| - start
  {
    var s := text[start..];
    if start + |w| <= |text| {
      OccursAtIff(text, w, start);
      OccursAtIff(s, w, 0);
      assert s[..|w|] == text[start..start + |w|];
      if OccursAt(text, w, start) {
        assert s[|w|..] == text[start + |w|..];
      } else {
        assert s[1..] == text[start + 1..];
        CountFromFind(text, w, start + 1);
      }
    }
  }

  /** The text from `a` to `b` holds no occurrence when none starts in `[a, b)`. */
  lemma GapAvoids(text: string, w: string, a: nat, b: nat)
    requires |w| > 0 && a <= b <= |text|
    requires forall j: nat :: a <= j < b ==> !OccursAt(text, w, j)
    ensures PlainRunsAvoid(Gap(text, a, b), w)
  {
    if a < b && Contains(text[a..b], w) {
      var k: nat :| k <= |text[a..b]| && OccursAt(text[a..b], w, k);
      OccursInSlice(text, w, a, b, k);
      assert false;
    }
  }

  /** Every occurrence is highlighted: no uncoloured run still contains the wrong word. */
  lemma {:induction false} RebuildPlainRunsAvoid(text: string, w: string, suggestion: string, start: nat)
    requires |w| > 0 && start <= |text|
    ensures PlainRunsAvoid(RebuildFrom(text, w, suggestion, start), w)
    decreases |text| - start
  {
    var idx := Find(text, w, start);
    AvoidUnfold(text, w, suggestion, start);
    if idx != -1 {
      RebuildPlainRunsAvoid(text, w, suggestion, idx + |w|);
    }
  }

  /** The uncoloured run a turn of the scan emits lies before the next occurrence, so it
      holds none. */
  lemma AvoidUnfold(text: string, w: string, suggestion: string, start: nat)
    requires |w| > 0 && start <= |text|
    ensures var idx := Find(text, w, start);
      if idx == -1 then PlainRunsAvoid(RebuildFrom(text, w, suggestion, start), w)
      else
        idx + |w| <= |text| &&
        (PlainRunsAvoid(RebuildFrom(text, w, suggestion, idx + |w|), w) ==>
         PlainRunsAvoid(RebuildFrom(text, w, suggestion, start), w))
  {
    var idx := Find(text, w, start);
    GapBeforeNextAvoids(text, w, start);
    if idx != -1 {
      RebuildFromStep(text, w, suggestion, start);
      AvoidStep(Gap(text, start, idx), Highlighted(w, suggestion), RebuildFrom(text, w, suggestion, idx + |w|), w);
    }
  }

  /** The uncoloured run emitted before the next occurrence (or at the end) avoids `w`. */
  lemma GapBeforeNextAvoids(text: string, w: string, start: nat)
    requires |w| > 0 && start <= |text|
    ensures var idx := Find(text, w, start);
      PlainRunsAvoid(Gap(text, start, if idx == -1 then |text| else idx), w)
  {
    var idx := Find(text, w, start);
    GapAvoids(text, w, start, if idx == -1 then |text| else idx);
  }

  lemma AvoidStep(gap: seq<Run>, mid: seq<Run>, rest: seq<Run>, w: string)
    requires forall i | 0 <= i < |mid| :: mid[i].colour != Plain
    ensures PlainRunsAvoid(gap, w) && PlainRunsAvoid(rest, w) ==> PlainRunsAvoid(gap + mid + rest, w)
  {
    var runs := gap + mid + rest;
    assert forall i | 0 <= i < |gap| :: runs[i] == gap[i];
    assert forall i | |gap| <= i < |gap| + |mid| :: runs[i] == mid[i - |gap|];
    assert forall i | |gap| + |mid| <= i < |runs| :: runs[i] == rest[i - |gap| - |mid|];
  }

  /** The text a rebuilt paragraph reports is the old text with the annotation inserted
      after every highlighted occurrence. */
  lemma {:induction false} RebuildText(text: string, w: string, suggestion: string, start: nat)
    requires |w| > 0 && start <= |text|
    ensures Text(RebuildFrom(text, w, suggestion, start)) == Annotated(text[start..], w, Annotation(suggestion))
    decreases |text| - start
  {
    var idx := Find(text, w, start);
    TextUnfold(text, w, suggestion, start);
    if idx != -1 {
      RebuildText(text, w, suggestion, idx + |w|);
    }
  }

  lemma TextUnfold(text: string, w: string, suggestion: string, start: nat)
    requires |w| > 0 && start <= |text|
    ensures var idx := Find(text, w, start);
      if idx == -1 then
        Text(RebuildFrom(text, w, suggestion, start)) == Annotated(text[start..], w, Annotation(suggestion))
      else
        idx + |w| <= |text| &&
        (Text(RebuildFrom(text, w, suggestion, idx + |w|)) == Annotated(text[idx + |w|..], w, Annotation(suggestion)) ==>
         Text(RebuildFrom(text, w, suggestion, start)) == Annotated(text[start..], w, Annotation(suggestion)))
  {
    var idx := Find(text, w, start);
    AnnotatedFromFind(text, w, Annotation(suggestion), start);
    if idx == -1 {
      GapText(text, start, |text|);
      assert text[start..|text|] == text[start..];
    } else {
      RebuildFromStep(text, w, suggestion, start);
      TextStep(text, w, suggestion, start, idx, RebuildFrom(text, w, suggestion, idx + |w|));
    }
  }

  lemma TextStep(text: string, w: string, suggestion: string, start: nat, idx: nat, rest: seq<Run>)
    requires start <= idx <= |text|
    ensures Text(Gap(text, start, idx) + Highlighted(w, suggestion) + rest) ==
      text[start..idx] + w + Annotation(suggestion) + Text(rest)
  {
    var gap := Gap(text, start, idx);
    var mid := Highlighted(w, suggestion);
    assert Text(gap + mid + rest) == Text(gap) + Text(mid) + Text(rest) by {
      TextAppend(gap + mid, rest);
      TextAppend(gap, mid);
    }
    GapText(text, start, idx);
    HighlightedText(w, suggestion);
  }

  lemma HighlightedText(w: string, suggestion: string)
    ensures Text(Highlighted(w, suggestion)) == w + Annotation(suggestion)
  {
    var none: seq<Run> := [];
    var g := [Run(Annotation(suggestion), Green)];
    assert g[1..] == none;
    assert Text(g) == Annotation(suggestion) + Text(none);
    assert Highlighted(w, suggestion)[1..] == g;
  }

  lemma GapText(text: string, a: nat, b: nat)
    requires a <= b <= |text|
    ensures Text(Gap(text, a, b)) == text[a..b]
  {
    if a < b {
      assert Gap(text, a, b)[1..] == [];
    }
  }

  /** The reference read through `find`: copy the text up to the next occurrence, then the
      occurrence and the annotation, and continue after it. */
  lemma {:induction false} AnnotatedFromFind(text: string, w: string, annotation: string, start: nat)
    requires |w| > 0 && start <= |text|
    ensures AnnotatedFindStep(text, w, annotation, start)
    decreases |text| - start
  {
    if start + |w| > |text| {
      AnnotatedShort(text[start..], w, annotation);
    } else if OccursAt(text, w, start) {
      AnnotatedAtOccurrence(text, w, annotation, start);
    } else {
      AnnotatedFromFind(text, w, annotation, start + 1);
      AnnotatedSkip(text, w, annotation, start);
    }
  }

  /** The reference from `start` equals the text up to the next occurrence found by
      `find`, the occurrence, the annotation, and the reference after the occurrence. */
  predicate AnnotatedFindStep(text: string, w: string, annotation: string, start: nat)
    requires |w| > 0 && start <= |text|
  {
    var idx := Find(text, w, start);
    if idx == -1 then Annotated(text[start..], w, annotation) == text[start..]
    else
      Annotated(text[start..], w, annotation) ==
        text[start..idx] + w + annotation + Annotated(text[idx + |w|..], w, annotation)
  }

  lemma AnnotatedShort(s: string, w: string, annotation: string)
    requires |s| < |w|
    ensures Annotated(s, w, annotation) == s
  {
  }

  lemma AnnotatedAtOccurrence(text: string, w: string, annotation: string, start: nat)
    requires |w| > 0 && start <= |text| && OccursAt(text, w, start)
    ensures AnnotatedFindStep(text, w, annotation, start)
  {
    SuffixFacts(text, w, start);
    assert Find(text, w, start) == start;
  }

  /** No occurrence at `start`: the character there is copied and the search goes on. */
  lemma AnnotatedSkip(text: string, w: string, annotation: string, start: nat)
    requires |w| > 0 && start + |w| <= |text| && !OccursAt(text, w, start)
    requires AnnotatedFindStep(text, w, annotation, start + 1)
    ensures AnnotatedFindStep(text, w, annotation, start)
  {
    var idx := Find(text, w, start);
    assert Find(text, w, start + 1) == idx;
    if idx == -1 {
      SkipToEnd(text, w, annotation, start);
    } else {
      SkipToOccurrence(text, w, annotation, start, idx);
    }
  }

  lemma SkipToEnd(text: string, w: string, annotation: string, start: nat)
    requires |w| > 0 && start + |w| <= |text| && !OccursAt(text, w, start)
    requires Annotated(text[start + 1..], w, annotation) == text[start + 1..]
    ensures Annotated(text[start..], w, annotation) == text[start..]
  {
    SuffixFacts(text, w, start);
    AnnotatedCons(text[start..], w, annotation);
    ConsSlice(text, start, |text|, []);
    assert text[start..|text|] == text[start..] && text[start + 1..|text|] == text[start + 1..];
  }

  lemma SkipToOccurrence(text: string, w: string, annotation: string, start: nat, idx: nat)
    requires |w| > 0 && start + |w| <= |text| && !OccursAt(text, w, start)
    requires start < idx && idx + |w| <= |text|
    requires Annotated(text[start + 1..], w, annotation) ==
      text[start + 1..idx] + w + annotation + Annotated(text[idx + |w|..], w, annotation)
    ensures Annotated(text[start..], w, annotation) ==
      text[start..idx] + w + annotation + Annotated(text[idx + |w|..], w, annotation)
  {
    var tail := w + annotation + Annotated(text[idx + |w|..], w, annotation);
    SuffixFacts(text, w, start);
    AnnotatedCons(text[start..], w, annotation);
    Reassociate(text[start + 1..idx], w, annotation, Annotated(text[idx + |w|..], w, annotation));
    ConsSlice(text, start, idx, tail);
    Reassociate(text[start..idx], w, annotation, Annotated(text[idx + |w|..], w, annotation));
  }

  lemma AnnotatedCons(s: string, w: string, annotation: string)
    requires |w| > 0 && |s| >= |w| && !OccursAt(s, w, 0)
    ensures Annotated(s, w, annotation) == [s[0]] + Annotated(s[1..], w, annotation)
  {
  }

  /** Reading the text from `start` on, its first characters are those of `text` at `start`. */
  lemma SuffixFacts(text: string, w: string, start: nat)
    requires start + |w| <= |text| && |w| > 0
    ensures OccursAt(text[start..], w, 0) <==> OccursAt(text, w, start)
    ensures text[start..][|w|..] == text[start + |w|..]
    ensures text[start..][1..] == text[start + 1..]
    ensures text[start..][0] == text[start]
    ensures OccursAt(text, w, start) ==> text[start..start] == []
  {
    var s := text[start..];
    OccursAtIff(text, w, start);
    OccursAtIff(s, w, 0);
    assert s[..|w|] == text[start..start + |w|];
  }

  lemma ConsSlice(text: string, start: nat, end: nat, tail: string)
    requires start < end <= |text|
    ensures [text[start]] + (text[start + 1..end] + tail) == text[start..end] + tail
  {
    assert text[start..end] == [text[start]] + text[start + 1..end];
  }

  /** The annotated text grows by one annotation per counted occurrence. */
  lemma {:induction false} AnnotatedLength(s: string, w: string, annotation: string)
    requires |w| > 0
    ensures |Annotated(s, w, annotation)| == |s| + |annotation| * CountOccurrences(s, w)
    decreases |s|
  {
    if |s| >= |w| {
      if OccursAt(s, w, 0) {
        AnnotatedLength(s[|w|..], w, annotation);
        var c := CountOccurrences(s[|w|..], w);
        assert |annotation| * (1 + c) == |annotation| + |annotation| * c;
      } else {
        AnnotatedLength(s[1..], w, annotation);
      }
    }
  }

  /** A text that contains `w` has at least one counted occurrence, and its annotated
      form still contains `w` where the first occurrence was. */
  lemma AnnotatedStillContains(text: string, w: string, annotation: string)
    requires |w| > 0 && Contains(text, w)
    ensures CountOccurrences(text, w) > 0
    ensures Contains(Annotated(text, w, annotation), w)
  {
    assert text[0..] == text;
    ContainsSuffixIffFound(text, w, 0);
    CountFromFind(text, w, 0);
    var idx := Find(text, w, 0);
    var a := Annotated(text, w, annotation);
    var rest := annotation + Annotated(text[idx + |w|..], w, annotation);
    AnnotatedFromFind(text, w, annotation, 0);
    assert a == text[..idx] + w + rest;
    assert a[idx..idx + |w|] == w;
    OccursAtIff(a, w, idx);
  }

  /** A text that contains `w` gets strictly longer when annotated with a non-empty
      annotation. */
  lemma AnnotatedLonger(text: string, w: string, annotation: string)
    requires |w| > 0 && Contains(text, w) && |annotation| > 0
    ensures |Annotated(text, w, annotation)| > |text|
  {
    AnnotatedStillContains(text, w, annotation);
    AnnotatedLength(text, w, annotation);
  }

}
