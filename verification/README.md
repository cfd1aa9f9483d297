# Grammar highlighter for word-processing documents — Dafny model

This project models `highlight_incorrect_words`, the routine in `app.py` that marks grammar
errors in a Word document. It takes the document's paragraphs and the list of matches a
grammar checker (LanguageTool) reported. For each match it works out two values:

- the wrong word, a slice of the match's context snippet;
- the suggestion, the first proposed replacement.

A match is passed over when its wrong word is blank, or when its suggestion is missing or
empty. Otherwise the routine looks for the first paragraph whose text contains the wrong
word, as a plain substring. It rebuilds that paragraph's runs by scanning the text left to
right for non-overlapping occurrences of the word. Each occurrence becomes:

- a red (bold) run holding the word;
- then a green (italic) run holding the suggestion in parentheses.

The text between occurrences becomes uncoloured runs. The routine then stops looking at
further paragraphs for that match.

The model has these modules:

- `PyStr` (`pystr.dfy`): the Python string operations the routine relies on.
  - `in` is `Contains`.
  - `str.find` is `Find`.
  - Slicing with out-of-range and negative bounds is `Slice`.
  - `str.strip` is `Strip`, over the code points `str.isspace` accepts.
- `Docx` (`docx.dfy`): a paragraph as a list of runs, each holding text and a colour tag.
  - `Text` is the paragraph's text as the document reports it.
  - `PlainText` is the text of the runs that are not green.
  - `Shaped` is the run grammar a rebuild produces: `(Plain? Red Green)* Plain?`.
- `LanguageTool` (`languagetool.dfy`): a match, together with the wrong word, the
  suggestion, and the guard that passes a match over.
- `Runs` (`runs.dfy`): the `while` scan that rebuilds one paragraph.
  - `Rebuild` is the scan as a recursive function.
  - `SplitRuns` is the loop itself.
  - Two independent reference definitions act as partners: `CountOccurrences`, the greedy
    left-to-right occurrence count, and `Annotated`, the text with the annotation inserted
    after each occurrence.
- `Highlight` (`highlight.dfy`): the whole routine.
  - `HighlightMatch` is one turn of the outer loop.
  - `HighlightIncorrectWords` is the fold over all matches.
  - `HighlightDocument`, `ApplyMatch` and `FirstParagraphWith` are the two nested loops
    written as methods.
- `Scenarios` (`scenarios.dfy`): worked cases on short literal texts.
- `Wrappers` (`wrappers.dfy`): `Option`.

### Where the model follows the code rather than its comment

The comment on the `break` (app.py:75) says the routine stops "after one replacement per
paragraph". What the code does is different:

- The `break` leaves the loop over paragraphs.
- So only the FIRST paragraph containing the wrong word is rebuilt.
- Inside that paragraph, EVERY non-overlapping occurrence is highlighted.

The model follows the code.

Setting `para.text = ""` (app.py:63) leaves one empty uncoloured run in the paragraph, and
the new runs are added after it. The model keeps that run: a rebuilt paragraph is that
empty run followed by the runs of the scan. The run grammar `Shaped` holds of the runs of
the scan, not of the whole paragraph.

Each rebuild starts again from the paragraph's current text. So a match reported twice for
the same paragraph rebuilds it twice. After the second rebuild, the first `(suggestion)` is
ordinary uncoloured text. The paragraph then no longer reads as the original text apart
from its annotations. The same happens when a later match finds its word inside an earlier
annotation: the earlier pair loses its colours. `RepeatedMatchRebuildsAgain`, `RebuiltTwice`
and `TwoMatchesOneParagraph` state this behaviour, which is modelled as written.

## Model

| member | source | states |
|---|---|---|
| `LanguageTool.WrongWord` | app.py:25 | The wrong word is the context text from `offset` for `length` characters when that range lies inside the snippet. It is cut short at the snippet's end, and it is empty when the end is not past the start. It is never longer than the snippet. |
| `LanguageTool.Suggestion` | app.py:26-27 | There is no suggestion exactly when the replacement list is empty. Otherwise the suggestion is the first replacement's value. |
| `LanguageTool.SkippedIff` | app.py:29-30 | A match is passed over exactly when its wrong word is empty or all whitespace, it has no replacements, or its first replacement is empty. A match that is not passed over has a non-empty wrong word and a non-empty suggestion. |
| `PyStr.StripEmptyIffAllSpace` | app.py:29 | `s.strip()` is empty exactly when every character of `s` is whitespace. |
| `PyStr.Find` | app.py:40 | `find` returns the least position at or after `start` where the word occurs. It returns -1 exactly when there is no such position. |
| `PyStr.ContainsSuffixIffFound` | app.py:39-42 | The loop test `w in text[start:]` holds exactly when `text.find(w, start)` succeeds. So the `idx == -1` exit is never taken. |
| `PyStr.Slice` | app.py:25 | Python slicing never fails. In-range bounds give the ordinary slice, bounds past the end are clamped, and an empty or reversed range gives the empty string. |
| `Runs.SplitRuns` | app.py:35-58 | The scan always terminates and yields the runs of `Rebuild`. Its non-green runs give back the text. The runs follow the grammar `(Plain? Red Green)* Plain?`, and every uncoloured run is non-empty. There is one red run per greedy non-overlapping occurrence, and no uncoloured run contains the word. The new paragraph text is the old text with `(suggestion)` after each occurrence. |
| `Runs.ScanFromRebuild` | app.py:39-54 | Carrying the emitted runs through the loop gives the same list as the recursive definition of the scan. |
| `Runs.RebuildProperties` | app.py:39-58 | A rebuilt paragraph has five properties, stated against the old text and the reference definitions: the round trip, the run grammar, the red-run count, uncoloured runs free of the word, and the annotated text. |
| `Runs.RebuildPlainText` | app.py:44-58 | Dropping the green runs from a rebuilt paragraph gives back exactly the text from the scan's start. |
| `Runs.RebuildShaped` | app.py:45-52 | Every red run holds the wrong word and is directly followed by the green `(suggestion)` run. Every uncoloured run is non-empty and is followed by a red run or ends the list. |
| `Runs.RebuildRedCount` | app.py:39-54 | The number of red runs equals the greedy left-to-right count of non-overlapping occurrences of the word in the remaining text. |
| `Runs.RebuildPlainRunsAvoid` | app.py:39-46 | Every occurrence the scan meets is highlighted, so no uncoloured run contains the wrong word. |
| `Runs.RebuildText` | app.py:44-58 | The text the rebuilt paragraph reports equals the reference `Annotated` form of the old text. |
| `Runs.CountFromFind` | app.py:40-54 | The greedy count agrees with the loop's way of counting: jump to the next `find` hit, count it, and continue after it. |
| `Runs.AnnotatedFromFind` | app.py:40-54 | The reference annotated text, read the way the loop reads it: the text up to the next hit, the word, the annotation, then the annotated rest. |
| `Runs.AnnotatedLength` | app.py:49-52 | Annotating lengthens the text by the annotation's length once per counted occurrence. |
| `Runs.AnnotatedStillContains` | app.py:34 | A paragraph containing the word still contains it after the rebuild, and it has at least one counted occurrence. |
| `Runs.AnnotatedLonger` | app.py:52 | With a non-empty annotation, a text containing the word gets strictly longer. |
| `Docx.ShapedRunFacts` | app.py:45-52 | The run grammar, read run by run: a red run holds the word and is followed by the green annotation, a green run follows a red run holding the word, and an uncoloured run is non-empty. |
| `Highlight.FirstMentioning` | app.py:33-34 | The paragraph search returns a paragraph containing the word with no earlier one containing it. It returns nothing when no paragraph contains it. |
| `Highlight.FirstMentioningIff` | app.py:33-34 | The search finds paragraph `i` exactly when `i` is the first paragraph containing the word. It finds nothing exactly when no paragraph contains it. |
| `Highlight.FirstParagraphWith` | app.py:33-34 | The inner loop stops at the first paragraph containing the word, or runs off the end when none does. |
| `Highlight.Rewrite` | app.py:35-73 | The rebuilt paragraph starts with the empty uncoloured run that `para.text = ""` leaves, followed by the runs of the scan. Its non-green text is its old text, and its text is the annotated old text. The runs after the empty one follow the run grammar. It has one red run per occurrence, and its uncoloured runs avoid the word. |
| `Highlight.ClearedFacts` | app.py:63-67 | The empty leading run adds nothing to the paragraph's text, to its non-green text or to its red runs, and it does not contain the word. |
| `Highlight.HighlightMatch` | app.py:24-30 | One match never changes the number of paragraphs. A match that is passed over leaves the document as it was. |
| `Highlight.ApplyMatch` | app.py:25-75 | One turn of the outer loop, written with the two loops, agrees with `HighlightMatch`. |
| `Highlight.HighlightMatchRewritesFirst` | app.py:33-75 | A match that is not passed over replaces the first paragraph containing its word by that paragraph's rebuild. The rebuild's non-green text is the old text, and every other paragraph is unchanged. |
| `Highlight.HighlightMatchNoMention` | app.py:33-34 | A match whose word no paragraph contains leaves the document unchanged. |
| `Highlight.HighlightMatchChangesOnlyFirst` | app.py:33-75 | A paragraph can change only if it is the first paragraph containing the word of a match that is not passed over. |
| `Highlight.RewriteStillFirst` | app.py:33-34 | After the rebuild, the same paragraph is still the first one containing the word. |
| `Highlight.RepeatedMatchRebuildsAgain` | app.py:24-75 | Applying the same match twice rebuilds the same paragraph again. Its non-green text is then the once-annotated old text, which is strictly longer than the original. |
| `Highlight.HighlightIncorrectWords` | app.py:19-76 | The routine returns a document with as many paragraphs as it was given. |
| `Highlight.HighlightDocument` | app.py:24-76 | The outer loop, written as a loop over the matches, computes the fold of `HighlightMatch` over the matches in order. |
| `Highlight.HighlightAppend` | app.py:24 | Applying two lists of matches one after the other is the same as applying their concatenation. |
| `Highlight.Kept` | app.py:29-30 | Filtering the matches leaves only matches that are not passed over, and never more matches than there were. |
| `Highlight.KeptMembers` | app.py:29-30 | A match survives the filter exactly when it is one of the matches and is not passed over. |
| `Highlight.SkippedMatchesIgnored` | app.py:29-30 | Dropping every match that is passed over does not change the resulting document. |
| `Highlight.UntouchedParagraph` | app.py:24-75 | A paragraph whose text contains the word of no applied match comes out unchanged. |
| `Scenarios.WrongWordSlicesLikePython` | app.py:25 | On the snippet "abc":<br>- offset -2, length 1 gives "b";<br>- offset 1, length 9 gives "bc";<br>- offset 2, length -1 gives the empty word. |
| `Scenarios.RebuildSingle` | app.py:39-58 | A text with exactly one hit is rebuilt as the text before it, the red/green pair, and the text after it. |
| `Scenarios.SubstringIsHighlighted` | app.py:34-40 | Matching is by substring, not by whole word: "the" is highlighted inside "them". |
| `Scenarios.LaterMatchFindsAnnotation` | app.py:34-58 | A match for "the"→"thee" finds "the" inside the earlier annotation "(the)" of "teh(the) cat". The earlier word and annotation become the uncoloured runs "teh(" and ") cat" around the new pair. |
| `Scenarios.TwoMatchesOneParagraph` | app.py:24-58 | "teh cat" highlighted for "teh"→"the" and then for "the"→"thee" loses the first pair's colours: the result is "teh(" uncoloured, red "the", green "(thee)", then ") cat" uncoloured. |
| `Scenarios.RebuiltTwice` | app.py:24-58 | "teh cat" rebuilt twice for "teh"→"the" ends with the uncoloured run "(the) cat" after the fresh red/green pair. |

## Left out

- The call to the grammar checker (`check_grammar`, app.py:12-17) is left out. This is network I/O, and the matches are a parameter of the model.
- The web routes, file upload and download, and reading and saving the Word file (app.py:79-116) are left out. This is I/O around the routine.
- Fonts are not modelled. The RGB values, bold and italic (app.py:68-73) are folded into the colour tag: red stands for red and bold, green for green and italic.
- The model does not include the `KeyError` and `TypeError` Python raises on a malformed match. That happens when `context`, `text`, `offset`, `length` or `value` is missing or of the wrong type. A match in the model always has these fields, with the right types. A missing `replacements` list is modelled, as the empty list.
- Python strings may hold lone surrogate code points, which Dafny's `char` cannot hold. The model does not cover them.
- Nothing in `app.py` outside `highlight_incorrect_words` is modelled.
- `Highlight.HighlightMatch`: its own contract states only the paragraph count and the pass-over case. What happens to the first paragraph containing the word, and to the others, is stated by `HighlightMatchRewritesFirst`, `HighlightMatchNoMention` and `HighlightMatchChangesOnlyFirst`.
- `Highlight.HighlightIncorrectWords`: its own contract states only the paragraph count. Its behaviour is stated through `HighlightAppend`, `SkippedMatchesIgnored` and `UntouchedParagraph`, and through the per-match lemmas.
