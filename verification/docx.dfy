/**
 A word-processing paragraph reduced to what the highlighter touches: an
 ordered list of runs, each holding some text and one of three colour tags.
 Red runs are also bold and green runs italic in the document; both styles
 go with the colour and are not tracked separately.
 */
module Docx {

  /** The colour of a run: none set, the red of a wrong word, or the green of a suggestion. */
  datatype Colour = Plain | Red | Green

  datatype Run = Run(text: string, colour: Colour)

  datatype Paragraph = Paragraph(runs: seq<Run>)

  /** A paragraph's text, as the document reports it: the run texts joined in order. */
  function Text(runs: seq<Run>): string
  {
    if runs == [] then [] else runs[0].text + Text(runs[1..])
  }

  /** The text of the runs that are not green: what the paragraph read before the
      suggestions were inserted. */
  function PlainText(runs: seq<Run>): string
  {
    if runs == [] then []
    else if runs[0].colour == Green then PlainText(runs[1..])
    else runs[0].text + PlainText(runs[1..])
  }

  /** The number of red runs. */
  function RedCount(runs: seq<Run>): nat
  {
    if runs == [] then 0
    else (if runs[0].colour == Red then 1 else 0) + RedCount(runs[1..])
  }

  /** The run lists a rebuild can produce, as a grammar: `(Plain? Red Green)* Plain?`,
      where every uncoloured run is non-empty, every red run holds `w` and every green
      run holds `annotation`. */
  predicate Shaped(runs: seq<Run>, w: string, annotation: string)
    decreases |runs|
  {
    if runs == [] then true
    else match runs[0].colour
      case Plain =>
        && runs[0].text != []
        && (|runs| == 1 || runs[1].colour == Red)
        && Shaped(runs[1..], w, annotation)
      case Red =>
        && runs[0].text == w
        && |runs| >= 2
        && runs[1] == Run(annotation, Green)
        && Shaped(runs[2..], w, annotation)
      case Green => false
  }

  lemma {:induction false} TextAppend(a: seq<Run>, b: seq<Run>)
    ensures Text(a + b) == Text(a) + Text(b)
    decreases |a|
  {
    if a == [] {
      assert a + b == b;
    } else {
      assert (a + b)[0] == a[0] && (a + b)[1..] == a[1..] + b;
      TextAppend(a[1..], b);
    }
  }

  lemma {:induction false} PlainTextAppend(a: seq<Run>, b: seq<Run>)
    ensures PlainText(a + b) == PlainText(a) + PlainText(b)
    decreases |a|
  {
    if a == [] {
      assert a + b == b;
    } else {
      assert (a + b)[0] == a[0] && (a + b)[1..] == a[1..] + b;
      PlainTextAppend(a[1..], b);
    }
  }

  lemma {:induction false} RedCountAppend(a: seq<Run>, b: seq<Run>)
    ensures RedCount(a + b) == RedCount(a) + RedCount(b)
    decreases |a|
  {
    if a == [] {
      assert a + b == b;
    } else {
      assert (a + b)[0] == a[0] && (a + b)[1..] == a[1..] + b;
      RedCountAppend(a[1..], b);
    }
  }

  /** The grammar, read run by run: a red run holds `w` and is directly followed by the
      green annotation; a green run directly follows a red run holding `w`; an uncoloured
      run is non-empty and is followed by a red run or by nothing. */
  lemma {:induction false} ShapedRunFacts(runs: seq<Run>, w: string, annotation: string)
    requires Shaped(runs, w, annotation)
    ensures forall i | 0 <= i < |runs| && runs[i].colour == Red ::
              runs[i].text == w && i + 1 < |runs| && runs[i + 1] == Run(annotation, Green)
    ensures forall i | 0 <= i < |runs| && runs[i].colour == Green ::
              0 < i && runs[i - 1] == Run(w, Red)
    ensures forall i | 0 <= i < |runs| && runs[i].colour == Plain ::
              runs[i].text != [] && (i + 1 == |runs| || runs[i + 1].colour == Red)
    decreases |runs|
  {
    if runs == [] {
    } else if runs[0].colour == Plain {
      var rest := runs[1..];
      ShapedRunFacts(rest, w, annotation);
      assert forall i | 1 <= i < |runs| :: runs[i] == rest[i - 1];
    } else {
      var rest := runs[2..];
      ShapedRunFacts(rest, w, annotation);
      assert forall i | 2 <= i < |runs| :: runs[i] == rest[i - 2];
    }
  }

}
