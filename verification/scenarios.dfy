/**
 Worked cases of the rebuild on short texts, showing how it behaves where a
 reader might expect something else: the context slice with out-of-range
 bounds, a word found inside a longer word, and a paragraph rebuilt a second
 time for the same match.
 */
module Scenarios {

  import opened PyStr
  import opened Docx
  import opened LanguageTool
  import opened Runs

  /** The context slice follows Python: a negative offset counts from the end of the
      snippet, a length that runs past the end is cut short, and an end before the
      start gives the empty word. */
  lemma WrongWordSlicesLikePython()
    ensures WrongWord(Match(Context("abc", -2, 1), [])) == "b"
    ensures WrongWord(Match(Context("abc", 1, 9), [])) == "bc"
    ensures WrongWord(Match(Context("abc", 2, -1), [])) == ""
  {
  }

  /** A text in which the search finds `w` at `idx` and nothing after it is rebuilt as
      the text before it, the highlighted pair, and the text after it. */
  lemma RebuildSingle(text: string, w: string, suggestion: string, idx: nat)
    requires |w| > 0 && Find(text, w, 0) == idx && Find(text, w, idx + |w|) == -1
    ensures idx + |w| <= |text|
    ensures Rebuild(text, w, suggestion) ==
      Gap(text, 0, idx) + Highlighted(w, suggestion) + Gap(text, idx + |w|, |text|)
  {
    RebuildFromStep(text, w, suggestion, 0);
    assert RebuildFrom(text, w, suggestion, idx + |w|) == Gap(text, idx + |w|, |text|);
  }

  /** The wrong word is found inside longer words: "the" is highlighted within "them". */
  lemma SubstringIsHighlighted()
    ensures Rebuild("them", "the", "x") == [Run("the", Red), Run("(x)", Green), Run("m", Plain)]
  {
    assert Find("them", "the", 0) == 0;
    assert Find("them", "the", 3) == -1;
    RebuildSingle("them", "the", "x", 0);
    assert "them"[3..4] == "m";
    assert Gap("them", 0, 0) == [];
    assert Annotation("x") == "(x)";
  }

  lemma RebuildTehCat()
    ensures Rebuild("teh cat", "teh", "the") == [Run("teh", Red), Run("(the)", Green), Run(" cat", Plain)]
  {
    assert Find("teh cat", "teh", 0) == 0;
    assert Find("teh cat", "teh", 3) == -1;
    RebuildSingle("teh cat", "teh", "the", 0);
    assert "teh cat"[3..7] == " cat";
    assert Gap("teh cat", 0, 0) == [];
    assert Annotation("the") == "(the)";
  }

  lemma TextOfTehCat()
    ensures Text([Run("teh", Red), Run("(the)", Green), Run(" cat", Plain)]) == "teh(the) cat"
  {
    var runs := [Run("teh", Red), Run("(the)", Green), Run(" cat", Plain)];
    assert runs[1..][1..][1..] == [];
  }

  lemma RebuildTehTheCat()
    ensures Rebuild("teh(the) cat", "teh", "the") == [Run("teh", Red), Run("(the)", Green), Run("(the) cat", Plain)]
  {
    assert Find("teh(the) cat", "teh", 0) == 0;
    assert Find("teh(the) cat", "teh", 3) == -1;
    RebuildSingle("teh(the) cat", "teh", "the", 0);
    assert "teh(the) cat"[3..12] == "(the) cat";
    assert Gap("teh(the) cat", 0, 0) == [];
    assert Annotation("the") == "(the)";
  }

  /** Rebuilding a paragraph a second time for the same word (which the document loop does
      when a match is reported twice) annotates the word again, and the first annotation
      turns into uncoloured text: "teh cat" ends as "teh(the)(the) cat". */
  lemma RebuiltTwice()
    ensures Rebuild(Text(Rebuild("teh cat", "teh", "the")), "teh", "the") ==
      [Run("teh", Red), Run("(the)", Green), Run("(the) cat", Plain)]
  {
    RebuildTehCat();
    TextOfTehCat();
    RebuildTehTheCat();
  }

  /** A later match whose word occurs inside an earlier annotation rebuilds the paragraph
      from its annotated text: "the" is found inside "(the)", and the earlier red "teh"
      and green "(the)" become uncoloured text around the new pair. */
  lemma LaterMatchFindsAnnotation()
    ensures Rebuild("teh(the) cat", "the", "thee") ==
      [Run("teh(", Plain), Run("the", Red), Run("(thee)", Green), Run(") cat", Plain)]
  {
    var text := "teh(the) cat";
    OccursAtIff(text, "the", 0);
    OccursAtIff(text, "the", 1);
    OccursAtIff(text, "the", 2);
    OccursAtIff(text, "the", 3);
    OccursAtIff(text, "the", 4);
    assert Find(text, "the", 4) == 4;
    assert Find(text, "the", 0) == 4;
    assert Find(text, "the", 7) == -1;
    RebuildSingle(text, "the", "thee", 4);
    assert text[0..4] == "teh(";
    assert text[7..12] == ") cat";
    assert Annotation("thee") == "(thee)";
  }

  /** "teh cat" highlighted for "teh"→"the" and then for "the"→"thee": the second match
      finds its word inside the first annotation, and the first pair loses its colours. */
  lemma TwoMatchesOneParagraph()
    ensures Rebuild(Text(Rebuild("teh cat", "teh", "the")), "the", "thee") ==
      [Run("teh(", Plain), Run("the", Red), Run("(thee)", Green), Run(") cat", Plain)]
  {
    RebuildTehCat();
    TextOfTehCat();
    LaterMatchFindsAnnotation();
  }

}
