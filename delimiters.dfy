/** The ORCHID delimiters and the per-line tests that both line scanners
    (the word segmenter and the raw sentence reconstructor) apply. */
module Delimiters {
  import opened Strings

  /** End of sentence. */
  const EosDelim: string := "//"
  /** Ongoing sentence: two backslash characters. */
  const OosDelim: string := "\\\\"
  /** Separates a word from its part-of-speech tag. */
  const PosAttrDelim: string := "/"
  /** Separates the words of a single-line (SL) record. */
  const SlTokenDelim: string := " "
  /** Separates the words of a word-line (WL) record. */
  const WlTokenDelim: string := "\n"
  /** Terminates a WL record. */
  const WlDelim: string := "\n"

  const SlFormat: string := "sl"
  const WlFormat: string := "wl"

  /** A line holding one annotated word: it has a `/` and ends in neither
      marker. */
  predicate IsTokenLine(line: string) {
    Contains(line, PosAttrDelim) && !(EndsWith(line, OosDelim) || EndsWith(line, EosDelim))
  }

  /** The word of a token line: the text before its first `/`. */
  function Word(line: string): (w: string)
    ensures |w| <= |line| && w == line[..|w|]
    ensures !Contains(w, PosAttrDelim)
    ensures Contains(line, PosAttrDelim) ==> |w| < |line| && line[|w|] == '/'
  {
    BeforeHasNoSep(line, PosAttrDelim);
    Before(line, PosAttrDelim)
  }

  /** A line the segmenter treats as a sentence boundary: not a token line,
      but `//` occurs in it somewhere. */
  predicate IsCloserLine(line: string) {
    !IsTokenLine(line) && Contains(line, EosDelim)
  }

  /** A continuation line for the raw sentence reconstructor: longer than the
      marker and ending in the ongoing-sentence marker. */
  predicate IsOngoingLine(line: string) {
    |line| > |EosDelim| && EndsWith(line, OosDelim)
  }

  /** A closing line for the raw sentence reconstructor: longer than the
      marker and ending in `//`. */
  predicate IsEosLine(line: string) {
    |line| > |EosDelim| && EndsWith(line, EosDelim)
  }

  /** No line ends in both markers, so the reconstructor's two branches never overlap. */
  lemma OngoingIsNotEos(line: string)
    ensures !(IsOngoingLine(line) && IsEosLine(line))
  {
  }

  /** A bare `//` is not a token line and counts as a boundary for the segmenter,
      while the reconstructor ignores it for being too short. */
  lemma BareEosLine()
    ensures IsCloserLine(EosDelim) && !IsEosLine(EosDelim)
  {
    assert StartsWith(EosDelim, PosAttrDelim);
    assert StartsWith(EosDelim, EosDelim);
  }

  /** A word without `/` followed by `/` and a tag that ends in neither `/`
      nor a backslash is a token line whose word is that word. */
  lemma TaggedWord(w: string, tag: string)
    requires '/' !in w
    requires tag != [] && tag[|tag| - 1] != '/' && tag[|tag| - 1] != '\\'
    ensures IsTokenLine(w + PosAttrDelim + tag)
    ensures Word(w + PosAttrDelim + tag) == w
  {
    var line := w + PosAttrDelim + tag;
    forall j | 0 <= j < |w|
      ensures !StartsWith(line[j..], PosAttrDelim)
    {
      assert line[j..][0] == w[j];
    }
    assert line[|w|..][..1] == PosAttrDelim;
    BeforeAt(line, PosAttrDelim, |w|);
    assert line[..|w|] == w;
    ContainsAt(line, PosAttrDelim);
    assert line[|line| - 1] == tag[|tag| - 1];
    assert !EndsWith(line, EosDelim) by {
      assert line[|line| - 2..][1] == line[|line| - 1];
    }
    assert !EndsWith(line, OosDelim) by {
      assert line[|line| - 2..][1] == line[|line| - 1];
    }
  }

  /** A line can hold `//` and still be a token line: `w//m/tag`, with `w`
      free of `/` and a tag ending in neither `/` nor a backslash, gives the
      segmenter the word `w` and closes no sentence. */
  lemma EosInsideTokenLine(w: string, m: string, tag: string)
    requires '/' !in w
    requires tag != [] && tag[|tag| - 1] != '/' && tag[|tag| - 1] != '\\'
    ensures IsTokenLine(w + EosDelim + m + PosAttrDelim + tag)
    ensures !IsCloserLine(w + EosDelim + m + PosAttrDelim + tag)
    ensures Contains(w + EosDelim + m + PosAttrDelim + tag, EosDelim)
    ensures Word(w + EosDelim + m + PosAttrDelim + tag) == w
  {
    TaggedWordAfterEos(w, m, tag);
    EosAfterWord(w, m, tag);
  }

  /** The token-line half of `EosInsideTokenLine`. */
  lemma TaggedWordAfterEos(w: string, m: string, tag: string)
    requires '/' !in w
    requires tag != [] && tag[|tag| - 1] != '/' && tag[|tag| - 1] != '\\'
    ensures IsTokenLine(w + EosDelim + m + PosAttrDelim + tag)
    ensures Word(w + EosDelim + m + PosAttrDelim + tag) == w
  {
    var tail := PosAttrDelim + m + PosAttrDelim + tag;
    assert w + EosDelim + m + PosAttrDelim + tag == w + PosAttrDelim + tail;
    assert tail[|tail| - 1] == tag[|tag| - 1];
    TaggedWord(w, tail);
  }

  /** The `//` of `EosInsideTokenLine` makes the line contain the marker. */
  lemma EosAfterWord(w: string, m: string, tag: string)
    ensures Contains(w + EosDelim + m + PosAttrDelim + tag, EosDelim)
  {
    var line := w + EosDelim + m + PosAttrDelim + tag;
    assert line[|w|..|w| + 2] == EosDelim;
    ContainsAtIndex(line, EosDelim, |w|);
  }
}
