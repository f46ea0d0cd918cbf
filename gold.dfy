/** `gen_gold_data`, `gen_gold_data_SL` and `gen_gold_data_WL`: segment the
    lines into sentences, drop the sentences with fewer words than the
    threshold, and write each remaining one as a single-line (SL) record, or
    as a word-line (WL) record with one word per line. */
module Gold {
  import opened Strings
  import opened Delimiters
  import opened Segmenter
  import opened Decoder

  /** The sentences of `wss` with at least `threshold` words, in order. */
  function Retained(wss: seq<seq<string>>, threshold: int): seq<seq<string>>
    decreases |wss|
  {
    if wss == [] then []
    else
      var last := wss[|wss| - 1];
      Retained(wss[..|wss| - 1], threshold) + (if |last| >= threshold then [last] else [])
  }

  /** The SL record of one sentence: its words joined with a space, decoded. */
  function SlRecord(ws: seq<string>): string {
    Decode(Join(ws, SlTokenDelim))
  }

  /** The WL record of one sentence: the words of its SL record, one per line,
      with a final line break. */
  function WlRecord(ws: seq<string>): string {
    Join(Split(SlRecord(ws)), WlTokenDelim) + WlDelim
  }

  function SlRecords(wss: seq<seq<string>>): (r: seq<string>)
    ensures |r| == |wss| && forall i :: 0 <= i < |wss| ==> r[i] == SlRecord(wss[i])
  {
    seq(|wss|, i requires 0 <= i < |wss| => SlRecord(wss[i]))
  }

  function WlRecords(wss: seq<seq<string>>): (r: seq<string>)
    ensures |r| == |wss| && forall i :: 0 <= i < |wss| ==> r[i] == WlRecord(wss[i])
  {
    seq(|wss|, i requires 0 <= i < |wss| => WlRecord(wss[i]))
  }

  /** What `gen_gold_data_SL(data, threshold)` returns. */
  function SlGold(data: seq<string>, threshold: int): seq<string> {
    SlRecords(Retained(Swords(data), threshold))
  }

  /** What `gen_gold_data_WL(data, threshold)` returns. */
  function WlGold(data: seq<string>, threshold: int): seq<string> {
    WlRecords(Retained(Swords(data), threshold))
  }

  /** `gen_gold_data_SL`. */
  method GenGoldDataSL(data: seq<string>, threshold: int := 1) returns (gs: seq<string>)
    ensures gs == SlGold(data, threshold)
  {
    gs := [];
    var wss := SegmentWords(data);
    for i := 0 to |wss|
      invariant gs == SlRecords(Retained(wss[..i], threshold))
    {
      var ws := wss[i];
      RetainedStep(wss, i, threshold);
      if |ws| < threshold {
        continue;
      }
      SlRecordsSnoc(Retained(wss[..i], threshold), ws);
      var l := Join(ws, SlTokenDelim);
      l := DecodeLine(l);
      gs := gs + [l];
    }
    assert wss[..|wss|] == wss;
  }

  /** `gen_gold_data_WL`. */
  method GenGoldDataWL(data: seq<string>, threshold: int := 1) returns (gs: seq<string>)
    ensures gs == WlGold(data, threshold)
  {
    gs := [];
    var wss := SegmentWords(data);
    for i := 0 to |wss|
      invariant gs == WlRecords(Retained(wss[..i], threshold))
    {
      var ws := wss[i];
      RetainedStep(wss, i, threshold);
      if |ws| < threshold {
        continue;
      }
      WlRecordsSnoc(Retained(wss[..i], threshold), ws);
      var l := Join(ws, SlTokenDelim);
      l := DecodeLine(l);
      var wls := Split(l);
      var wl := Join(wls, WlTokenDelim) + WlDelim;
      gs := gs + [wl];
    }
    assert wss[..|wss|] == wss;
  }

  /** Sentence `i` is kept after the sentences kept before it, or dropped. */
  lemma RetainedStep(wss: seq<seq<string>>, i: nat, threshold: int)
    requires i < |wss|
    ensures |wss[i]| >= threshold ==> Retained(wss[..i + 1], threshold) == Retained(wss[..i], threshold) + [wss[i]]
    ensures |wss[i]| < threshold ==> Retained(wss[..i + 1], threshold) == Retained(wss[..i], threshold)
  {
    assert wss[..i + 1][..i] == wss[..i];
  }

  lemma SlRecordsSnoc(wss: seq<seq<string>>, ws: seq<string>)
    ensures SlRecords(wss + [ws]) == SlRecords(wss) + [SlRecord(ws)]
  {
  }

  lemma WlRecordsSnoc(wss: seq<seq<string>>, ws: seq<string>)
    ensures WlRecords(wss + [ws]) == WlRecords(wss) + [WlRecord(ws)]
  {
  }

  /** `gen_gold_data`: dispatch on the output format; any other format gives
      back the input lines. */
  method GenGoldData(data: seq<string>, format: string, threshold: int := 1) returns (gs: seq<string>)
    ensures format == SlFormat ==> gs == SlGold(data, threshold)
    ensures format == WlFormat ==> gs == WlGold(data, threshold)
    ensures format != SlFormat && format != WlFormat ==> gs == data
  {
    gs := data;
    if format == SlFormat {
      gs := GenGoldDataSL(data, threshold);
    } else if format == WlFormat {
      gs := GenGoldDataWL(data, threshold);
    }
  }

  /** A sentence is retained exactly when it has at least `threshold` words. */
  lemma {:induction false} RetainedIff(wss: seq<seq<string>>, threshold: int)
    ensures forall ws :: ws in Retained(wss, threshold) <==> ws in wss && |ws| >= threshold
    decreases |wss|
  {
    if wss != [] {
      var init := wss[..|wss| - 1];
      RetainedIff(init, threshold);
      assert wss == init + [wss[|wss| - 1]];
    }
  }

  /** Filtering keeps the relative order: it distributes over concatenation. */
  lemma {:induction false} RetainedAppend(a: seq<seq<string>>, b: seq<seq<string>>, threshold: int)
    ensures Retained(a + b, threshold) == Retained(a, threshold) + Retained(b, threshold)
    decreases |b|
  {
    if b == [] {
      assert a + b == a;
    } else {
      var init := b[..|b| - 1];
      RetainedAppend(a, init, threshold);
      assert (a + b)[..|a + b| - 1] == a + init;
      assert (a + b)[|a + b| - 1] == b[|b| - 1];
    }
  }

  /** Filtering never adds a sentence. */
  lemma {:induction false} RetainedShrinks(wss: seq<seq<string>>, threshold: int)
    ensures |Retained(wss, threshold)| <= |wss|
    decreases |wss|
  {
    if wss != [] {
      RetainedShrinks(wss[..|wss| - 1], threshold);
    }
  }

  /** Raising the threshold keeps a subset, in order: filtering at `t1` and
      then at a larger `t2` is filtering at `t2`. */
  lemma {:induction false} RetainedMonotone(wss: seq<seq<string>>, t1: int, t2: int)
    requires t1 <= t2
    ensures Retained(Retained(wss, t1), t2) == Retained(wss, t2)
    ensures |Retained(wss, t2)| <= |Retained(wss, t1)|
    decreases |wss|
  {
    if wss != [] {
      var init, last := wss[..|wss| - 1], wss[|wss| - 1];
      RetainedMonotone(init, t1, t2);
      var one: seq<seq<string>> := if |last| >= t1 then [last] else [];
      RetainedAppend(Retained(init, t1), one, t2);
      if |last| >= t1 {
        assert one[..0] == [];
      }
      RetainedShrinks(Retained(wss, t1), t2);
    }
  }

  /** A threshold no sentence falls below keeps every sentence. */
  lemma {:induction false} RetainedAll(wss: seq<seq<string>>, threshold: int)
    requires forall i :: 0 <= i < |wss| ==> |wss[i]| >= threshold
    ensures Retained(wss, threshold) == wss
    decreases |wss|
  {
    if wss != [] {
      RetainedAll(wss[..|wss| - 1], threshold);
      assert wss == wss[..|wss| - 1] + [wss[|wss| - 1]];
    }
  }

  /** With the default threshold 1 (or any smaller one) every segmented
      sentence gives a record: one per boundary line reached while words are
      pending. */
  lemma DefaultThresholdKeepsAll(data: seq<string>, threshold: int)
    requires threshold <= 1
    ensures Retained(Swords(data), threshold) == Swords(data)
    ensures |SlGold(data, threshold)| == |WlGold(data, threshold)| == CountCloses(data, |data|)
  {
    var wss := Swords(data);
    SwordsNonEmpty([], data);
    forall i | 0 <= i < |wss|
      ensures |wss[i]| >= threshold
    {
      assert wss[i] in wss;
    }
    RetainedAll(wss, threshold);
    SwordsCount(data, |data|);
    assert data[..|data|] == data;
  }

  /** An SL record never holds two adjacent spaces. */
  lemma SlRecordHasNoSpaceRun(ws: seq<string>)
    ensures !HasDoubleSpace(SlRecord(ws))
  {
    DecodeNoDoubleSpace(Join(ws, SlTokenDelim));
  }

  /** The WL record carries exactly the words of the SL record. */
  lemma WlSameWordsAsSl(ws: seq<string>)
    ensures Split(WlRecord(ws)) == Split(SlRecord(ws))
  {
    var words := Split(SlRecord(ws));
    forall i | 0 <= i < |words|
      ensures IsWord(words[i])
    {
      assert words[i] in words;
    }
    SplitJoin(words, WlTokenDelim, WlDelim);
  }

  /** A sentence made only of `<space>` placeholders gives the WL record `"\n"`
      and the SL record `""` (one word) or `" "` (more words). */
  lemma SpaceOnlySentence(ws: seq<string>)
    requires OnlySpacePlaceholders(ws)
    ensures SlRecord(ws) == Spaces(if |ws| == 1 then 0 else 1)
    ensures WlRecord(ws) == WlDelim
  {
    DecodeOnlySpacePlaceholders(ws);
    var sl := SlRecord(ws);
    if |ws| == 1 {
      assert sl == [];
    } else {
      assert sl == [' '];
      assert sl[1..] == [];
    }
    assert Split(sl) == [];
  }

  /** A word that passes the decoder untouched: no whitespace, no `/`, and
      none of the characters a key can start with. */
  predicate IsPlainWord(w: string) {
    IsWord(w) && forall j :: 0 <= j < |w| ==> w[j] != '/' && !IsKeyLead(w[j])
  }

  /** The lines of a two-word sentence: each word tagged on its own line,
      then `//`. */
  lemma TwoWordLines(w1: string, w2: string, tag1: string, tag2: string)
    requires IsPlainWord(w1) && IsPlainWord(w2)
    requires tag1 != [] && tag1[|tag1| - 1] != '/' && tag1[|tag1| - 1] != '\\'
    requires tag2 != [] && tag2[|tag2| - 1] != '/' && tag2[|tag2| - 1] != '\\'
    ensures Swords([w1 + PosAttrDelim + tag1, w2 + PosAttrDelim + tag2, EosDelim]) == [[w1, w2]]
  {
    var l0, l1 := w1 + PosAttrDelim + tag1, w2 + PosAttrDelim + tag2;
    TaggedWord(w1, tag1);
    TaggedWord(w2, tag2);
    BareEosLine();
    OneSentence([l0, l1], EosDelim);
    assert [l0, l1] + [EosDelim] == [l0, l1, EosDelim];
    TwoTokens(l0, l1);
  }

  /** The words of two token lines. */
  lemma TwoTokens(l0: string, l1: string)
    requires IsTokenLine(l0) && IsTokenLine(l1)
    ensures Tokens([l0, l1]) == [Word(l0), Word(l1)]
  {
    assert [l0, l1][1..] == [l1] && [l1][1..] == [];
    assert Tokens([l1]) == [Word(l1)] + Tokens([]);
    assert Tokens([l0, l1]) == [Word(l0)] + Tokens([l1]);
  }

  /** Two words joined by a separator. */
  lemma JoinTwo(w1: string, w2: string, sep: string)
    ensures Join([w1, w2], sep) == w1 + sep + w2
  {
    assert [w1, w2][1..] == [w2];
    assert [w2][1..] == [];
  }

  /** Two plain words joined by a space pass the decoder unchanged. */
  lemma TwoWordText(w1: string, w2: string)
    requires IsPlainWord(w1) && IsPlainWord(w2)
    ensures Decode(w1 + " " + w2) == w1 + " " + w2
  {
    var text := w1 + " " + w2;
    forall i | 0 <= i < |text| - 1
      ensures !(text[i] == ' ' && text[i + 1] == ' ')
    {
      if i < |w1| {
        assert text[i] == w1[i];
      } else {
        assert text[i + 1] == w2[i - |w1|];
      }
    }
    forall j | 0 <= j < |text|
      ensures !IsKeyLead(text[j])
    {
      if j < |w1| {
        assert text[j] == w1[j];
      } else if j > |w1| {
        assert text[j] == w2[j - |w1| - 1];
      }
    }
    PlainTextDecodesToItself(text);
  }

  /** Two plain words give the SL record `w1 w2` and the WL record that puts
      them on two lines. */
  lemma TwoWordRecords(w1: string, w2: string)
    requires IsPlainWord(w1) && IsPlainWord(w2)
    ensures SlRecord([w1, w2]) == w1 + " " + w2
    ensures WlRecord([w1, w2]) == w1 + "\n" + w2 + "\n"
  {
    JoinTwo(w1, w2, SlTokenDelim);
    TwoWordText(w1, w2);
    TwoWordSplit(w1, w2);
    JoinTwo(w1, w2, WlTokenDelim);
  }

  /** `split()` gives back the two words of `w1 w2`. */
  lemma TwoWordSplit(w1: string, w2: string)
    requires IsWord(w1) && IsWord(w2)
    ensures Split(w1 + " " + w2) == [w1, w2]
  {
    JoinTwo(w1, w2, " ");
    SplitJoin([w1, w2], " ", "");
    assert w1 + " " + w2 + "" == w1 + " " + w2;
  }

  /** Two plain words tagged on their own lines and closed by `//` give the
      SL record `w1 w2` and the WL record `w1\nw2\n`. */
  lemma TwoWordSentence(w1: string, w2: string)
    requires IsPlainWord(w1) && IsPlainWord(w2)
    ensures SlGold([w1 + "/NN", w2 + "/VV", EosDelim], 1) == [w1 + " " + w2]
    ensures WlGold([w1 + "/NN", w2 + "/VV", EosDelim], 1) == [w1 + "\n" + w2 + "\n"]
  {
    TwoWordLines(w1, w2, "NN", "VV");
    assert w1 + PosAttrDelim + "NN" == w1 + "/NN" && w2 + PosAttrDelim + "VV" == w2 + "/VV";
    var wss := [[w1, w2]];
    assert Retained(wss, 1) == wss by {
      assert wss[..0] == [];
    }
    TwoWordRecords(w1, w2);
  }
}
