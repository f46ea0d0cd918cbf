/** The integer statistics `report` logs for a run: line and raw sentence
    counts of the input, and counts and extremes over the gold records.
    `max`/`min` of an empty list raise in Python; that outcome is `None`. */
module Report {
  import opened Strings
  import opened Segmenter
  import opened Reconstructor

  datatype Option<T> = None | Some(value: T)

  /** The numbers `report` prints, in its order; the three averages are left
      out (they are floating point). */
  datatype Stats = Stats(
    lines: nat,
    preSents: nat,
    sents: nat,
    words: nat,
    chars: nat,
    minWps: nat,
    maxWps: nat,
    minCps: nat,
    maxCps: nat,
    minCpw: nat,
    maxCpw: nat)

  /** Python `max(xs, key=len)`, as a position: the first of the longest
      elements (a later element replaces the current one only when it is
      strictly longer). */
  function FirstLongest<T>(xs: seq<seq<T>>): (k: nat)
    requires xs != []
    ensures k < |xs|
    ensures forall j :: 0 <= j < |xs| ==> |xs[j]| <= |xs[k]|
    ensures forall j :: 0 <= j < k ==> |xs[j]| < |xs[k]|
    decreases |xs|
  {
    if |xs| == 1 then 0
    else
      var k := FirstLongest(xs[..|xs| - 1]);
      if |xs[|xs| - 1]| > |xs[k]| then |xs| - 1 else k
  }

  /** Python `min(xs, key=len)`, as a position: the first of the shortest
      elements. */
  function FirstShortest<T>(xs: seq<seq<T>>): (k: nat)
    requires xs != []
    ensures k < |xs|
    ensures forall j :: 0 <= j < |xs| ==> |xs[k]| <= |xs[j]|
    ensures forall j :: 0 <= j < k ==> |xs[k]| < |xs[j]|
    decreases |xs|
  {
    if |xs| == 1 then 0
    else
      var k := FirstShortest(xs[..|xs| - 1]);
      if |xs[|xs| - 1]| < |xs[k]| then |xs| - 1 else k
  }

  /** `[s.split() for s in sents]`. */
  function SplitAll(gold: seq<string>): (ss: seq<seq<string>>)
    ensures |ss| == |gold| && forall i :: 0 <= i < |gold| ==> ss[i] == Split(gold[i])
    decreases |gold|
  {
    if gold == [] then [] else [Split(gold[0])] + SplitAll(gold[1..])
  }

  /** What `report(data, gold_data)` computes before printing. */
  function Report(lines: seq<string>, gold: seq<string>): Option<Stats> {
    var ss := SplitAll(gold);
    var ws := Flatten(ss);
    if ss == [] || ws == [] then None
    else
      var most, fewest := ss[FirstLongest(ss)], ss[FirstShortest(ss)];
      Some(Stats(
        |lines|, |RawSentences(lines)|, |gold|, |ws|, TotalLength(ws),
        |fewest|, |most|, TotalLength(fewest), TotalLength(most),
        |ws[FirstShortest(ws)]|, |ws[FirstLongest(ws)]|))
  }

  /** Number of whitespace-separated words over all records. */
  function WordCount(gold: seq<string>): nat
    decreases |gold|
  {
    if gold == [] then 0 else |Split(gold[0])| + WordCount(gold[1..])
  }

  /** Number of non-whitespace characters over all records. */
  function CharCount(gold: seq<string>): nat
    decreases |gold|
  {
    if gold == [] then 0 else CountNonSpace(gold[0]) + CharCount(gold[1..])
  }

  /** Every word of every record, in order. */
  function Words(gold: seq<string>): seq<string> {
    Flatten(SplitAll(gold))
  }

  /** The word and character counts of the flattened words are the sums over
      the records. */
  lemma {:induction false} WordsCounts(gold: seq<string>)
    ensures |Words(gold)| == WordCount(gold)
    ensures TotalLength(Words(gold)) == CharCount(gold)
    decreases |gold|
  {
    if gold != [] {
      WordsCounts(gold[1..]);
      var ss := SplitAll(gold);
      assert ss[1..] == SplitAll(gold[1..]);
      TotalLengthAppend(Split(gold[0]), Words(gold[1..]));
      SplitCountsCharacters(gold[0]);
    }
  }

  /** There is no word at all exactly when no record holds a non-whitespace
      character. */
  lemma {:induction false} NoWordsIff(gold: seq<string>)
    ensures Words(gold) == [] <==> forall i :: 0 <= i < |gold| ==> CountNonSpace(gold[i]) == 0
    decreases |gold|
  {
    if gold != [] {
      NoWordsIff(gold[1..]);
      var ss := SplitAll(gold);
      assert ss[1..] == SplitAll(gold[1..]);
      SplitCountsCharacters(gold[0]);
      var w0 := Split(gold[0]);
      if w0 != [] {
        assert w0[0] in w0;
        assert |w0[0]| > 0;
        assert TotalLength(w0) >= |w0[0]|;
      }
      assert forall i :: 1 <= i < |gold| ==> gold[i] == gold[1..][i - 1];
    }
  }

  /** `report` fails (Python raises on `max` of an empty list) exactly when
      there is no record or every record is whitespace only. */
  lemma ReportFailsIff(lines: seq<string>, gold: seq<string>)
    ensures Report(lines, gold).None?
        <==> forall i :: 0 <= i < |gold| ==> CountNonSpace(gold[i]) == 0
  {
    NoWordsIff(gold);
  }

  /** The counts: input lines, raw sentences (one per closing line), records,
      words and non-whitespace characters over all records. */
  lemma ReportCounts(lines: seq<string>, gold: seq<string>)
    requires Report(lines, gold).Some?
    ensures Report(lines, gold).value.lines == |lines|
    ensures Report(lines, gold).value.preSents == CountEosLines(lines)
    ensures Report(lines, gold).value.sents == |gold|
    ensures Report(lines, gold).value.words == WordCount(gold)
    ensures Report(lines, gold).value.chars == CharCount(gold)
  {
    RawCount([], lines);
    WordsCounts(gold);
  }

  /** `max_wps` and `max_cps` come from the first record with the most words,
      `min_wps` and `min_cps` from the first record with the fewest. */
  lemma ReportSentenceExtremes(lines: seq<string>, gold: seq<string>)
    requires Report(lines, gold).Some?
    ensures var st := Report(lines, gold).value;
      exists k :: 0 <= k < |gold|
        && st.maxWps == |Split(gold[k])| && st.maxCps == CountNonSpace(gold[k])
        && (forall j :: 0 <= j < |gold| ==> |Split(gold[j])| <= st.maxWps)
        && (forall j :: 0 <= j < k ==> |Split(gold[j])| < st.maxWps)
    ensures var st := Report(lines, gold).value;
      exists k :: 0 <= k < |gold|
        && st.minWps == |Split(gold[k])| && st.minCps == CountNonSpace(gold[k])
        && (forall j :: 0 <= j < |gold| ==> st.minWps <= |Split(gold[j])|)
        && (forall j :: 0 <= j < k ==> st.minWps < |Split(gold[j])|)
  {
    var ss := SplitAll(gold);
    var hi, lo := FirstLongest(ss), FirstShortest(ss);
    SplitCountsCharacters(gold[hi]);
    SplitCountsCharacters(gold[lo]);
  }

  /** `max_cpw` and `min_cpw` are the longest and shortest word over all
      records. */
  lemma ReportWordExtremes(lines: seq<string>, gold: seq<string>)
    requires Report(lines, gold).Some?
    ensures var st := Report(lines, gold).value;
      (exists w :: w in Words(gold) && |w| == st.maxCpw)
      && (forall w :: w in Words(gold) ==> |w| <= st.maxCpw)
    ensures var st := Report(lines, gold).value;
      (exists w :: w in Words(gold) && |w| == st.minCpw)
      && (forall w :: w in Words(gold) ==> st.minCpw <= |w|)
  {
    var ws := Words(gold);
    assert ws[FirstLongest(ws)] in ws && ws[FirstShortest(ws)] in ws;
  }

  /** Total length lies between count times shortest and count times longest. */
  lemma {:induction false} FlattenBounds(ss: seq<seq<string>>, lo: nat, hi: nat)
    requires forall i :: 0 <= i < |ss| ==> lo <= |ss[i]| <= hi
    ensures lo * |ss| <= |Flatten(ss)| <= hi * |ss|
    decreases |ss|
  {
    if ss != [] {
      FlattenBounds(ss[1..], lo, hi);
      assert lo * |ss| == lo + lo * |ss[1..]|;
      assert hi * |ss| == hi + hi * |ss[1..]|;
    }
  }

  lemma {:induction false} TotalLengthBounds(ws: seq<string>, lo: nat, hi: nat)
    requires forall i :: 0 <= i < |ws| ==> lo <= |ws[i]| <= hi
    ensures lo * |ws| <= TotalLength(ws) <= hi * |ws|
    decreases |ws|
  {
    if ws != [] {
      TotalLengthBounds(ws[1..], lo, hi);
      assert lo * |ws| == lo + lo * |ws[1..]|;
      assert hi * |ws| == hi + hi * |ws[1..]|;
    }
  }

  /** For words per sentence and characters per word, the minimum is at most
      the maximum and the average lies between them: `min * n <= total <= max
      * n`. Characters per sentence have no such bound (`MaxCpsBelowMinCps`). */
  lemma ReportBounds(lines: seq<string>, gold: seq<string>)
    requires Report(lines, gold).Some?
    ensures var st := Report(lines, gold).value;
      && st.minWps <= st.maxWps && st.minCpw <= st.maxCpw
      && st.minWps * st.sents <= st.words <= st.maxWps * st.sents
      && st.minCpw * st.words <= st.chars <= st.maxCpw * st.words
  {
    var ss := SplitAll(gold);
    var ws := Flatten(ss);
    var st := Report(lines, gold).value;
    FlattenBounds(ss, st.minWps, st.maxWps);
    TotalLengthBounds(ws, st.minCpw, st.maxCpw);
  }

  /** `max_cps` is not the largest character count of a record: with a
      record of two short words followed by a record of one long word,
      `max_cps` comes from the two-word record and is below `min_cps`. */
  lemma MaxCpsBelowMinCps(w1: string, w2: string, w3: string)
    requires IsWord(w1) && IsWord(w2) && IsWord(w3) && |w1| + |w2| < |w3|
    ensures Report([], [w1 + " " + w2, w3]).Some?
    ensures Report([], [w1 + " " + w2, w3]).value.maxCps == |w1| + |w2|
    ensures Report([], [w1 + " " + w2, w3]).value.minCps == |w3|
    ensures Report([], [w1 + " " + w2, w3]).value.maxCps < Report([], [w1 + " " + w2, w3]).value.minCps
  {
    var g0, g1 := w1 + " " + w2, w3;
    assert Join([w1, w2], " ") == g0 by {
      assert [w1, w2][1..] == [w2];
    }
    SplitJoin([w1, w2], " ", "");
    assert g0 + "" == g0 && w3 + "" == w3;
    SplitJoin([w3], " ", "");
    var ss := SplitAll([g0, g1]);
    assert ss == [[w1, w2], [w3]];
    assert Flatten(ss) != [];
    assert ss[..1] == [[w1, w2]];
    assert FirstLongest(ss) == 0;
    assert FirstShortest(ss) == 1;
    assert TotalLength([w1, w2]) == |w1| + |w2| by {
      assert [w1, w2][1..] == [w2] && [w2][1..] == [];
      assert TotalLength([w2]) == |w2| + TotalLength([]);
    }
    assert TotalLength([w3]) == |w3| by {
      assert [w3][1..] == [];
    }
  }
}
