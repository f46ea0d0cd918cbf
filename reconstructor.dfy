/** `gen_sentences`: the raw sentence reconstructor behind the "[PRE] sent"
    count. It collects the fragment before the ongoing-sentence marker of
    each continuation line, and on each closing line emits those fragments
    glued together followed by the closing line's own fragment. Only lines
    longer than two characters are considered. */
module Reconstructor {
  import opened Strings
  import opened Delimiters

  /** The fragment of a continuation line: the text before the first marker. */
  function OngoingFragment(line: string): string {
    Before(line, OosDelim)
  }

  /** The fragment of a closing line: the text before the first `//`. */
  function EosFragment(line: string): string {
    Before(line, EosDelim)
  }

  /** The string emitted for a closing line when `sfs` are pending. */
  function Closing(sfs: seq<string>, line: string): string {
    var sf := EosFragment(line);
    if sfs != [] then Join(sfs, "") + sf else sf
  }

  /** The sentences emitted from `lines` on, when `sfs` are the pending fragments. */
  function RawFrom(sfs: seq<string>, lines: seq<string>): seq<string>
    decreases |lines|
  {
    if lines == [] then []
    else if IsOngoingLine(lines[0]) then RawFrom(sfs + [OngoingFragment(lines[0])], lines[1..])
    else if IsEosLine(lines[0]) then [Closing(sfs, lines[0])] + RawFrom([], lines[1..])
    else RawFrom(sfs, lines[1..])
  }

  /** The fragments pending once `lines` have been read, starting from `sfs`. */
  function FragmentsFrom(sfs: seq<string>, lines: seq<string>): seq<string>
    decreases |lines|
  {
    if lines == [] then sfs
    else if IsOngoingLine(lines[0]) then FragmentsFrom(sfs + [OngoingFragment(lines[0])], lines[1..])
    else if IsEosLine(lines[0]) then FragmentsFrom([], lines[1..])
    else FragmentsFrom(sfs, lines[1..])
  }

  /** What `gen_sentences(lines)` returns. */
  function RawSentences(lines: seq<string>): seq<string> {
    RawFrom([], lines)
  }

  /** The fragments pending after `lines`. */
  function PendingFragments(lines: seq<string>): seq<string> {
    FragmentsFrom([], lines)
  }

  /** `gen_sentences`. */
  method Reconstruct(lines: seq<string>) returns (ss: seq<string>)
    ensures ss == RawSentences(lines)
  {
    ss := [];
    var sfs: seq<string> := [];
    for i := 0 to |lines|
      invariant ss + RawFrom(sfs, lines[i..]) == RawSentences(lines)
    {
      var line := lines[i];
      assert lines[i..][0] == line && lines[i..][1..] == lines[i + 1..];
      if |line| > |EosDelim| && EndsWith(line, OosDelim) {
        var sf := Before(line, OosDelim);
        sfs := sfs + [sf];
      } else if |line| > |EosDelim| && EndsWith(line, EosDelim) {
        var sf := Before(line, EosDelim);
        var s := if sfs != [] then Join(sfs, "") + sf else sf;
        ss := ss + [s];
        sfs := [];
      }
    }
  }

  /** Number of closing lines (longer than two characters, ending in `//`). */
  function CountEosLines(lines: seq<string>): nat
    decreases |lines|
  {
    if lines == [] then 0 else (if IsEosLine(lines[0]) then 1 else 0) + CountEosLines(lines[1..])
  }

  /** `gen_sentences` returns one string per closing line, whatever else the
      input holds. */
  lemma {:induction false} RawCount(sfs: seq<string>, lines: seq<string>)
    ensures |RawFrom(sfs, lines)| == CountEosLines(lines)
    decreases |lines|
  {
    if lines != [] {
      OngoingIsNotEos(lines[0]);
      if IsOngoingLine(lines[0]) {
        RawCount(sfs + [OngoingFragment(lines[0])], lines[1..]);
      } else if IsEosLine(lines[0]) {
        RawCount([], lines[1..]);
      } else {
        RawCount(sfs, lines[1..]);
      }
    }
  }

  /** The fragments of the continuation lines of `lines`, in order. */
  function Fragments(lines: seq<string>): seq<string>
    decreases |lines|
  {
    if lines == [] then []
    else (if IsOngoingLine(lines[0]) then [OngoingFragment(lines[0])] else []) + Fragments(lines[1..])
  }

  /** The position just after the last closing line (0 if there is none). */
  function LastEosEnd(lines: seq<string>): (e: nat)
    ensures e <= |lines|
    ensures e > 0 ==> IsEosLine(lines[e - 1])
    ensures forall j :: e <= j < |lines| ==> !IsEosLine(lines[j])
    decreases |lines|
  {
    if lines == [] then 0
    else
      var e := LastEosEnd(lines[1..]);
      assert forall j :: 1 <= j < |lines| ==> lines[j] == lines[1..][j - 1];
      if e > 0 then e + 1
      else if IsEosLine(lines[0]) then 1
      else 0
  }

  /** The pending fragments are those of the continuation lines after the
      last closing line: the list is emptied at every emission. */
  lemma {:induction false} PendingIsTrailingFragments(sfs: seq<string>, lines: seq<string>)
    ensures FragmentsFrom(sfs, lines)
         == if LastEosEnd(lines) > 0 then Fragments(lines[LastEosEnd(lines)..]) else sfs + Fragments(lines)
    decreases |lines|
  {
    if lines == [] {
      assert sfs + [] == sfs;
    } else {
      var rest := lines[1..];
      var e := LastEosEnd(rest);
      if e > 0 {
        assert rest[e..] == lines[e + 1..];
      }
      OngoingIsNotEos(lines[0]);
      if IsOngoingLine(lines[0]) {
        PendingIsTrailingFragments(sfs + [OngoingFragment(lines[0])], rest);
        assert sfs + [OngoingFragment(lines[0])] + Fragments(rest)
            == sfs + ([OngoingFragment(lines[0])] + Fragments(rest));
      } else if IsEosLine(lines[0]) {
        PendingIsTrailingFragments([], rest);
        assert [] + Fragments(rest) == Fragments(rest);
      } else {
        PendingIsTrailingFragments(sfs, rest);
      }
    }
  }

  /** Reading `a` and then `b` is reading `a + b`. */
  lemma {:induction false} RawAppend(sfs: seq<string>, a: seq<string>, b: seq<string>)
    ensures RawFrom(sfs, a + b) == RawFrom(sfs, a) + RawFrom(FragmentsFrom(sfs, a), b)
    ensures FragmentsFrom(sfs, a + b) == FragmentsFrom(FragmentsFrom(sfs, a), b)
    decreases |a|
  {
    if a == [] {
      assert a + b == b;
    } else {
      var line, rest := a[0], a[1..];
      assert (a + b)[0] == line;
      assert (a + b)[1..] == rest + b;
      if IsOngoingLine(line) {
        RawAppend(sfs + [OngoingFragment(line)], rest, b);
      } else if IsEosLine(line) {
        var c := Closing(sfs, line);
        RawAppend([], rest, b);
        assert RawFrom(sfs, a + b) == [c] + RawFrom([], rest + b);
        assert RawFrom(sfs, a) == [c] + RawFrom([], rest);
        ConsAppend(c, RawFrom([], rest), RawFrom(FragmentsFrom([], rest), b));
      } else {
        RawAppend(sfs, rest, b);
      }
    }
  }

  lemma ConsAppend(c: string, x: seq<string>, y: seq<string>)
    ensures [c] + x + y == [c] + (x + y)
  {
  }

  /** What line `i` contributes. A closing line emits the fragments of the
      continuation lines since the previous closing line, concatenated with
      no separator, followed by the text before its own first `//`, and
      leaves no fragment pending; a continuation line adds the text before
      its first marker; any other line changes nothing. */
  lemma RawSentencesStep(lines: seq<string>, i: nat)
    requires i < |lines|
    ensures IsEosLine(lines[i]) ==>
      && RawSentences(lines[..i + 1])
         == RawSentences(lines[..i])
            + [Join(Fragments(lines[..i][LastEosEnd(lines[..i])..]), "") + Before(lines[i], EosDelim)]
      && PendingFragments(lines[..i + 1]) == []
    ensures IsOngoingLine(lines[i]) ==>
      && RawSentences(lines[..i + 1]) == RawSentences(lines[..i])
      && PendingFragments(lines[..i + 1]) == PendingFragments(lines[..i]) + [Before(lines[i], OosDelim)]
    ensures !IsEosLine(lines[i]) && !IsOngoingLine(lines[i]) ==>
      && RawSentences(lines[..i + 1]) == RawSentences(lines[..i])
      && PendingFragments(lines[..i + 1]) == PendingFragments(lines[..i])
  {
    var prefix, line := lines[..i], lines[i];
    assert lines[..i + 1] == prefix + [line];
    OngoingIsNotEos(line);
    if IsEosLine(line) {
      ClosingLineStep(prefix, line);
    } else if IsOngoingLine(line) {
      OngoingLineStep(prefix, line);
    } else {
      OtherLineStep(prefix, line);
    }
  }

  /** The step of `RawSentencesStep` for a closing line. */
  lemma ClosingLineStep(prefix: seq<string>, line: string)
    requires IsEosLine(line)
    ensures RawSentences(prefix + [line])
         == RawSentences(prefix) + [Join(Fragments(prefix[LastEosEnd(prefix)..]), "") + Before(line, EosDelim)]
    ensures PendingFragments(prefix + [line]) == []
  {
    RawAppend([], prefix, [line]);
    assert [line][1..] == [];
    var sfs := PendingFragments(prefix);
    PendingFragmentsAfterLastEos(prefix);
    assert Closing(sfs, line) == Join(sfs, "") + Before(line, EosDelim);
  }

  /** The step of `RawSentencesStep` for a continuation line. */
  lemma OngoingLineStep(prefix: seq<string>, line: string)
    requires IsOngoingLine(line)
    ensures RawSentences(prefix + [line]) == RawSentences(prefix)
    ensures PendingFragments(prefix + [line]) == PendingFragments(prefix) + [Before(line, OosDelim)]
  {
    RawAppend([], prefix, [line]);
    assert [line][1..] == [];
    assert RawSentences(prefix) + [] == RawSentences(prefix);
  }

  /** The step of `RawSentencesStep` for any other line. */
  lemma OtherLineStep(prefix: seq<string>, line: string)
    requires !IsEosLine(line) && !IsOngoingLine(line)
    ensures RawSentences(prefix + [line]) == RawSentences(prefix)
    ensures PendingFragments(prefix + [line]) == PendingFragments(prefix)
  {
    RawAppend([], prefix, [line]);
    assert [line][1..] == [];
    assert RawSentences(prefix) + [] == RawSentences(prefix);
  }

  /** Starting from no fragment, the pending ones are those after the last
      closing line. */
  lemma PendingFragmentsAfterLastEos(lines: seq<string>)
    ensures PendingFragments(lines) == Fragments(lines[LastEosEnd(lines)..])
  {
    PendingIsTrailingFragments([], lines);
    if LastEosEnd(lines) == 0 {
      assert lines[0..] == lines;
      assert [] + Fragments(lines) == Fragments(lines);
    }
  }

  /** Fragments are cut at the first marker, and a bare `//` is too short to
      close anything: `["ab\\\\", "cd//e//", "//"]` gives the single sentence
      `"abcd"`. */
  lemma CutAtFirstMarker()
    ensures RawSentences(["ab\\\\", "cd//e//", "//"]) == ["abcd"]
  {
    var l0, l1, l2 := "ab\\\\", "cd//e//", "//";
    FirstLineOfCut();
    SecondLineOfCut();
    assert !IsEosLine(l2) && !IsOngoingLine(l2);
    var lines := [l0, l1, l2];
    assert lines[0] == l0 && lines[1..] == [l1, l2];
    assert [l1, l2][0] == l1 && [l1, l2][1..] == [l2] && [l2][1..] == [];
    assert [] + ["ab"] == ["ab"];
    assert Join(["ab"], "") == "ab";
    assert RawFrom([], lines) == RawFrom(["ab"], [l1, l2]);
    assert Closing(["ab"], l1) == "abcd" by {
      assert "ab" + "cd" == "abcd";
    }
    assert RawFrom(["ab"], [l1, l2]) == ["abcd"] + RawFrom([], [l2]);
  }

  /** The first line of `CutAtFirstMarker`'s input carries the fragment `"ab"`. */
  lemma FirstLineOfCut()
    ensures IsOngoingLine("ab\\\\") && !IsEosLine("ab\\\\")
    ensures OngoingFragment("ab\\\\") == "ab"
  {
    var l0 := "ab\\\\";
    assert IsOngoingLine(l0) && !IsEosLine(l0);
    assert !StartsWith(l0, OosDelim) && l0[1..] == "b\\\\";
    assert !StartsWith(l0[1..], OosDelim) && l0[1..][1..] == "\\\\";
    assert StartsWith(l0[2..], OosDelim);
  }

  /** The second line closes a sentence at its first marker, with fragment `"cd"`. */
  lemma SecondLineOfCut()
    ensures IsEosLine("cd//e//") && !IsOngoingLine("cd//e//")
    ensures EosFragment("cd//e//") == "cd"
  {
    var l1 := "cd//e//";
    assert IsEosLine(l1) && !IsOngoingLine(l1);
    assert !StartsWith(l1, EosDelim) && l1[1..] == "d//e//";
    assert !StartsWith(l1[1..], EosDelim) && l1[1..][1..] == "//e//";
    assert StartsWith(l1[2..], EosDelim);
  }
}
