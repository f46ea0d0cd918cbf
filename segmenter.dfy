/** `gen_swords`: the word segmenter. One pass over the lines keeps a list of
    pending words; a token line adds its word, and a non-token line holding
    `//` closes the sentence when words are pending. Words still pending at
    the end of the input are dropped. */
module Segmenter {
  import opened Strings
  import opened Delimiters

  /** The words of the token lines of `lines`, in input order. */
  function Tokens(lines: seq<string>): seq<string>
    decreases |lines|
  {
    if lines == [] then []
    else (if IsTokenLine(lines[0]) then [Word(lines[0])] else []) + Tokens(lines[1..])
  }

  lemma {:induction false} TokensAppend(a: seq<string>, b: seq<string>)
    ensures Tokens(a + b) == Tokens(a) + Tokens(b)
    decreases |a|
  {
    if a == [] {
      assert a + b == b;
    } else {
      var head: seq<string> := if IsTokenLine(a[0]) then [Word(a[0])] else [];
      assert (a + b)[0] == a[0];
      assert (a + b)[1..] == a[1..] + b;
      TokensAppend(a[1..], b);
      assert head + Tokens(a[1..]) + Tokens(b) == head + (Tokens(a[1..]) + Tokens(b));
    }
  }

  /** All sentences, one after the other. */
  function Flatten(wss: seq<seq<string>>): seq<string>
    decreases |wss|
  {
    if wss == [] then [] else wss[0] + Flatten(wss[1..])
  }

  /** The sentences the loop emits from `lines` on, when `ws` are the words
      pending before it. */
  function SwordsFrom(ws: seq<string>, lines: seq<string>): seq<seq<string>>
    decreases |lines|
  {
    if lines == [] then []
    else if IsTokenLine(lines[0]) then SwordsFrom(ws + [Word(lines[0])], lines[1..])
    else if Contains(lines[0], EosDelim) && ws != [] then [ws] + SwordsFrom([], lines[1..])
    else SwordsFrom(ws, lines[1..])
  }

  /** The words still pending once the loop has read `lines`, starting from `ws`. */
  function PendingFrom(ws: seq<string>, lines: seq<string>): seq<string>
    decreases |lines|
  {
    if lines == [] then ws
    else if IsTokenLine(lines[0]) then PendingFrom(ws + [Word(lines[0])], lines[1..])
    else if Contains(lines[0], EosDelim) && ws != [] then PendingFrom([], lines[1..])
    else PendingFrom(ws, lines[1..])
  }

  /** What `gen_swords(lines)` returns. */
  function Swords(lines: seq<string>): seq<seq<string>> {
    SwordsFrom([], lines)
  }

  /** The pending word list after `lines`: the words `gen_swords` would drop
      if the input ended here. */
  function Pending(lines: seq<string>): seq<string> {
    PendingFrom([], lines)
  }

  /** `gen_swords`. */
  method SegmentWords(lines: seq<string>) returns (wss: seq<seq<string>>)
    ensures wss == Swords(lines)
  {
    wss := [];
    var ws: seq<string> := [];
    for i := 0 to |lines|
      invariant wss + SwordsFrom(ws, lines[i..]) == Swords(lines)
    {
      var line := lines[i];
      assert lines[i..][0] == line && lines[i..][1..] == lines[i + 1..];
      if IsTokenLine(line) {
        var w := Before(line, PosAttrDelim);
        ws := ws + [w];
      } else if Contains(line, EosDelim) && ws != [] {
        wss := wss + [ws];
        ws := [];
      }
    }
  }

  /** Every sentence `gen_swords` returns has at least one word. */
  lemma {:induction false} SwordsNonEmpty(ws: seq<string>, lines: seq<string>)
    ensures forall s :: s in SwordsFrom(ws, lines) ==> s != []
    decreases |lines|
  {
    if lines != [] {
      if IsTokenLine(lines[0]) {
        SwordsNonEmpty(ws + [Word(lines[0])], lines[1..]);
      } else if Contains(lines[0], EosDelim) && ws != [] {
        SwordsNonEmpty([], lines[1..]);
      } else {
        SwordsNonEmpty(ws, lines[1..]);
      }
    }
  }

  /** No word is lost or reordered: the emitted sentences followed by the
      pending words are the pending words followed by the words of the token
      lines, in input order. */
  lemma {:induction false} SwordsConservation(ws: seq<string>, lines: seq<string>)
    ensures Flatten(SwordsFrom(ws, lines)) + PendingFrom(ws, lines) == ws + Tokens(lines)
    decreases |lines|
  {
    if lines == [] {
      assert ws + [] == ws;
    } else if IsTokenLine(lines[0]) {
      var w, rest := Word(lines[0]), lines[1..];
      SwordsConservation(ws + [w], rest);
      assert Tokens(lines) == [w] + Tokens(rest);
      assert ws + [w] + Tokens(rest) == ws + ([w] + Tokens(rest));
    } else if Contains(lines[0], EosDelim) && ws != [] {
      var rest := lines[1..];
      SwordsConservation([], rest);
      assert SwordsFrom(ws, lines) == [ws] + SwordsFrom([], rest);
      assert Tokens(lines) == Tokens(rest);
      ConservedByCloser(ws, SwordsFrom([], rest), PendingFrom([], rest), Tokens(rest));
    } else {
      SwordsConservation(ws, lines[1..]);
      assert Tokens(lines) == Tokens(lines[1..]);
    }
  }

  /** Closing the pending words `ws` as a sentence puts them in front of
      everything read after it. */
  lemma ConservedByCloser(ws: seq<string>, after: seq<seq<string>>, pending: seq<string>, tokens: seq<string>)
    requires Flatten(after) + pending == [] + tokens
    ensures Flatten([ws] + after) + pending == ws + tokens
  {
    FlattenCons(ws, after);
    assert ws + Flatten(after) + pending == ws + (Flatten(after) + pending);
  }

  /** Flattening a sentence in front of others puts its words in front. */
  lemma FlattenCons(ws: seq<string>, wss: seq<seq<string>>)
    ensures Flatten([ws] + wss) == ws + Flatten(wss)
  {
    assert ([ws] + wss)[0] == ws && ([ws] + wss)[1..] == wss;
  }

  /** The position just after the last boundary line (0 if there is none). */
  function LastCloserEnd(lines: seq<string>): (e: nat)
    ensures e <= |lines|
    ensures e > 0 ==> IsCloserLine(lines[e - 1])
    ensures forall j :: e <= j < |lines| ==> !IsCloserLine(lines[j])
    decreases |lines|
  {
    if lines == [] then 0
    else
      var e := LastCloserEnd(lines[1..]);
      assert forall j :: 1 <= j < |lines| ==> lines[j] == lines[1..][j - 1];
      if e > 0 then e + 1
      else if IsCloserLine(lines[0]) then 1
      else 0
  }

  /** The pending words are exactly the words of the token lines after the
      last boundary line (or, with no boundary line, the starting words
      followed by all of them). */
  lemma {:induction false} PendingIsTrailingTokens(ws: seq<string>, lines: seq<string>)
    ensures PendingFrom(ws, lines)
         == if LastCloserEnd(lines) > 0 then Tokens(lines[LastCloserEnd(lines)..]) else ws + Tokens(lines)
    decreases |lines|
  {
    if lines == [] {
      assert ws + [] == ws;
    } else {
      var rest := lines[1..];
      var e := LastCloserEnd(rest);
      if e > 0 {
        assert rest[e..] == lines[e + 1..];
      }
      if IsTokenLine(lines[0]) {
        PendingIsTrailingTokens(ws + [Word(lines[0])], rest);
        assert ws + [Word(lines[0])] + Tokens(rest) == ws + ([Word(lines[0])] + Tokens(rest));
      } else if Contains(lines[0], EosDelim) {
        PendingIsTrailingTokens([], rest);
        assert [] + Tokens(rest) == Tokens(rest);
        assert lines[1..] == rest;
        if ws != [] {
          assert PendingFrom(ws, lines) == PendingFrom([], rest);
        }
      } else {
        PendingIsTrailingTokens(ws, rest);
      }
    }
  }

  /** Flattening `gen_swords`' output gives the words of the token lines up
      to the last boundary line; token lines after it contribute nothing. */
  lemma FlattenSwords(lines: seq<string>)
    ensures Flatten(Swords(lines)) == Tokens(lines[..LastCloserEnd(lines)])
    ensures Pending(lines) == Tokens(lines[LastCloserEnd(lines)..])
  {
    var e := LastCloserEnd(lines);
    SwordsConservation([], lines);
    PendingIsTrailingTokens([], lines);
    assert lines == lines[..e] + lines[e..];
    TokensAppend(lines[..e], lines[e..]);
    assert [] + Tokens(lines) == Tokens(lines);
    assert lines[0..] == lines;
    var f, t1, t2 := Flatten(Swords(lines)), Tokens(lines[..e]), Tokens(lines[e..]);
    assert Pending(lines) == t2;
    assert f + t2 == t1 + t2;
    assert f == (f + t2)[..|f|] && t1 == (t1 + t2)[..|t1|];
  }

  /** Reading `a` and then `b` is reading `a + b`. */
  lemma {:induction false} SwordsAppend(ws: seq<string>, a: seq<string>, b: seq<string>)
    ensures SwordsFrom(ws, a + b) == SwordsFrom(ws, a) + SwordsFrom(PendingFrom(ws, a), b)
    ensures PendingFrom(ws, a + b) == PendingFrom(PendingFrom(ws, a), b)
    decreases |a|
  {
    if a == [] {
      assert a + b == b;
    } else {
      assert (a + b)[0] == a[0];
      assert (a + b)[1..] == a[1..] + b;
      if IsTokenLine(a[0]) {
        SwordsAppend(ws + [Word(a[0])], a[1..], b);
      } else if Contains(a[0], EosDelim) && ws != [] {
        SwordsAppend([], a[1..], b);
      } else {
        SwordsAppend(ws, a[1..], b);
      }
    }
  }

  /** Line `i` closes a sentence: a boundary line reached while words are pending. */
  predicate ClosesAt(lines: seq<string>, i: nat)
    requires i < |lines|
  {
    IsCloserLine(lines[i]) && Pending(lines[..i]) != []
  }

  /** How many of the first `n` lines close a sentence. */
  function CountCloses(lines: seq<string>, n: nat): nat
    requires n <= |lines|
  {
    if n == 0 then 0 else CountCloses(lines, n - 1) + (if ClosesAt(lines, n - 1) then 1 else 0)
  }

  /** `gen_swords` emits one sentence per boundary line reached while words are pending. */
  lemma {:induction false} SwordsCount(lines: seq<string>, n: nat)
    requires n <= |lines|
    ensures |Swords(lines[..n])| == CountCloses(lines, n)
  {
    if n > 0 {
      SwordsCount(lines, n - 1);
      var prefix := lines[..n - 1];
      assert lines[..n] == prefix + [lines[n - 1]];
      SwordsAppend([], prefix, [lines[n - 1]]);
      var one := SwordsFrom(Pending(prefix), [lines[n - 1]]);
      assert [lines[n - 1]][1..] == [];
      assert |one| == if ClosesAt(lines, n - 1) then 1 else 0;
    }
  }

  /** A boundary line closes a sentence exactly when some token line lies
      between it and the previous boundary line. */
  lemma ClosesAtIffTokenSinceBoundary(lines: seq<string>, i: nat)
    requires i < |lines|
    ensures ClosesAt(lines, i)
        <==> IsCloserLine(lines[i]) && Tokens(lines[..i][LastCloserEnd(lines[..i])..]) != []
  {
    FlattenSwords(lines[..i]);
  }

  /** A token line left open at the end of the input adds no sentence. */
  lemma TrailingTokenLineAddsNothing(lines: seq<string>, line: string)
    requires IsTokenLine(line)
    ensures Swords(lines + [line]) == Swords(lines)
    ensures Pending(lines + [line]) == Pending(lines) + [Word(line)]
  {
    SwordsAppend([], lines, [line]);
    assert [line][1..] == [];
  }

  /** A run of token lines emits nothing and adds its words to the pending ones. */
  lemma {:induction false} TokenLinesOnlyPend(ws: seq<string>, lines: seq<string>)
    requires forall i :: 0 <= i < |lines| ==> IsTokenLine(lines[i])
    ensures SwordsFrom(ws, lines) == []
    ensures PendingFrom(ws, lines) == ws + Tokens(lines)
    decreases |lines|
  {
    if lines == [] {
      assert ws + [] == ws;
    } else {
      TokenLinesOnlyPend(ws + [Word(lines[0])], lines[1..]);
      assert ws + [Word(lines[0])] + Tokens(lines[1..]) == ws + ([Word(lines[0])] + Tokens(lines[1..]));
    }
  }

  /** Token lines followed by a boundary line form exactly one sentence: the
      words of the token lines. */
  lemma OneSentence(lines: seq<string>, closer: string)
    requires lines != [] && forall i :: 0 <= i < |lines| ==> IsTokenLine(lines[i])
    requires IsCloserLine(closer)
    ensures Swords(lines + [closer]) == [Tokens(lines)]
  {
    var words := Tokens(lines);
    SwordsAppend([], lines, [closer]);
    TokenLinesOnlyPend([], lines);
    assert PendingFrom([], lines) == words by {
      assert [] + words == words;
    }
    assert words != [] by {
      assert IsTokenLine(lines[0]);
      assert words == [Word(lines[0])] + Tokens(lines[1..]);
    }
    CloserEmits(words, closer);
    assert Swords(lines + [closer]) == [] + [words];
  }

  /** A boundary line reached while words are pending emits them. */
  lemma CloserEmits(ws: seq<string>, closer: string)
    requires ws != [] && IsCloserLine(closer)
    ensures SwordsFrom(ws, [closer]) == [ws]
  {
    assert [closer][0] == closer && [closer][1..] == [];
    assert [ws] + [] == [ws];
  }

  /** The two-line example `["a/NN", "//"]` gives the one sentence `["a"]`. */
  lemma OneWordSentence()
    ensures Swords(["a/NN", "//"]) == [["a"]]
  {
    var l0, l1 := "a/NN", "//";
    assert StartsWith(l0[1..], PosAttrDelim);
    assert l0[..1] == ['a'];
    assert Word(l0) == [l0[0]] + Before(l0[1..], PosAttrDelim);
    assert IsTokenLine(l0) by {
      assert Contains(l0[1..], PosAttrDelim);
    }
    assert !IsTokenLine(l1) && Contains(l1, EosDelim) by {
      assert StartsWith(l1, EosDelim);
    }
    var lines := [l0, l1];
    assert Word(l0) == "a";
    assert lines[0] == l0 && lines[1..] == [l1] && [l1][1..] == [];
    assert [] + [Word(lines[0])] == ["a"];
    assert SwordsFrom([], lines) == SwordsFrom(["a"], [l1]);
    assert SwordsFrom(["a"], [l1]) == [["a"]] + SwordsFrom([], []);
  }
}
