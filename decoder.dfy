/** The placeholder decoder of `gen_gold_data_SL`/`gen_gold_data_WL`: every
    entry of `CHAR_SYMS`, in listing order, is applied with a replace-all,
    and runs of spaces are collapsed after every single entry. */
module Decoder {
  import opened Strings

  /** The number of entries of `CHAR_SYMS`. */
  const CharSymsCount: nat := 30

  /** Entry `i` (key, value) of `CHAR_SYMS` in its listing order, the order a
      Python dict iterates in; positions 0 to 29 are the table, and later
      positions are never used. The last four keys carry no angle brackets,
      exactly as written. */
  function CharSym(i: nat): (string, string)
  {
    if i == 0 then ("<space>", "")
    else if i == 1 then ("<exclamation>", "!")
    else if i == 2 then ("<quotation>", "\"")
    else if i == 3 then ("<number>", "#")
    else if i == 4 then ("<dollar>", "$")
    else if i == 5 then ("<percent>", "%")
    else if i == 6 then ("<ampersand>", "&")
    else if i == 7 then ("<apostrophe>", "'")
    else if i == 8 then ("<left_parenthesis>", "(")
    else if i == 9 then ("<right_parenthesis>", ")")
    else if i == 10 then ("<asterisk>", "*")
    else if i == 11 then ("<plus>", "+")
    else if i == 12 then ("<comma>", ",")
    else if i == 13 then ("<minus>", "-")
    else if i == 14 then ("<full_stop>", ".")
    else if i == 15 then ("<slash>", "/")
    else if i == 16 then ("<colon>", ":")
    else if i == 17 then ("<semi_colon>", ";")
    else if i == 18 then ("<less_than>", "<")
    else if i == 19 then ("<equal>", "=")
    else if i == 20 then ("<greater_than>", ">")
    else if i == 21 then ("<question_mark>", "?")
    else if i == 22 then ("<at_mark>", "@")
    else if i == 23 then ("<left_square_bracket>", "[")
    else if i == 24 then ("<right_square_bracket>", "]")
    else if i == 25 then ("<circumflex_accent>", "^")
    else if i == 26 then ("low_line", "_")
    else if i == 27 then ("left_curly_bracket", "{")
    else if i == 28 then ("right_curly_bracket", "}")
    else ("tilde", "~")
  }

  /** Apply the entries from position `i` on, in order, collapsing space runs
      after each. */
  function DecodeFrom(i: nat, s: string): (r: string)
    ensures i < CharSymsCount ==> !HasDoubleSpace(r)
    decreases CharSymsCount - i
  {
    if i >= CharSymsCount then s
    else DecodeFrom(i + 1, CollapseSpaces(ReplaceAll(s, CharSym(i).0, CharSym(i).1)))
  }

  /** The decoded form of one joined sentence. */
  function Decode(s: string): string {
    DecodeFrom(0, s)
  }

  /** The inner `for k, v in CHAR_SYMS.items()` loop, which reassigns the line
      once per entry. */
  method DecodeLine(s: string) returns (l: string)
    ensures l == Decode(s)
  {
    l := s;
    for i := 0 to CharSymsCount
      invariant DecodeFrom(i, l) == Decode(s)
    {
      var (k, v) := CharSym(i);
      l := CollapseSpaces(ReplaceAll(l, k, v));
    }
  }

  /** Decoding never leaves two adjacent spaces. */
  lemma DecodeNoDoubleSpace(s: string)
    ensures !HasDoubleSpace(Decode(s))
  {
  }

  /** A key of `CHAR_SYMS`: at least five characters, none of them a space,
      starting with one of `<`, `l`, `r`, `t`. */
  predicate KeyOk(k: string) {
    |k| >= 5 && ' ' !in k && IsKeyLead(k[0])
  }

  /** The characters a key of `CHAR_SYMS` can start with. */
  predicate IsKeyLead(c: char) {
    c == '<' || c == 'l' || c == 'r' || c == 't'
  }

  /** Every key of `CHAR_SYMS` has at least five characters, no space, and
      starts with `<`, `l`, `r` or `t`. */
  lemma CharSymsKeysOk()
    ensures forall i :: 0 <= i < CharSymsCount ==> KeyOk(CharSym(i).0)
  {
    KeysOk0();
    KeysOk3();
    KeysOk6();
    KeysOk9();
    KeysOk12();
    KeysOk15();
    KeysOk18();
    KeysOk21();
    KeysOk24();
    KeysOk27();
  }

  /** The keys, three at a time. */
  lemma KeysOk0()
    ensures KeyOk(CharSym(0).0)
    ensures KeyOk(CharSym(1).0)
    ensures KeyOk(CharSym(2).0)
  {
  }

  lemma KeysOk3()
    ensures KeyOk(CharSym(3).0)
    ensures KeyOk(CharSym(4).0)
    ensures KeyOk(CharSym(5).0)
  {
  }

  lemma KeysOk6()
    ensures KeyOk(CharSym(6).0)
    ensures KeyOk(CharSym(7).0)
    ensures KeyOk(CharSym(8).0)
  {
  }

  lemma KeysOk9()
    ensures KeyOk(CharSym(9).0)
    ensures KeyOk(CharSym(10).0)
    ensures KeyOk(CharSym(11).0)
  {
  }

  lemma KeysOk12()
    ensures KeyOk(CharSym(12).0)
    ensures KeyOk(CharSym(13).0)
    ensures KeyOk(CharSym(14).0)
  {
  }

  lemma KeysOk15()
    ensures KeyOk(CharSym(15).0)
    ensures KeyOk(CharSym(16).0)
    ensures KeyOk(CharSym(17).0)
  {
  }

  lemma KeysOk18()
    ensures KeyOk(CharSym(18).0)
    ensures KeyOk(CharSym(19).0)
    ensures KeyOk(CharSym(20).0)
  {
  }

  lemma KeysOk21()
    ensures KeyOk(CharSym(21).0)
    ensures KeyOk(CharSym(22).0)
    ensures KeyOk(CharSym(23).0)
  {
  }

  lemma KeysOk24()
    ensures KeyOk(CharSym(24).0)
    ensures KeyOk(CharSym(25).0)
    ensures KeyOk(CharSym(26).0)
  {
  }

  lemma KeysOk27()
    ensures KeyOk(CharSym(27).0)
    ensures KeyOk(CharSym(28).0)
    ensures KeyOk(CharSym(29).0)
  {
  }

  /** No key from position `i` on occurs in `s`. */
  predicate NoKeyFrom(i: nat, s: string) {
    forall j :: i <= j < CharSymsCount ==> !Contains(s, CharSym(j).0)
  }

  /** A string that holds none of the remaining keys decodes to its
      space-collapsed self. */
  lemma {:induction false} DecodeWithoutKeys(i: nat, s: string)
    requires NoKeyFrom(i, s)
    ensures DecodeFrom(i, s) == if i >= CharSymsCount then s else CollapseSpaces(s)
    decreases CharSymsCount - i
  {
    if i < CharSymsCount {
      CharSymsKeysOk();
      var c := CollapseSpaces(ReplaceAll(s, CharSym(i).0, CharSym(i).1));
      assert c == CollapseSpaces(s);
      forall j | i + 1 <= j < CharSymsCount
        ensures !Contains(c, CharSym(j).0)
      {
        if Contains(c, CharSym(j).0) {
          CollapseNoNewOccurrence(s, CharSym(j).0);
        }
      }
      DecodeWithoutKeys(i + 1, c);
      CollapseIdempotent(s);
    }
  }

  /** Decoding is idempotent on strings that hold no placeholder key. */
  lemma DecodeIdempotent(s: string)
    requires NoKeyFrom(0, s)
    ensures Decode(s) == CollapseSpaces(s)
    ensures Decode(Decode(s)) == Decode(s)
  {
    CharSymsKeysOk();
    DecodeWithoutKeys(0, s);
    forall j | 0 <= j < CharSymsCount
      ensures !Contains(CollapseSpaces(s), CharSym(j).0)
    {
      if Contains(CollapseSpaces(s), CharSym(j).0) {
        CollapseNoNewOccurrence(s, CharSym(j).0);
      }
    }
    DecodeWithoutKeys(0, CollapseSpaces(s));
    CollapseIdempotent(s);
  }

  /** Strings shorter than every key hold none of them. */
  lemma ShortHasNoKey(i: nat, s: string)
    requires |s| < 5
    ensures NoKeyFrom(i, s)
  {
    CharSymsKeysOk();
    forall j | i <= j < CharSymsCount
      ensures !Contains(s, CharSym(j).0)
    {
      ShortNotContains(s, CharSym(j).0);
    }
  }

  /** A string shorter than every key and without space runs decodes to itself. */
  lemma ShortDecodesToItself(s: string)
    requires |s| < 5 && !HasDoubleSpace(s)
    ensures Decode(s) == s
  {
    ShortHasNoKey(0, s);
    DecodeIdempotent(s);
    CollapseFixedPoint(s);
  }

  /** What the first entry, `<space>`, leaves for the other 29. */
  lemma DecodeFirstEntry(s: string)
    ensures CharSym(0) == ("<space>", "")
    ensures Decode(s) == DecodeFrom(1, CollapseSpaces(ReplaceAll(s, "<space>", "")))
  {
  }

  /** Once the `<space>` entry has left a short string without space runs,
      the other 29 entries change nothing. */
  lemma DecodeViaFirstEntry(s: string, c: string)
    requires CollapseSpaces(ReplaceAll(s, "<space>", "")) == c
    requires |c| < 5 && !HasDoubleSpace(c)
    ensures Decode(s) == c
  {
    DecodeFirstEntry(s);
    ShortHasNoKey(1, c);
    DecodeWithoutKeys(1, c);
    CollapseFixedPoint(c);
  }

  /** Replacing `<space>` between two other characters leaves two adjacent spaces. */
  lemma SpaceReplaced(a: char, b: char)
    requires a != '<' && b != '<'
    ensures ReplaceAll([a] + " <space> " + [b], "<space>", "") == [a] + "  " + [b]
  {
    var key, tail := "<space>", " " + [b];
    assert [a] + " <space> " + [b] == [a] + (" " + (key + tail));
    ReplaceAllSkipsChar(a, " " + (key + tail), key, "");
    ReplaceAllSkipsChar(' ', key + tail, key, "");
    ReplaceAllKeyFirst(key, tail, "");
    ShortNotContains(tail, key);
    assert [a] + ([' '] + ([] + tail)) == [a] + "  " + [b];
  }

  lemma TwoSpacesCollapse(a: char, b: char)
    requires a != ' ' && b != ' '
    ensures CollapseSpaces([a] + "  " + [b]) == [a] + " " + [b]
  {
    var s := [a] + "  " + [b];
    assert s[0] == a && s[1..] == "  " + [b];
    assert ("  " + [b])[1..] == " " + [b];
    assert (" " + [b])[1..] == [b];
    assert CollapseSpaces(" " + [b]) == " " + [b];
  }

  lemma JoinAroundSpace(a: char, b: char)
    ensures Join([[a], "<space>", [b]], " ") == [a] + " <space> " + [b]
  {
    var ws := [[a], "<space>", [b]];
    assert ws[1..] == ["<space>", [b]];
    assert ws[1..][1..] == [[b]];
    assert Join(ws[1..], " ") == "<space>" + " " + [b];
    assert [a] + " " + ("<space>" + " " + [b]) == [a] + " <space> " + [b];
  }

  /** What the `<space>` entry makes of `a <space> b`: one space between `a` and `b`. */
  lemma FirstEntryAroundSpace(a: char, b: char)
    requires a != '<' && b != '<' && a != ' ' && b != ' '
    ensures CollapseSpaces(ReplaceAll([a] + " <space> " + [b], "<space>", "")) == [a] + " " + [b]
    ensures !HasDoubleSpace([a] + " " + [b])
  {
    SpaceReplaced(a, b);
    TwoSpacesCollapse(a, b);
  }

  lemma DecodeAroundSpace(a: char, b: char)
    requires a != '<' && b != '<' && a != ' ' && b != ' '
    ensures Decode([a] + " <space> " + [b]) == [a] + " " + [b]
  {
    FirstEntryAroundSpace(a, b);
    DecodeViaFirstEntry([a] + " <space> " + [b], [a] + " " + [b]);
  }

  /** The placeholder `<space>` deletes itself rather than inserting a space:
      the joined words `[a, "<space>", b]` decode to `a + " " + b`, one space
      where the join put two. */
  lemma SpacePlaceholderMerges(a: char, b: char)
    requires a != '<' && b != '<' && a != ' ' && b != ' '
    ensures Decode(Join([[a], "<space>", [b]], " ")) == [a] + " " + [b]
  {
    JoinAroundSpace(a, b);
    DecodeAroundSpace(a, b);
  }

  /** `n` spaces. */
  function Spaces(n: nat): (r: string)
    ensures |r| == n && forall i :: 0 <= i < n ==> r[i] == ' '
  {
    if n == 0 then [] else [' '] + Spaces(n - 1)
  }

  /** A run of `n` spaces collapses to one space, or to nothing when `n` is 0. */
  lemma {:induction false} CollapseSpacesOnly(n: nat)
    ensures CollapseSpaces(Spaces(n)) == Spaces(if n == 0 then 0 else 1)
  {
    if n > 1 {
      CollapseSpacesOnly(n - 1);
      assert Spaces(n)[1..] == Spaces(n - 1);
    } else if n == 1 {
      assert Spaces(1) == [' '];
    }
  }

  /** A sentence of one or more words, each of them `<space>`. */
  predicate OnlySpacePlaceholders(ws: seq<string>) {
    |ws| >= 1 && forall i :: 0 <= i < |ws| ==> ws[i] == "<space>"
  }

  /** Replacing `<space>` in `n` joined `<space>` words leaves the `n - 1` joining spaces. */
  lemma {:induction false} ReplaceSpacePlaceholders(ws: seq<string>)
    requires OnlySpacePlaceholders(ws)
    ensures ReplaceAll(Join(ws, " "), "<space>", "") == Spaces(|ws| - 1)
    decreases |ws|
  {
    var key := "<space>";
    if |ws| == 1 {
      assert key[..|key|] == key && key[|key|..] == [];
    } else {
      var rest := Join(ws[1..], " ");
      assert Join(ws, " ") == key + (" " + rest);
      assert (key + (" " + rest))[..|key|] == key && (key + (" " + rest))[|key|..] == " " + rest;
      ReplaceAllSkipsChar(' ', rest, key, "");
      ReplaceSpacePlaceholders(ws[1..]);
      assert [' '] + Spaces(|ws| - 2) == Spaces(|ws| - 1);
    }
  }

  /** What the `<space>` entry makes of `n` joined `<space>` words. */
  lemma PlaceholdersFirstEntry(ws: seq<string>)
    requires OnlySpacePlaceholders(ws)
    ensures CollapseSpaces(ReplaceAll(Join(ws, " "), "<space>", "")) == Spaces(if |ws| == 1 then 0 else 1)
  {
    var n := |ws| - 1;
    ReplaceSpacePlaceholders(ws);
    CollapseSpacesOnly(n);
  }

  /** A sentence made only of `<space>` placeholders decodes to no space when
      it has one word and to a single space otherwise. */
  lemma DecodeOnlySpacePlaceholders(ws: seq<string>)
    requires OnlySpacePlaceholders(ws)
    ensures Decode(Join(ws, " ")) == Spaces(if |ws| == 1 then 0 else 1)
  {
    var c := Spaces(if |ws| == 1 then 0 else 1);
    PlaceholdersFirstEntry(ws);
    assert !HasDoubleSpace(c) by {
      assert |c| <= 1;
    }
    DecodeViaFirstEntry(Join(ws, " "), c);
  }

  /** A string in which the first two characters of `k` never occur side
      by side does not contain `k`. */
  lemma {:induction false} NoKeyStart(s: string, k: string)
    requires |k| >= 2
    requires forall j :: 0 <= j < |s| - 1 ==> !(s[j] == k[0] && s[j + 1] == k[1])
    ensures !Contains(s, k)
    decreases |s|
  {
    if s != [] {
      if |k| <= |s| {
        assert s[..|k|][0] == s[0] && s[..|k|][1] == s[1];
      }
      assert forall j :: 0 <= j < |s[1..]| ==> s[1..][j] == s[j + 1];
      NoKeyStart(s[1..], k);
    }
  }

  /** Text that has no space run and no character in `<`, `l`, `r`, `t`
      passes the decoder unchanged. */
  lemma PlainTextDecodesToItself(s: string)
    requires !HasDoubleSpace(s)
    requires forall j :: 0 <= j < |s| ==> !IsKeyLead(s[j])
    ensures Decode(s) == s
  {
    CharSymsKeysOk();
    forall j | 0 <= j < CharSymsCount
      ensures !Contains(s, CharSym(j).0)
    {
      NoKeyStart(s, CharSym(j).0);
    }
    DecodeIdempotent(s);
    CollapseFixedPoint(s);
  }

  /** The first 26 keys are bracketed: they start with `<`. */
  lemma BracketedKeys()
    ensures forall i :: 0 <= i < 26 ==> CharSym(i).0[0] == '<'
  {
    CharSymsKeysOk();
    BracketedFrom0();
    BracketedFrom9();
    BracketedFrom18();
  }

  /** `BracketedKeys`, nine entries at a time. */
  lemma BracketedFrom0()
    ensures forall i :: 0 <= i < 9 ==> CharSym(i).0[0] == '<'
  {
  }

  lemma BracketedFrom9()
    ensures forall i :: 9 <= i < 18 ==> CharSym(i).0[0] == '<'
  {
  }

  lemma BracketedFrom18()
    ensures forall i :: 18 <= i < 26 ==> CharSym(i).0[0] == '<'
  {
  }

  /** Text without `<` and without space runs passes the 26 bracketed
      entries unchanged. */
  lemma {:induction false} SkipBracketed(i: nat, s: string)
    requires i <= 26
    requires forall j :: 0 <= j < |s| ==> s[j] != '<'
    requires !HasDoubleSpace(s)
    ensures DecodeFrom(i, s) == DecodeFrom(26, s)
    decreases 26 - i
  {
    if i < 26 {
      BracketedKeys();
      CharSymsKeysOk();
      NoKeyStart(s, CharSym(i).0);
      CollapseFixedPoint(s);
      SkipBracketed(i + 1, s);
    }
  }

  /** An entry whose key does not occur leaves text without space runs unchanged. */
  lemma AbsentKeyStep(i: nat, s: string)
    requires i < CharSymsCount && CharSym(i).0 != []
    requires !Contains(s, CharSym(i).0) && !HasDoubleSpace(s)
    ensures DecodeFrom(i, s) == DecodeFrom(i + 1, s)
  {
    CollapseFixedPoint(s);
  }

  /** The last four keys, written without brackets. */
  lemma UnbracketedKeys()
    ensures CharSym(26) == ("low_line", "_")
    ensures CharSym(27) == ("left_curly_bracket", "{")
    ensures CharSym(28) == ("right_curly_bracket", "}")
    ensures CharSym(29) == ("tilde", "~")
  {
  }

  /** Text in which `r`, `<` and spaces do not occur and every `l` is
      followed by `d`. */
  predicate OnlyTildeLike(s: string) {
    forall j :: 0 <= j < |s| ==>
      && s[j] != ' ' && s[j] != '<' && s[j] != 'r'
      && (s[j] == 'l' ==> j + 1 < |s| && s[j + 1] == 'd')
  }

  /** `a + "tilde" + b` is such text when `a` and `b` hold no space and no
      character a key can start with. */
  lemma TildeWordChars(a: string, b: string)
    requires forall j :: 0 <= j < |a| ==> a[j] != ' ' && !IsKeyLead(a[j])
    requires forall j :: 0 <= j < |b| ==> b[j] != ' ' && !IsKeyLead(b[j])
    ensures OnlyTildeLike(a + "tilde" + b)
  {
    var key := "tilde";
    var s := a + key + b;
    forall j | 0 <= j < |s|
      ensures s[j] != ' ' && s[j] != '<' && s[j] != 'r'
      ensures s[j] == 'l' ==> j + 1 < |s| && s[j + 1] == 'd'
    {
      if j < |a| {
        assert s[j] == a[j];
      } else if j < |a| + 5 {
        assert s[j] == key[j - |a|];
        if j == |a| + 3 {
          assert s[j + 1] == key[4];
        }
      } else {
        assert s[j] == b[j - |a| - 5];
      }
    }
  }

  /** Such text reaches the last entry, `tilde`, unchanged. */
  lemma ReachesLastEntry(s: string)
    requires OnlyTildeLike(s)
    ensures Decode(s) == DecodeFrom(29, s)
  {
    assert !HasDoubleSpace(s);
    SkipBracketed(0, s);
    SkipLowLine(s);
    SkipLeftCurly(s);
    SkipRightCurly(s);
  }

  /** `low_line` does not occur in such text: every `l` is followed by `d`. */
  lemma SkipLowLine(s: string)
    requires OnlyTildeLike(s)
    ensures DecodeFrom(26, s) == DecodeFrom(27, s)
  {
    assert CharSym(26).0 == "low_line";
    assert !HasDoubleSpace(s);
    NoKeyStart(s, "low_line");
    AbsentKeyStep(26, s);
  }

  /** `left_curly_bracket` does not occur in such text either. */
  lemma SkipLeftCurly(s: string)
    requires OnlyTildeLike(s)
    ensures DecodeFrom(27, s) == DecodeFrom(28, s)
  {
    assert CharSym(27).0 == "left_curly_bracket";
    assert !HasDoubleSpace(s);
    NoKeyStart(s, "left_curly_bracket");
    AbsentKeyStep(27, s);
  }

  /** Nor does `right_curly_bracket`: such text holds no `r`. */
  lemma SkipRightCurly(s: string)
    requires OnlyTildeLike(s)
    ensures DecodeFrom(28, s) == DecodeFrom(29, s)
  {
    assert CharSym(28).0 == "right_curly_bracket";
    assert !HasDoubleSpace(s);
    NoKeyStart(s, "right_curly_bracket");
    AbsentKeyStep(28, s);
  }

  /** Replacing a key that occurs once, between text that does not hold its
      first character. */
  lemma ReplaceSingleKey(a: string, key: string, b: string, val: string)
    requires key != []
    requires forall j :: 0 <= j < |a| ==> a[j] != key[0]
    requires forall j :: 0 <= j < |b| ==> b[j] != key[0]
    ensures ReplaceAll(a + key + b, key, val) == a + val + b
  {
    assert a + key + b == a + (key + b);
    ReplaceAllSkipsChars(a, key + b, key, val);
    ReplaceAllKeyFirst(key, b, val);
    NoFirstCharNoKey(b, key);
    assert a + (val + b) == a + val + b;
  }

  /** The last entry replaces `tilde` by `~`. */
  lemma LastEntry(s: string)
    ensures DecodeFrom(29, s) == CollapseSpaces(ReplaceAll(s, "tilde", "~"))
  {
    UnbracketedKeys();
  }

  /** Space-free text around space-free text is left alone by collapsing. */
  lemma SpaceFreeAround(a: string, c: string, b: string)
    requires SpaceFree(a) && SpaceFree(c) && SpaceFree(b)
    ensures CollapseSpaces(a + c + b) == a + c + b
  {
    SpaceFreeConcat(a, c);
    SpaceFreeConcat(a + c, b);
    SpaceFreeCollapse(a + c + b);
  }

  /** Because the key `tilde` has no brackets, the plain letters `tilde`
      inside a word are decoded to `~`. */
  lemma TildeInsideWord(a: string, b: string)
    requires forall j :: 0 <= j < |a| ==> a[j] != ' ' && !IsKeyLead(a[j])
    requires forall j :: 0 <= j < |b| ==> b[j] != ' ' && !IsKeyLead(b[j])
    ensures Decode(a + "tilde" + b) == a + "~" + b
  {
    var s := a + "tilde" + b;
    TildeWordChars(a, b);
    ReachesLastEntry(s);
    LastEntry(s);
    ReplaceSingleKey(a, "tilde", b, "~");
    SpaceFreeAround(a, "~", b);
  }
}
