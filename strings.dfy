/** The handful of Python `str` operations the ORCHID cooker relies on,
    written out over `seq<char>`: `startswith`/`endswith`, `in`,
    `partition(sep)[0]`, `replace`, `re.sub(' +', ' ', _)`, `split()` and
    `join`. */
module Strings {

  /** Python `s.startswith(p)`. */
  predicate StartsWith(s: string, p: string) {
    |p| <= |s| && s[..|p|] == p
  }

  /** Python `s.endswith(p)`. */
  predicate EndsWith(s: string, p: string) {
    |p| <= |s| && s[|s| - |p|..] == p
  }

  /** Python `p in s`: `p` occurs somewhere in `s` (the empty string occurs everywhere). */
  predicate Contains(s: string, p: string)
    decreases |s|
  {
    StartsWith(s, p) || (s != [] && Contains(s[1..], p))
  }

  /** `Contains` holds exactly when `p` starts at some position of `s`. */
  lemma {:induction false} ContainsAt(s: string, p: string)
    ensures Contains(s, p) <==> exists i :: 0 <= i <= |s| && StartsWith(s[i..], p)
    decreases |s|
  {
    if s == [] {
      assert s[0..] == s;
    } else {
      ContainsAt(s[1..], p);
      assert s[0..] == s;
      assert forall i :: 1 <= i <= |s| ==> s[1..][i - 1..] == s[i..];
      if Contains(s, p) && !StartsWith(s, p) {
        var i :| 0 <= i <= |s[1..]| && StartsWith(s[1..][i..], p);
        assert StartsWith(s[i + 1..], p);
      }
    }
  }

  /** `p` occurring at position `k` of `s` means `s` contains it. */
  lemma ContainsAtIndex(s: string, p: string, k: nat)
    requires k + |p| <= |s| && s[k..k + |p|] == p
    ensures Contains(s, p)
  {
    assert s[k..][..|p|] == s[k..k + |p|];
    ContainsAt(s, p);
  }

  /** A string shorter than `p` cannot contain it, unless `p` is empty. */
  lemma {:induction false} ShortNotContains(s: string, p: string)
    requires |s| < |p|
    ensures !Contains(s, p)
    decreases |s|
  {
    if s != [] {
      ShortNotContains(s[1..], p);
    }
  }

  /** Python `s.partition(sep)[0]`: the text before the first occurrence of
      `sep`, or all of `s` when `sep` does not occur (Python raises on an
      empty separator). */
  function Before(s: string, sep: string): (r: string)
    requires sep != []
    ensures |r| <= |s| && r == s[..|r|]
    ensures Contains(s, sep) <==> StartsWith(s[|r|..], sep)
    ensures !Contains(s, sep) ==> r == s
    ensures forall j :: 0 <= j < |r| ==> !StartsWith(s[j..], sep)
    decreases |s|
  {
    if s == [] then []
    else if StartsWith(s, sep) then []
    else
      var rest := Before(s[1..], sep);
      assert forall j :: 1 <= j <= |s| ==> s[j..] == s[1..][j - 1..];
      [s[0]] + rest
  }

  /** `Before` stops at the first position where the separator starts. */
  lemma BeforeAt(s: string, sep: string, n: nat)
    requires sep != [] && n <= |s| && StartsWith(s[n..], sep)
    requires forall j :: 0 <= j < n ==> !StartsWith(s[j..], sep)
    ensures Before(s, sep) == s[..n]
  {
    ContainsAt(s, sep);
    var r := Before(s, sep);
    assert StartsWith(s[|r|..], sep);
  }

  /** A string that starts with `p` still does after more text is appended. */
  lemma PrefixStartsWith(a: string, b: string, p: string)
    requires |a| <= |b| && a == b[..|a|]
    requires StartsWith(a, p)
    ensures StartsWith(b, p)
  {
    assert b[..|p|] == a[..|p|];
  }

  /** The prefix `Before` returns never contains the separator itself. */
  lemma {:induction false} BeforeHasNoSep(s: string, sep: string)
    requires sep != []
    ensures !Contains(Before(s, sep), sep)
  {
    var r := Before(s, sep);
    ContainsAt(r, sep);
    forall i | 0 <= i <= |r|
      ensures !StartsWith(r[i..], sep)
    {
      if i < |r| && StartsWith(r[i..], sep) {
        PrefixStartsWith(r[i..], s[i..], sep);
      }
    }
  }

  /** Python `s.replace(key, val)`: every occurrence of `key`, scanned left to
      right without overlap, is replaced by `val`; an empty `key` matches
      before every character and at the end. */
  function ReplaceAll(s: string, key: string, val: string): (r: string)
    ensures key != [] && !Contains(s, key) ==> r == s
    decreases |s|
  {
    if key == [] then
      if s == [] then val else val + [s[0]] + ReplaceAll(s[1..], key, val)
    else if |s| < |key| then s
    else if s[..|key|] == key then val + ReplaceAll(s[|key|..], key, val)
    else [s[0]] + ReplaceAll(s[1..], key, val)
  }

  /** Python `sep.join(ws)`. */
  function Join(ws: seq<string>, sep: string): (r: string)
    decreases |ws|
  {
    if ws == [] then []
    else if |ws| == 1 then ws[0]
    else ws[0] + sep + Join(ws[1..], sep)
  }

  /** A non-empty string is its first character followed by the rest. */
  lemma ConsSplit(a: string, t: string)
    requires a != []
    ensures a + t == [a[0]] + (a[1..] + t)
  {
  }

  /** A string that is `a`'s first character followed by the rest of `a`,
      `v` and `z` is `a + v + z`. */
  lemma ConsRejoin(a: string, v: string, z: string, x: string, y: string)
    requires a != [] && x == [a[0]] + y && y == a[1..] + v + z
    ensures x == a + v + z
  {
    assert [a[0]] + a[1..] == a;
  }

  /** `ReplaceAll` copies a first character where the key does not start. */
  lemma ReplaceAllSkipsFirst(s: string, key: string, val: string)
    requires key != [] && s != [] && !StartsWith(s, key)
    ensures ReplaceAll(s, key, val) == [s[0]] + ReplaceAll(s[1..], key, val)
  {
    if |s| < |key| {
      ShortNotContains(s[1..], key);
    }
  }

  /** `ReplaceAll` copies a first character that cannot start the key. */
  lemma ReplaceAllSkipsChar(c: char, t: string, key: string, val: string)
    requires key != [] && c != key[0]
    ensures ReplaceAll([c] + t, key, val) == [c] + ReplaceAll(t, key, val)
  {
    var s := [c] + t;
    assert s[1..] == t;
    assert !StartsWith(s, key) by {
      assert |s| >= |key| ==> s[..|key|][0] == c;
    }
    ReplaceAllSkipsFirst(s, key, val);
  }

  /** `ReplaceAll` copies a prefix none of whose characters starts the key. */
  lemma {:induction false} ReplaceAllSkipsChars(a: string, t: string, key: string, val: string)
    requires key != []
    requires forall j :: 0 <= j < |a| ==> a[j] != key[0]
    ensures ReplaceAll(a + t, key, val) == a + ReplaceAll(t, key, val)
    decreases |a|
  {
    if a == [] {
      assert a + t == t;
    } else {
      var rest := a[1..];
      ConsSplit(a, t);
      ReplaceAllSkipsChar(a[0], rest + t, key, val);
      ReplaceAllSkipsChars(rest, t, key, val);
      ConsSplit(a, ReplaceAll(t, key, val));
    }
  }

  /** A string none of whose characters starts the key does not contain it. */
  lemma {:induction false} NoFirstCharNoKey(s: string, key: string)
    requires key != []
    requires forall j :: 0 <= j < |s| ==> s[j] != key[0]
    ensures !Contains(s, key)
    decreases |s|
  {
    if s != [] {
      assert !StartsWith(s, key) by {
        assert |key| <= |s| ==> s[..|key|][0] == s[0];
      }
      NoFirstCharNoKey(s[1..], key);
    }
  }

  /** `ReplaceAll` replaces a key at the start. */
  lemma ReplaceAllKeyFirst(key: string, t: string, val: string)
    requires key != []
    ensures ReplaceAll(key + t, key, val) == val + ReplaceAll(t, key, val)
  {
    assert (key + t)[..|key|] == key && (key + t)[|key|..] == t;
  }

  /** `Before` copies a first character where the separator does not start. */
  lemma BeforeStep(s: string, sep: string)
    requires sep != [] && s != [] && !StartsWith(s, sep)
    ensures Before(s, sep) == [s[0]] + Before(s[1..], sep)
  {
  }

  /** `ReplaceAll` copies the text `a` before the first occurrence of the key,
      replaces that occurrence, and goes on after it. */
  lemma {:induction false} ReplaceAllAtFirst(a: string, key: string, t: string, val: string)
    requires key != [] && Before(a + key + t, key) == a
    ensures ReplaceAll(a + key + t, key, val) == a + val + ReplaceAll(t, key, val)
    decreases |a|
  {
    if a == [] {
      assert a + key + t == key + t;
      ReplaceAllKeyFirst(key, t, val);
    } else {
      var s := a + key + t;
      assert !StartsWith(s, key);
      assert s[1..] == a[1..] + key + t;
      ReplaceAllSkipsFirst(s, key, val);
      BeforeStep(s, key);
      ReplaceAllAtFirst(a[1..], key, t, val);
      ConsRejoin(a, val, ReplaceAll(t, key, val), ReplaceAll(s, key, val), ReplaceAll(s[1..], key, val));
    }
  }

  /** Python `str.replace` in terms of `partition`: when the key occurs, the
      result is the text before its first occurrence, then the value, then
      the replacement applied to the text after that occurrence. */
  lemma ReplaceAllPartition(s: string, key: string, val: string)
    requires key != [] && Contains(s, key)
    ensures |Before(s, key)| + |key| <= |s|
    ensures ReplaceAll(s, key, val)
         == Before(s, key) + val + ReplaceAll(s[|Before(s, key)| + |key|..], key, val)
  {
    var a := Before(s, key);
    var t := s[|a| + |key|..];
    assert s == a + key + t by {
      assert s[|a|..][..|key|] == key;
    }
    ReplaceAllAtFirst(a, key, t, val);
  }

  /** `s` has a run of two or more spaces. */
  predicate HasDoubleSpace(s: string) {
    exists i :: 0 <= i < |s| - 1 && s[i] == ' ' && s[i + 1] == ' '
  }

  /** Python `re.sub(' +', ' ', s)`: every run of spaces shrinks to one space;
      every other character is kept, in order. */
  function CollapseSpaces(s: string): (r: string)
    ensures !HasDoubleSpace(r)
    ensures |r| <= |s|
    ensures s != [] ==> r != [] && r[0] == s[0]
    decreases |s|
  {
    if |s| <= 1 then s
    else if s[0] == ' ' && s[1] == ' ' then CollapseSpaces(s[1..])
    else
      var rest := CollapseSpaces(s[1..]);
      assert forall i :: 1 <= i < |rest| ==> ([s[0]] + rest)[i] == rest[i - 1];
      [s[0]] + rest
  }

  /** A run of two spaces collapses as one space does: together with
      `CollapseFixedPoint` this pins every run of spaces down to exactly one. */
  lemma {:induction false} CollapseRunStep(a: string, b: string)
    ensures CollapseSpaces(a + "  " + b) == CollapseSpaces(a + " " + b)
    decreases |a|
  {
    var s, t := a + "  " + b, a + " " + b;
    if a == [] {
      assert s[1..] == t;
    } else {
      CollapseRunStep(a[1..], b);
      assert s[1..] == a[1..] + "  " + b;
      assert t[1..] == a[1..] + " " + b;
      assert s[0] == t[0] && s[1] == t[1];
    }
  }

  /** `s` with every space deleted. */
  function WithoutSpaces(s: string): string
    decreases |s|
  {
    if s == [] then []
    else if s[0] == ' ' then WithoutSpaces(s[1..])
    else [s[0]] + WithoutSpaces(s[1..])
  }

  /** Collapsing only ever deletes spaces: the non-space text is unchanged. */
  lemma {:induction false} CollapseKeepsText(s: string)
    ensures WithoutSpaces(CollapseSpaces(s)) == WithoutSpaces(s)
    decreases |s|
  {
    if |s| > 1 {
      CollapseKeepsText(s[1..]);
      if !(s[0] == ' ' && s[1] == ' ') {
        var rest := CollapseSpaces(s[1..]);
        assert ([s[0]] + rest)[1..] == rest;
      }
    }
  }

  /** A string is left alone by collapsing exactly when it has no run of spaces. */
  lemma {:induction false} CollapseFixedPoint(s: string)
    ensures CollapseSpaces(s) == s <==> !HasDoubleSpace(s)
    decreases |s|
  {
    if |s| > 1 {
      if s[0] == ' ' && s[1] == ' ' {
        assert HasDoubleSpace(s);
      } else {
        CollapseFixedPoint(s[1..]);
        if HasDoubleSpace(s) {
          var i :| 0 <= i < |s| - 1 && s[i] == ' ' && s[i + 1] == ' ';
          assert i > 0;
          assert s[1..][i - 1] == ' ' && s[1..][i] == ' ';
        } else {
          forall i | 0 <= i < |s[1..]| - 1 && s[1..][i] == ' '
            ensures s[1..][i + 1] != ' '
          {
            assert s[i + 1] == ' ';
          }
          assert s == [s[0]] + s[1..];
        }
      }
    }
  }

  /** `s` holds no space. */
  predicate SpaceFree(s: string) {
    forall j :: 0 <= j < |s| ==> s[j] != ' '
  }

  lemma SpaceFreeConcat(x: string, y: string)
    requires SpaceFree(x) && SpaceFree(y)
    ensures SpaceFree(x + y)
  {
    forall j | 0 <= j < |x + y|
      ensures (x + y)[j] != ' '
    {
      if j >= |x| {
        assert (x + y)[j] == y[j - |x|];
      }
    }
  }

  /** A string without spaces is left alone by collapsing. */
  lemma SpaceFreeCollapse(t: string)
    requires SpaceFree(t)
    ensures CollapseSpaces(t) == t
  {
    assert !HasDoubleSpace(t);
    CollapseFixedPoint(t);
  }

  /** `re.sub(' +', ' ', _)` is idempotent. */
  lemma CollapseIdempotent(s: string)
    ensures CollapseSpaces(CollapseSpaces(s)) == CollapseSpaces(s)
  {
    CollapseFixedPoint(CollapseSpaces(s));
  }

  /** A space-free prefix of the collapsed string is a prefix of the original. */
  lemma {:induction false} CollapsePrefix(t: string, p: string)
    requires ' ' !in p
    requires StartsWith(CollapseSpaces(t), p)
    ensures StartsWith(t, p)
    decreases |t|
  {
    if p != [] && |t| > 1 {
      var c := CollapseSpaces(t);
      assert p[0] == c[0] == t[0];
      assert t[0] != ' ' by { assert p[0] in p; }
      var rest := CollapseSpaces(t[1..]);
      assert c == [t[0]] + rest;
      var q := p[1..];
      forall k | 0 <= k < |q|
        ensures q[k] != ' '
      {
        assert q[k] == p[k + 1] && p[k + 1] in p;
      }
      assert StartsWith(rest, q) by {
        assert c[..|p|] == p;
        assert rest[..|q|] == c[1..|p|];
      }
      CollapsePrefix(t[1..], q);
      assert t[..|p|] == [t[0]] + t[1..][..|q|];
    }
  }

  /** Collapsing spaces never creates an occurrence of a space-free string. */
  lemma {:induction false} CollapseNoNewOccurrence(s: string, p: string)
    requires ' ' !in p
    requires Contains(CollapseSpaces(s), p)
    ensures Contains(s, p)
    decreases |s|
  {
    var c := CollapseSpaces(s);
    if |s| <= 1 {
    } else if StartsWith(c, p) {
      CollapsePrefix(s, p);
    } else if s[0] == ' ' && s[1] == ' ' {
      CollapseNoNewOccurrence(s[1..], p);
    } else {
      assert c[1..] == CollapseSpaces(s[1..]);
      CollapseNoNewOccurrence(s[1..], p);
    }
  }

  /** Python `str.isspace()` for one character: the characters `split()`
      without arguments separates on. */
  predicate IsSpace(c: char) {
    ('\U{9}' <= c <= '\U{D}') || ('\U{1C}' <= c <= '\U{20}') || c == '\U{85}' || c == '\U{A0}'
    || c == '\U{1680}' || ('\U{2000}' <= c <= '\U{200A}') || c == '\U{2028}' || c == '\U{2029}'
    || c == '\U{202F}' || c == '\U{205F}' || c == '\U{3000}'
  }

  /** A word as `split()` returns it: non-empty, without whitespace. */
  predicate IsWord(w: string) {
    w != [] && forall i :: 0 <= i < |w| ==> !IsSpace(w[i])
  }

  /** Every character of `s` is whitespace. */
  predicate AllSpace(s: string) {
    forall i :: 0 <= i < |s| ==> IsSpace(s[i])
  }

  /** The longest whitespace-free prefix of `s`. */
  function LeadingWord(s: string): (w: string)
    ensures |w| <= |s| && w == s[..|w|]
    ensures forall i :: 0 <= i < |w| ==> !IsSpace(w[i])
    ensures |w| < |s| ==> IsSpace(s[|w|])
    decreases |s|
  {
    if s == [] || IsSpace(s[0]) then [] else [s[0]] + LeadingWord(s[1..])
  }

  /** Python `s.split()`: the maximal whitespace-free runs of `s`, in order. */
  function Split(s: string): (r: seq<string>)
    ensures forall w :: w in r ==> IsWord(w)
    decreases |s|
  {
    if s == [] then []
    else if IsSpace(s[0]) then Split(s[1..])
    else
      var w := LeadingWord(s);
      [w] + Split(s[|w|..])
  }

  /** Leading whitespace does not change what `split()` returns. */
  lemma {:induction false} SplitSkipsSpaces(sp: string, t: string)
    requires AllSpace(sp)
    ensures Split(sp + t) == Split(t)
    decreases |sp|
  {
    if sp != [] {
      assert (sp + t)[0] == sp[0];
      assert (sp + t)[1..] == sp[1..] + t;
      assert AllSpace(sp[1..]) by {
        forall i | 0 <= i < |sp[1..]| ensures IsSpace(sp[1..][i]) { assert sp[1..][i] == sp[i + 1]; }
      }
      SplitSkipsSpaces(sp[1..], t);
    } else {
      assert sp + t == t;
    }
  }

  /** A word followed by whitespace (or nothing) is read back as that word. */
  lemma {:induction false} LeadingWordOf(w: string, t: string)
    requires forall i :: 0 <= i < |w| ==> !IsSpace(w[i])
    requires t == [] || IsSpace(t[0])
    ensures LeadingWord(w + t) == w
    decreases |w|
  {
    if w != [] {
      assert (w + t)[1..] == w[1..] + t;
      LeadingWordOf(w[1..], t);
    }
  }

  /** `split()` reads a leading word and then the rest of the string. */
  lemma SplitWordThen(w: string, after: string)
    requires IsWord(w)
    requires after == [] || IsSpace(after[0])
    ensures Split(w + after) == [w] + Split(after)
  {
    LeadingWordOf(w, after);
    assert (w + after)[0] == w[0];
    assert (w + after)[|w|..] == after;
  }

  /** Joining words with whitespace and splitting again gives the words back,
      whatever whitespace trails. */
  lemma {:induction false} SplitJoin(ws: seq<string>, sep: string, tail: string)
    requires forall i :: 0 <= i < |ws| ==> IsWord(ws[i])
    requires sep != [] && AllSpace(sep) && AllSpace(tail)
    ensures Split(Join(ws, sep) + tail) == ws
    decreases |ws|
  {
    if ws == [] {
      SplitSkipsSpaces(tail, []);
      assert Join(ws, sep) + tail == tail + [];
    } else if |ws| == 1 {
      SplitWordThen(ws[0], tail);
      SplitSkipsSpaces(tail, []);
      assert tail + [] == tail;
      assert ws == [ws[0]];
    } else {
      var rest := Join(ws[1..], sep) + tail;
      assert Join(ws, sep) + tail == ws[0] + (sep + rest);
      SplitWordThen(ws[0], sep + rest);
      SplitSkipsSpaces(sep, rest);
      SplitJoin(ws[1..], sep, tail);
      assert ws == [ws[0]] + ws[1..];
    }
  }

  /** Number of non-whitespace characters of `s`. */
  function CountNonSpace(s: string): nat
    decreases |s|
  {
    if s == [] then 0 else (if IsSpace(s[0]) then 0 else 1) + CountNonSpace(s[1..])
  }

  lemma {:induction false} CountNonSpaceAppend(a: string, b: string)
    ensures CountNonSpace(a + b) == CountNonSpace(a) + CountNonSpace(b)
    decreases |a|
  {
    if a != [] {
      assert (a + b)[0] == a[0];
      assert (a + b)[1..] == a[1..] + b;
      CountNonSpaceAppend(a[1..], b);
    } else {
      assert a + b == b;
    }
  }

  /** Total length of a sequence of strings. */
  function TotalLength(ws: seq<string>): nat
    decreases |ws|
  {
    if ws == [] then 0 else |ws[0]| + TotalLength(ws[1..])
  }

  lemma {:induction false} TotalLengthAppend(a: seq<string>, b: seq<string>)
    ensures TotalLength(a + b) == TotalLength(a) + TotalLength(b)
    decreases |a|
  {
    if a != [] {
      assert (a + b)[0] == a[0];
      assert (a + b)[1..] == a[1..] + b;
      TotalLengthAppend(a[1..], b);
    } else {
      assert a + b == b;
    }
  }

  /** The words `split()` returns hold every non-whitespace character and nothing else. */
  lemma {:induction false} SplitCountsCharacters(s: string)
    ensures TotalLength(Split(s)) == CountNonSpace(s)
    decreases |s|
  {
    if s != [] && !IsSpace(s[0]) {
      var w := LeadingWord(s);
      assert s == w + s[|w|..];
      CountNonSpaceAppend(w, s[|w|..]);
      WordCountsItself(w);
      SplitCountsCharacters(s[|w|..]);
    } else if s != [] {
      SplitCountsCharacters(s[1..]);
    }
  }

  lemma {:induction false} WordCountsItself(w: string)
    requires forall i :: 0 <= i < |w| ==> !IsSpace(w[i])
    ensures CountNonSpace(w) == |w|
    decreases |w|
  {
    if w != [] {
      WordCountsItself(w[1..]);
    }
  }
}
