# ORCHID cooker, modelled in Dafny

The ORCHID cooker turns the ORCHID Thai part-of-speech corpus into gold data
for word segmentation. The corpus has one annotated word per line (`word/TAG`),
and a line holding `//` closes a sentence. The core works in four steps:

- The word segmenter (`gen_swords`) collects the words of the token lines.
  It emits them as one sentence at each boundary line.
- Sentences with fewer words than a threshold are dropped.
- Each remaining sentence is joined with spaces. Then the `CHAR_SYMS`
  placeholders (`<space>`, `<comma>`, …, `tilde`) are decoded in table order,
  and runs of spaces are collapsed after every entry.
- The result is written as a single-line (SL) record, or as a word-line (WL)
  record that has one word per line and a final line break.

A separate reconstructor (`gen_sentences`) rebuilds the raw sentences from
the lines that end in `//` and from the continuation lines that end in two
backslashes. `report` counts those raw sentences alongside statistics of the
gold records.

The project has one module per concern:

| file | module | what it holds |
|---|---|---|
| `strings.dfy` | `Strings` | Python `str` operations written out over `seq<char>`: `startswith`, `endswith`, `in`, `partition(sep)[0]`, `replace`, `re.sub(' +', ' ', _)`, `split()`, `join` |
| `delimiters.dfy` | `Delimiters` | the ORCHID delimiters and the line tests |
| `segmenter.dfy` | `Segmenter` | `gen_swords`: a method with a loop, proved against a fold over the lines |
| `reconstructor.dfy` | `Reconstructor` | `gen_sentences`, likewise |
| `decoder.dfy` | `Decoder` | `CHAR_SYMS` in listing order, and the inner decoding loop |
| `gold.dfy` | `Gold` | `gen_gold_data`, `gen_gold_data_SL`, `gen_gold_data_WL` |
| `report.dfy` | `Report` | the integer statistics of `report` |

The operations that loop in the source are methods: `SegmentWords`,
`Reconstruct`, `DecodeLine`, `GenGoldDataSL` and `GenGoldDataWL`. Each is
proved equal to a specification function (`Swords`, `RawSentences`,
`Decode`, `SlGold` and `WlGold`), and the lemmas then state what those
functions promise. `GenGoldData`, which only dispatches on the format, is a
method because it calls two of them.

Four behaviours of the code that are easy to misread:

- A line closes a sentence in `gen_swords` when it is not a token line and
  `//` occurs anywhere in it. The test is containment, with no length check.
  So a bare `//` closes a sentence there, while `gen_sentences` needs a line
  longer than two characters that ends in `//`.
- `<space>` decodes to the empty string; the mapping to a space is
  commented out at `src/orchid_cooker.py:27`. So `a <space> b`
  decodes to `a b`, and a sentence made only of `<space>` gives an SL record
  of zero or one space and the WL record `"\n"`.
- `max_cpw` and `min_cpw` are the longest and shortest word over all
  records. They are not taken from the extreme sentence.
- `max_cps` is the character count of the first record with the most
  words. It need not be the largest character count, and it can be below
  `min_cps`, although the log line at `src/orchid_cooker.py:252` prints it as
  the maximum of characters per sentence.

## Model

| member | source | states |
|---|---|---|
| Delimiters.IsTokenLine | src/orchid_cooker.py:166 | the first test of `gen_swords`: the line holds `/` and ends in neither `\\` nor `//` |
| Delimiters.Word | src/orchid_cooker.py:167 | `line.partition('/')[0]`: a prefix of the line without `/`, followed by the line's first `/` when there is one |
| Delimiters.IsCloserLine | src/orchid_cooker.py:169 | the second test of `gen_swords`, reached only by lines that are not token lines: the line holds `//` |
| Delimiters.IsOngoingLine | src/orchid_cooker.py:179 | the first test of `gen_sentences`: longer than two characters and ending in `\\` |
| Delimiters.IsEosLine | src/orchid_cooker.py:182 | the second test of `gen_sentences`: longer than two characters and ending in `//` |
| Delimiters.OngoingIsNotEos | src/orchid_cooker.py:179-183 | no line is both a continuation line and a closing line, so the two branches of `gen_sentences` never overlap |
| Delimiters.BareEosLine | src/orchid_cooker.py:165-171 | a bare `//` is a sentence boundary for the segmenter, and too short to be a closing line for the reconstructor |
| Delimiters.TaggedWord | src/orchid_cooker.py:165-168 | a `/`-free word followed by `/` and a tag ending in neither `/` nor a backslash is a token line, and its word is that word |
| Delimiters.EosInsideTokenLine | src/orchid_cooker.py:165-169 | every line `w//m/tag`, with `w` free of `/` and a tag ending in neither `/` nor a backslash, holds `//` yet is a token line: its word is `w` and it is not a boundary line |
| Segmenter.Swords | src/orchid_cooker.py:162-172 | the value `gen_swords(lines)` returns, as a fold over the lines from no pending words |
| Segmenter.SegmentWords | src/orchid_cooker.py:162-172 | the loop returns exactly `Swords(lines)`, the fold that specifies the segmenter |
| Segmenter.SwordsNonEmpty | src/orchid_cooker.py:169-171 | every emitted sentence has at least one word |
| Segmenter.SwordsConservation | src/orchid_cooker.py:162-172 | the emitted sentences, flattened and followed by the pending words, are exactly the words of the token lines in input order |
| Segmenter.FlattenSwords | src/orchid_cooker.py:162-172 | the output flattens to the words of the token lines up to the last boundary line; the words after it are pending and dropped |
| Segmenter.PendingIsTrailingTokens | src/orchid_cooker.py:164-171 | the pending words are the words of the token lines after the last boundary line |
| Segmenter.SwordsAppend | src/orchid_cooker.py:165-171 | reading `a` and then `b` gives what reading `a + b` gives |
| Segmenter.TokensAppend | src/orchid_cooker.py:166-168 | the words of `a + b` are the words of `a` followed by those of `b` |
| Segmenter.SwordsCount | src/orchid_cooker.py:169-171 | one sentence is emitted for each boundary line reached while words are pending |
| Segmenter.ClosesAtIffTokenSinceBoundary | src/orchid_cooker.py:169-171 | a boundary line closes a sentence if and only if a token line lies between it and the previous boundary line |
| Segmenter.TrailingTokenLineAddsNothing | src/orchid_cooker.py:166-168 | a token line at the end adds no sentence, and appends its word to the pending words |
| Segmenter.TokenLinesOnlyPend | src/orchid_cooker.py:166-168 | a run of token lines emits nothing and appends all its words to the pending words |
| Segmenter.CloserEmits | src/orchid_cooker.py:169-171 | a boundary line with words pending emits exactly those words as one sentence |
| Segmenter.OneSentence | src/orchid_cooker.py:162-172 | token lines followed by one boundary line give exactly one sentence: their words |
| Segmenter.OneWordSentence | src/orchid_cooker.py:162-172 | `["a/NN", "//"]` segments to `[["a"]]` |
| Reconstructor.OngoingFragment | src/orchid_cooker.py:180 | `line.partition('\\\\')[0]`, the fragment a continuation line contributes |
| Reconstructor.EosFragment | src/orchid_cooker.py:183 | `line.partition('//')[0]`, the text of a closing line before its first `//` |
| Reconstructor.Closing | src/orchid_cooker.py:183-184 | the sentence a closing line emits: the pending fragments joined with no separator, then its own fragment |
| Reconstructor.RawSentences | src/orchid_cooker.py:175-187 | the value `gen_sentences(lines)` returns, as a fold over the lines from no pending fragments |
| Reconstructor.Reconstruct | src/orchid_cooker.py:175-187 | the loop returns exactly `RawSentences(lines)`, the fold that specifies `gen_sentences` |
| Reconstructor.RawCount | src/orchid_cooker.py:182-186 | one raw sentence per closing line, whatever else the input holds |
| Reconstructor.PendingIsTrailingFragments | src/orchid_cooker.py:179-186 | the pending fragments are those of the continuation lines after the last closing line |
| Reconstructor.RawAppend | src/orchid_cooker.py:178-186 | reading `a` and then `b` gives what reading `a + b` gives |
| Reconstructor.RawSentencesStep | src/orchid_cooker.py:179-186 | a closing line emits the fragments since the previous closing line, concatenated, then its own text before the first `//`, and clears the fragments; a continuation line appends the text before its first marker; any other line changes nothing |
| Reconstructor.CutAtFirstMarker | src/orchid_cooker.py:175-187 | fragments are cut at the first marker, and a bare `//` closes nothing: `["ab\\\\", "cd//e//", "//"]` gives `["abcd"]` |
| Reconstructor.LastEosEnd | src/orchid_cooker.py:182-186 | the position after the last closing line: no closing line follows it |
| Strings.StartsWith | src/orchid_cooker.py:140 | `s` begins with `p`; the test `ReplaceAll` makes at each position |
| Strings.EndsWith | src/orchid_cooker.py:166 | `str.endswith`: the last `|p|` characters of `s` are `p` |
| Strings.Contains | src/orchid_cooker.py:166 | the `in` operator on strings: `p` starts at some position of `s` |
| Strings.ContainsAt | src/orchid_cooker.py:169 | `p in s` holds exactly when `p` starts at some index of `s`, in both directions |
| Strings.Before | src/orchid_cooker.py:167 | `partition(sep)[0]` is a prefix that stops at the first separator, or all of the string when there is none |
| Strings.BeforeHasNoSep | src/orchid_cooker.py:180-183 | the text before the first separator holds no separator |
| Strings.ReplaceAll | src/orchid_cooker.py:140 | `s.replace(k, v)` with a non-empty key that does not occur leaves `s` unchanged |
| Strings.ReplaceAllPartition | src/orchid_cooker.py:140 | when the key occurs, `s.replace(k, v)` is `s.partition(k)[0]`, then `v`, then the replacement applied to the text after the first occurrence: every leftmost non-overlapping occurrence is replaced |
| Strings.ReplaceAllKeyFirst | src/orchid_cooker.py:140 | a key at the start is replaced by its value and the scan resumes after it |
| Strings.ReplaceAllSkipsChars | src/orchid_cooker.py:140 | a prefix none of whose characters can start the key is copied unchanged |
| Strings.NoFirstCharNoKey | src/orchid_cooker.py:140 | a string without the key's first character does not contain the key |
| Strings.CollapseSpaces | src/orchid_cooker.py:140 | `re.sub(' +', ' ', s)` leaves no two adjacent spaces, is no longer than `s`, and keeps its first character |
| Strings.CollapseRunStep | src/orchid_cooker.py:140 | a run of two spaces collapses as a single space does; with the fixed-point lemma this makes every run of spaces exactly one space |
| Strings.CollapseFixedPoint | src/orchid_cooker.py:140 | collapsing leaves a string unchanged if and only if it has no run of spaces |
| Strings.CollapseIdempotent | src/orchid_cooker.py:140 | collapsing twice is collapsing once |
| Strings.CollapseKeepsText | src/orchid_cooker.py:140 | collapsing deletes only spaces |
| Strings.CollapseNoNewOccurrence | src/orchid_cooker.py:140 | collapsing never creates an occurrence of a space-free string, so it cannot create a placeholder key |
| Strings.Split | src/orchid_cooker.py:156 | `str.split()` with no argument: the maximal runs of non-whitespace characters, each a non-empty word without whitespace |
| Strings.Join | src/orchid_cooker.py:138 | `sep.join(ws)`: the words with `sep` between neighbours, and the empty string for no words |
| Strings.SplitJoin | src/orchid_cooker.py:156-157 | joining words with whitespace, adding trailing whitespace, and splitting again gives the words back |
| Strings.SplitCountsCharacters | src/orchid_cooker.py:226-231 | the words of `s.split()` hold exactly the non-whitespace characters of `s` |
| Decoder.CharSym | src/orchid_cooker.py:26-57 | the `CHAR_SYMS` entry at each position, in listing order, key and value as written |
| Decoder.Decode | src/orchid_cooker.py:139-140 | the line the inner loop leaves: every entry applied in order, each followed by a space collapse |
| Decoder.DecodeLine | src/orchid_cooker.py:139-140 | the inner loop over `CHAR_SYMS` returns `Decode(s)`: each entry applied once, in listing order, each followed by a space collapse |
| Decoder.DecodeNoDoubleSpace | src/orchid_cooker.py:139-140 | a decoded line never holds two adjacent spaces |
| Decoder.CharSymsKeysOk | src/orchid_cooker.py:26-57 | every key of `CHAR_SYMS` has at least five characters and no space, and starts with `<`, `l`, `r` or `t` |
| Decoder.BracketedKeys | src/orchid_cooker.py:28-53 | each of the first 26 keys starts with `<` |
| Decoder.UnbracketedKeys | src/orchid_cooker.py:54-57 | the last four entries are `low_line`, `left_curly_bracket`, `right_curly_bracket` and `tilde`, written without brackets |
| Decoder.DecodeFirstEntry | src/orchid_cooker.py:28 | the first entry is `<space>`, and it maps to the empty string |
| Decoder.DecodeWithoutKeys | src/orchid_cooker.py:139-140 | a string that holds none of the remaining keys decodes to its space-collapsed form |
| Decoder.DecodeIdempotent | src/orchid_cooker.py:139-140 | on text without placeholder keys, decoding is collapsing, and decoding twice is decoding once |
| Decoder.ShortDecodesToItself | src/orchid_cooker.py:139-140 | a string shorter than five characters with no space run decodes to itself |
| Decoder.PlainTextDecodesToItself | src/orchid_cooker.py:139-140 | text with no space run and none of `<`, `l`, `r`, `t` decodes to itself |
| Decoder.SpacePlaceholderMerges | src/orchid_cooker.py:138-140 | `a <space> b` decodes to `a b`: the placeholder deletes itself and the two joining spaces collapse to one |
| Decoder.DecodeOnlySpacePlaceholders | src/orchid_cooker.py:138-140 | `n` joined `<space>` words decode to nothing when `n` is 1, and to one space otherwise |
| Decoder.SkipBracketed | src/orchid_cooker.py:139-140 | text without `<` and without space runs passes the 26 bracketed entries unchanged |
| Decoder.ReachesLastEntry | src/orchid_cooker.py:139-140 | text of plain characters around `tilde` reaches the last entry unchanged |
| Decoder.LastEntry | src/orchid_cooker.py:139-140 | the last entry replaces `tilde` by `~` and collapses spaces |
| Decoder.TildeInsideWord | src/orchid_cooker.py:139-140 | the plain letters `tilde` inside a word decode to `~`: `a + "tilde" + b` gives `a + "~" + b` |
| Gold.Retained | src/orchid_cooker.py:135-137 | the sentences the `continue` lets through: those with at least `threshold` words, in order |
| Gold.SlRecord | src/orchid_cooker.py:138-141 | the SL record of one sentence: its words joined by a space, then decoded |
| Gold.WlRecord | src/orchid_cooker.py:153-157 | the WL record of one sentence: the words of its SL record, one per line, with a final line break |
| Gold.SlGold | src/orchid_cooker.py:131-143 | the value `gen_gold_data_SL(data, threshold)` returns |
| Gold.WlGold | src/orchid_cooker.py:146-159 | the value `gen_gold_data_WL(data, threshold)` returns |
| Gold.GenGoldData | src/orchid_cooker.py:121-128 | format `sl` gives `SlGold`, format `wl` gives `WlGold`, and any other format returns the input lines unchanged |
| Gold.GenGoldDataSL | src/orchid_cooker.py:131-143 | returns `SlGold`: one decoded, space-joined record per segmented sentence with at least `threshold` words, in order |
| Gold.GenGoldDataWL | src/orchid_cooker.py:146-159 | returns `WlGold`: the words of each SL record, one per line, with a final line break |
| Gold.RetainedIff | src/orchid_cooker.py:136-137 | a sentence is kept if and only if it is a segmented sentence with at least `threshold` words |
| Gold.RetainedAppend | src/orchid_cooker.py:135-137 | filtering keeps the relative order: it distributes over concatenation |
| Gold.RetainedShrinks | src/orchid_cooker.py:135-137 | filtering never adds a sentence |
| Gold.RetainedMonotone | src/orchid_cooker.py:135-137 | filtering at `t1` and then at a larger `t2` is filtering at `t2`, and keeps no more sentences |
| Gold.RetainedAll | src/orchid_cooker.py:135-137 | a threshold no sentence falls below keeps every sentence |
| Gold.DefaultThresholdKeepsAll | src/orchid_cooker.py:131-159 | with threshold 1 or less every sentence is kept, and both formats give one record per sentence boundary reached while words are pending |
| Gold.SlRecordHasNoSpaceRun | src/orchid_cooker.py:138-142 | an SL record never holds two adjacent spaces |
| Gold.WlSameWordsAsSl | src/orchid_cooker.py:156-157 | a WL record carries exactly the words of the SL record of the same sentence |
| Gold.SpaceOnlySentence | src/orchid_cooker.py:153-157 | a sentence of `<space>` words only gives the SL record `""` (one word) or `" "` (more words), and the WL record `"\n"` |
| Gold.TwoWordLines | src/orchid_cooker.py:162-172 | two tagged plain words and `//` segment to one sentence of those two words |
| Gold.TwoWordRecords | src/orchid_cooker.py:153-157 | two plain words give the SL record `w1 w2` and the WL record `w1\nw2\n` |
| Gold.TwoWordSentence | src/orchid_cooker.py:121-159 | the lines `w1/NN`, `w2/VV`, `//` give exactly the SL gold `[w1 + " " + w2]` and the WL gold `[w1 + "\n" + w2 + "\n"]` |
| Report.Report | src/orchid_cooker.py:219-239 | the integer statistics `report` computes, or `None` where `max` of an empty list raises |
| Report.SplitAll | src/orchid_cooker.py:226 | `[s.split() for s in sents]`: one word list per record, at the same position |
| Report.FirstLongest | src/orchid_cooker.py:233-235 | `max(xs, key=len)` picks the first of the longest elements |
| Report.FirstShortest | src/orchid_cooker.py:237-239 | `min(xs, key=len)` picks the first of the shortest elements |
| Report.ReportFailsIff | src/orchid_cooker.py:226-239 | the statistics are undefined (Python raises on `max` of an empty list) if and only if every gold record is whitespace only |
| Report.ReportCounts | src/orchid_cooker.py:220-231 | the counts are the input lines, one raw sentence per closing line, the records, and the words and non-whitespace characters over all records |
| Report.WordsCounts | src/orchid_cooker.py:226-231 | the flattened word list has as many words and characters as the records hold |
| Report.ReportSentenceExtremes | src/orchid_cooker.py:233-238 | `max_wps`/`max_cps` come from the first record with the most words; `min_wps`/`min_cps` from the first with the fewest |
| Report.ReportWordExtremes | src/orchid_cooker.py:235-239 | `max_cpw` and `min_cpw` are the lengths of the longest and shortest word over all records |
| Report.ReportBounds | src/orchid_cooker.py:233-243 | min is at most max, and `min * n <= total <= max * n` for the words per sentence and the characters per word, so each average lies between its minimum and maximum |
| Report.MaxCpsBelowMinCps | src/orchid_cooker.py:234-238 | a two-short-word record before a one-long-word record gives `max_cps < min_cps` |

## Left out

- Command-line parsing, file reading and writing, gzip detection, and the
  `cook` driver: these are I/O. The models take the input as a list of lines
  and return the output records.
- `log` and the formatting of the report: output only. `Report` returns the
  numbers it would print.
- Report.ReportBounds: the three averages `avg_wps`, `avg_cps` and `avg_cpw`
  are floating point, so they are not computed. They are stated through
  their numerators and denominators.
- `gen_paragraphs` is commented out in the source.
- Comment symbols, `LINE_DELIM`, the paragraph pattern, and `SL_ATTR_DELIM`
  and `WL_ATTR_DELIM` are not used by the modelled functions.
- Strings.CollapseSpaces: `re.sub(' +', ' ', _)` is modelled as an explicit
  collapse of space runs, not through a regular-expression engine.
- Strings.Split: `str.split()` separates on a fixed set of whitespace
  characters, the ones `str.isspace()` accepts.
- Decoder.CharSym: the dictionary's iteration order is its insertion order,
  so the table is a function of the position in the listing.
- Python exceptions from `max`/`min` of an empty list become `None` in
  `Report`. Other exceptions (an unreadable file) belong to the I/O left out
  above.
