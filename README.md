# WordCount text analysis, modelled in Dafny

WordCount is a set of five Python scripts that count words and phrases in a
plain-text file:

- `wdct.py` counts word frequencies with a configurable tokeniser. It applies
  an exclusion list and a minimum word length, drops numbers, counts with
  `collections.Counter`, and reports the most common words.
- `word_frq.py` does the same with a letter-only regular-expression tokeniser.
- `phrase_frq.py` does several things:
  - it cuts the text into sentence fragments at runs of punctuation;
  - it collects every n-word phrase of every fragment and drops the phrases
    listed in an exclusion file;
  - it counts each phrase's overlapping occurrences fragment by fragment;
  - it ranks the counts.
- `ct_phrase.py` counts a fixed list of phrases in the same way.
- `ct_word.py` counts a fixed list of key words.

The model follows the scripts function by function. Each module corresponds
to one script:

- `Text`: the ASCII string primitives the scripts use (`lower`, `strip`,
  `split`, `splitlines`, `replace`, `join`).
- `Seqs`: order-preserving filters, the exclusion filter both word counters
  share, and the `while x in xs: xs.remove(x)` idiom.
- `Ranking`: Python dicts as insertion-ordered lists of `(key, count)`
  items. It also holds `Counter`, the stable descending `sorted`, list
  prefixes and `most_common`.
- `Tokens`: the regular-expression `split_words` shared by the four
  regex-based scripts.
- `Wdct`: `wdct.py`.
- `PhraseFrq`: `phrase_frq.py`, whose functions `ct_phrase.py` repeats
  verbatim.
- `WordFrq`: `word_frq.py`.
- `CtPhrase`: the main block of `ct_phrase.py`.
- `CtWord`: `ct_word.py`.

Where a script loops or updates a list in place, the model is a method with
a loop. The method is proved against a function that states the result, and
lemmas prove what the scripts promise about that function:

- filters keep exactly the matching items, in order;
- counts are exact numbers of occurrences;
- sorts are permutations that are ranked and stable.

File contents are parameters, not files.

Each member has one row in the table below, citing one source span. Several
members model more than one script:

- The `PhraseFrq` members citing `phrase_frq.py` also model the identical
  functions of `ct_phrase.py` (lines 36-126).
- `Tokens.SplitWords` with the letter-only class is the `split_words` of
  `word_frq.py` (lines 70-81) and `ct_word.py` (lines 9-20).
- `Ranking.TallyGet` is `Counter` in `wdct.py` (line 358) as well.
- `Seqs.WithoutSpec` and `Seqs.WithoutIdempotent` also describe
  `exclude_words` in `word_frq.py` (lines 95-100).
- `Ranking.SortDescStable` is the sort of `ct_word.py` (line 83) as well.

## Model

| member | source | states |
|---|---|---|
| Tokens.SplitWords | phrase_frq.py:99-110 | every token is a non-empty run of lower-case letters and apostrophes; with the apostrophe left out of the class, a non-empty run of lower-case letters `a`-`z` |
| Tokens.SplitWordsJoin | phrase_frq.py:99-110 | tokenising tokens joined by single spaces gives the same tokens back |
| Tokens.ContractionKept | ct_phrase.py:73-79 | with the apostrophe kept, `"Don't"` is the single token `"don't"` |
| Tokens.ContractionSplit | word_frq.py:75-81 | the letter-only tokeniser splits `"Don't"` into `"don"` and `"t"` |
| Wdct.SplitWords | wdct.py:87-111 | the result is the whitespace split of the lower-cased text after each `split_char` character and then each `split_chars` string is replaced by a space; every token is non-empty, has no whitespace, no upper-case letter and no character of `split_char` |
| Wdct.ExcludeWords | wdct.py:114-132 | an empty exclusion string returns the words unchanged; otherwise the result is the words minus every occurrence of each word that `split_words` finds in the lower-cased exclusion string |
| Seqs.WithoutSpec | wdct.py:127-132 | no exclusion word survives; every other word keeps its number of occurrences; the result is a subsequence of the input |
| Seqs.WithoutIdempotent | wdct.py:129-131 | excluding twice with the same list equals excluding once |
| Wdct.MinWordLength | wdct.py:135-147 | a threshold of at most 1 returns the list as it is; otherwise it returns exactly the words of at least that length, in order |
| Wdct.MinWordLengthShortcut | wdct.py:140-141 | for non-empty words the shortcut agrees with the length filter |
| Wdct.IsNumSpec | wdct.py:150-172 | true exactly when the string is non-empty and, after one leading sign is dropped, has at most one `.` and a non-empty digit string before it; text after the point is never examined |
| Wdct.IsNumFirstSection | wdct.py:168-172 | digits, a point and any text without another point make a number, so `"12.ab"` counts: the loop returns on the first section |
| Wdct.IsNumSigned | wdct.py:159-160 | one leading `-` or `+` is dropped, so a signed string is a number exactly when the unsigned rest is |
| Wdct.IsNumBareSign | wdct.py:156-172 | `""` and a lone `"-"` are not numbers |
| Wdct.IsNumLeadingPoint | wdct.py:168-172 | a string starting with `.` has an empty first section and is not a number |
| Wdct.IsNumTwoPoints | wdct.py:163-166 | a string with two points has more than two sections and is never a number |
| Wdct.DelNum | wdct.py:175-187 | the result is the words for which `is_num` is false, in order |
| Wdct.DelNumSpec | wdct.py:175-187 | exactly the non-numbers survive, each as often as before, as a subsequence |
| Wdct.RemoveLessCounts | wdct.py:190-203 | a threshold of at most 1 returns the list as it is; otherwise it returns exactly the pairs counted at least that often, in order |
| Wdct.RemoveLessCountsShortcut | wdct.py:196-197 | on the most common items of a Counter, the shortcut agrees with the count filter |
| Wdct.Printed | wdct.py:234-235 | the printed pairs are `remove_less_counts(most_common(top_common), min_count)` |
| Wdct.PrintedSpec | wdct.py:234-235 | the report has at most `top_common` pairs and no more than there are distinct words; it is ranked; each pair is a word with its exact number of occurrences and counted at least `min_count` times |
| Wdct.CleanedSpec | wdct.py:343-351 | every counted word is a token, long enough, not a number and not excluded |
| Wdct.WordCount | wdct.py:342-361 | the counted words are the tokens after exclusion, the length filter and `del_num`, and the printed pairs are `remove_less_counts(Counter(words).most_common(top_common), min_count)`; so every counted word is a token, long enough and not a number, and the report is ranked, at most `top_common` long, with exact counts of at least `min_count` |
| Ranking.TallyKeys | word_frq.py:197 | `Counter(words)` has one item per distinct word, in order of first occurrence |
| Ranking.TallyGet | word_frq.py:197 | `Counter(words)` maps each word to its number of occurrences and holds no other key |
| Ranking.TallyTotal | word_frq.py:197 | the counts of `Counter(words)` add up to `len(words)` |
| Ranking.SortDesc | ct_phrase.py:169 | the sort is a permutation of the items and its counts never increase |
| Ranking.SortDescStable | ct_phrase.py:169 | items of equal count keep their relative order |
| Ranking.Top | phrase_frq.py:265-269 | the result is the first `top_range` items, or all of them when there are fewer, and none when `top_range <= 0` |
| Ranking.MostCommonSpec | wdct.py:234 | `most_common(n)` returns `n` items, or all when there are fewer; the items are ranked and come from the Counter |
| Ranking.MostCommonLargest | word_frq.py:156 | no item left out of `most_common(n)` counts more than one kept |
| Ranking.MostCommonTies | word_frq.py:156 | `most_common(n)` keeps items of equal count in insertion order |
| Ranking.Put | ct_word.py:75 | `counts[key] = count` maps the key to the count and leaves every other key as it was |
| Ranking.PutKeys | phrase_frq.py:241 | assigning an existing key keeps its position; a new key goes at the end |
| WordFrq.ExcludeWords | word_frq.py:84-100 | an empty exclusion string returns the words unchanged; otherwise every occurrence of each letter-only token of the lower-cased exclusion string is removed |
| WordFrq.ExclusionCommaList | word_frq.py:95-96 | the exclusion string `"The,A"` yields the words `"the"` and `"a"` |
| WordFrq.LeastWordLength | word_frq.py:103-116 | the result is the words of at least `max(least_length, 1)` characters, in order |
| WordFrq.LeastWordLengthSpec | word_frq.py:108-116 | exactly the non-empty words of at least `least_length` characters survive, as a subsequence; a threshold up to 1 keeps a list of non-empty words whole |
| WordFrq.RemoveLessCounts | word_frq.py:119-129 | the result is the pairs counted at least `max(least_count, 1)` times, in order |
| WordFrq.RemoveLessCountsCounter | word_frq.py:121-122 | a threshold up to 1 removes nothing from the most common items of a Counter |
| WordFrq.Printed | word_frq.py:156-157 | the printed pairs are `remove_less_counts(most_common(top_common), least_count)` |
| WordFrq.PrintedSpec | word_frq.py:156-157 | the report has at most `top_common` pairs and no more than there are distinct words; it is ranked; each pair is a word with its exact number of occurrences and counted at least `least_count` times |
| WordFrq.CleanedSpec | word_frq.py:189-192 | every counted word is a letter-only token, long enough and not excluded |
| WordFrq.WordFrequency | word_frq.py:188-197 | the counted words are the letter-only tokens after exclusion and the length filter, and the printed pairs are `most_common(top_common)` filtered by `least_count`; so the words are long enough and not excluded, and the report is ranked and bounded, with exact counts of at least `least_count` |
| PhraseFrq.ReplaceDeletes | phrase_frq.py:78-79 | `replace(char, '')` deletes every occurrence of the character and nothing else |
| PhraseFrq.RemoveChar | phrase_frq.py:67-79 | the result is the input with every listed character deleted |
| PhraseFrq.CharsRemovedSpec | phrase_frq.py:76-79 | no listed character is left; every other character keeps its number of occurrences and its order |
| PhraseFrq.CharsRemovedIdempotent | phrase_frq.py:76-79 | removing the same characters again changes nothing |
| PhraseFrq.FragmentsCount | phrase_frq.py:89-90 | `re.split` on runs of delimiters gives one more piece than there are maximal delimiter runs, keeping empty pieces |
| PhraseFrq.FragmentsClear | phrase_frq.py:89-90 | no piece holds a delimiter |
| PhraseFrq.SplitSentence | phrase_frq.py:82-96 | the result is the pieces between maximal runs of the split characters, each stripped and lower-cased |
| PhraseFrq.SentencesSpec | phrase_frq.py:89-96 | there is one fragment more than there are delimiter runs; every fragment is lower-cased, has no surrounding whitespace and holds no delimiter |
| PhraseFrq.DefaultDelimiters | phrase_frq.py:82 | the default split characters `,.!?:;()` are literal inside a character class and none is a letter |
| PhraseFrq.RStripTerminated | phrase_frq.py:143-145 | `rstrip` of the words each followed by a space is the words joined by single spaces |
| PhraseFrq.WindowPhrase | phrase_frq.py:142-145 | the phrase built from position `j` is the `k` words from `j` joined by single spaces |
| PhraseFrq.BuildPhrase | phrase_frq.py:142-145 | the inner loop builds the `k` words from position `s_index` joined by single spaces |
| PhraseFrq.PhrasesInSentence | phrase_frq.py:113-151 | `None` when `phrase_length < 2`; otherwise the set of every `k` consecutive words of the sentence joined by single spaces |
| PhraseFrq.ElemsWindows | phrase_frq.py:140-150 | the phrases collected at every position where a whole phrase fits form exactly the window set |
| PhraseFrq.WindowsSpec | phrase_frq.py:124-151 | the set is empty when the sentence has fewer than `k` words; it never holds `""`; each phrase splits back into the words it was made from |
| PhraseFrq.PhraseSet | phrase_frq.py:154-172 | the result is the union over all sentences of their phrases of `max(phrase_length, 2)` words, without `""` |
| PhraseFrq.AllWindowsSpec | phrase_frq.py:163-166 | a phrase is collected exactly when it is the `k` words at some position of some sentence |
| PhraseFrq.NoEmptyPhrase | phrase_frq.py:168-169 | no sentence yields the empty phrase |
| PhraseFrq.ExcludePhrase | phrase_frq.py:175-195 | an empty exclusion name returns the phrases unchanged; otherwise the result is the phrases minus the lower-cased lines of the exclusion contents |
| PhraseFrq.DiscardAll | phrase_frq.py:193-194 | `while x in phrases: phrases.remove(x)` leaves the set without `x` and otherwise unchanged |
| PhraseFrq.ExcludeListed | phrase_frq.py:184-195 | an exclusion file of lower-case lines removes exactly those phrases and leaves the others |
| PhraseFrq.ListAInB | phrase_frq.py:198-223 | the count is the number of positions of B's words where A's words occur as a contiguous run, overlaps included |
| PhraseFrq.OccurrencesEmptyNeedle | phrase_frq.py:210-221 | an empty needle matches at every position, so the count is the haystack length |
| PhraseFrq.OccurrencesBound | ct_phrase.py:94-104 | the count is at most `len(b) - len(a) + 1`, and 0 when the needle is longer than the haystack |
| PhraseFrq.OccurrencesSome | phrase_frq.py:210-221 | the count is at least 1 exactly when the needle occurs somewhere |
| PhraseFrq.ListAInBOverlap | phrase_frq.py:210-221 | `"a a"` occurs twice in `"a a a"` |
| PhraseFrq.CountPhrase | phrase_frq.py:226-243 | the dict is filled phrase by phrase with the phrase's total count over all sentences |
| PhraseFrq.CountPhraseSpec | phrase_frq.py:232-243 | the keys are the distinct phrases in first-occurrence order; a phrase maps to its total count and any other key is absent |
| PhraseFrq.PhraseCountsEntry | phrase_frq.py:232-243 | every item of the dict is one of the phrases with its total count over the sentences |
| PhraseFrq.TotalCountAt | phrase_frq.py:238-239 | the total is at least the count in any one sentence |
| PhraseFrq.CandidateCounted | phrase_frq.py:324-326 | every phrase collected from the sentences is counted at least once |
| PhraseFrq.StraddleNotCounted | ct_phrase.py:167-168 | `"in which"` split across the fragments `"it is in"` and `"which case"` counts 0 |
| PhraseFrq.PruneStep | phrase_frq.py:255-257 | after the keys visited so far are pruned, the current key still has its original count, and deleting it extends the pruned part |
| PhraseFrq.PruneCounts | phrase_frq.py:255-257 | deleting every key counted below `least_count` leaves exactly the other items, in dict order |
| PhraseFrq.TopItems | phrase_frq.py:266-269 | the items at positions below `top_range` are the first `top_range` items, or all of them |
| PhraseFrq.TopCounts | phrase_frq.py:246-271 | the dict left behind is the items counted at least `least_count` times; the result is the first `top_range` of them after the stable descending sort |
| PhraseFrq.TopCountsSpec | phrase_frq.py:255-271 | the result has `min(top_range, n)` items, where `n` is the number of items counted at least `least_count`; it is ranked; each item comes from the dict and is counted at least `least_count` times |
| PhraseFrq.TopCountsTies | phrase_frq.py:259-269 | for each count, the items returned with that count are the first ones of that count in dict order |
| PhraseFrq.PrunedPhrases | phrase_frq.py:255-257 | after pruning, the dict holds one item for each phrase counted at least `least_count` times and no other |
| PhraseFrq.ReportSize | phrase_frq.py:246-271 | `top_counts` of the phrase counts returns `min(top_range, n)` items, `n` being the number of phrases counted at least `least_count` times |
| PhraseFrq.ReportLargest | phrase_frq.py:259-269 | a phrase counted at least `least_count` times but left out of `top_counts` is counted no more than any phrase returned |
| PhraseFrq.Enumerate | phrase_frq.py:234 | iterating a set visits each element once |
| PhraseFrq.PhraseFrequency | phrase_frq.py:320-328 | with the set iteration order it returns, the report is `top_counts(count_phrase(phrases, sentences), top_range, least_count)`; it is ranked and holds `min(top_range, n)` items, `n` being the number of collected, non-excluded phrases counted at least `least_count` times; each item is such a phrase with its exact total count; no such phrase left out is counted more than an item kept; items of equal count come in iteration order |
| CtPhrase.CountGivenPhrases | ct_phrase.py:164-169 | the dict has one key per distinct given phrase, each with its total count over the fragments; the result is a ranked permutation of its items, ties in phrase-list order |
| CtWord.CountKeys | ct_word.py:66-75 | the dict is filled key by key with the key's number of occurrences among the words |
| CtWord.CountKeysSpec | ct_word.py:66-75 | the keys are the distinct keys of the key list, in order; each maps to its number of occurrences, between 0 and `len(words)`, which agrees with `Counter`; other keys are absent |
| CtWord.CountWords | ct_word.py:64-83 | the counts are those of the letter-only tokens; the result is a ranked permutation of the items, ties in key-list order |

## Left out

- Reading files (`open_source`, `open_exclusion`, the `with open` read in `ct_word.py`) is not modelled. Its error handling is left out too. The file contents are string parameters.
- `PhraseFrq.ExcludePhrase` takes both the exclusion file name and the file's contents. The name is only compared with `''`, as the script does.
- Printing and report files are not modelled: `report_results` and `output_results`, with their timestamps and appended output. Only the lines that compute the printed pairs are modelled.
- `open_mask` and `draw_word_cloud` in `wdct.py` are left out. They render images through PIL, numpy, matplotlib and wordcloud.
- Paths and tuning constants of the main blocks are left out. They become parameters.
- Characters are ASCII throughout:
  - `lower`, `strip`, `split` and `isdigit` act on ASCII only, with ASCII whitespace.
  - Non-ASCII characters in `wdct.py`'s default `split_char` are treated as ordinary characters.
- The regular expressions are modelled directly: the letter classes of `split_words`, and `re.split` on runs of listed characters.
- `PhraseFrq.SplitSentence` requires split characters that a character class reads literally (no `\`, `[`, `]`, `^` or `-`). With those characters the regular expression means something else, and that is not modelled.
- `PhraseFrq.SentencesSpec`: the claim that no fragment holds a delimiter needs delimiters that are not lower-case letters. Lower-casing could otherwise create one.
- Set iteration order is not modelled:
  - `PhraseFrq.Enumerate` returns the elements in an unspecified order.
  - `PhraseFrq.PhraseFrequency` therefore also returns the order it used, and states the order of ties relative to it.
  - `phrase_set` extends a list with sets. Only the final set is observable, so the model collects into a set.
- In-place updates are not modelled as such; each is a returned value:
  - `exclude_words` removing from `words`;
  - `exclude_phrase` removing from `phrases`;
  - `split_sentence` overwriting its list;
  - `top_counts` deleting from `count_dict`, which becomes the `pruned` out-parameter.

  Aliasing between the caller's list, set or dict and the function's is not modelled.
- `Ranking.MostCommonSpec` models `most_common` as a stable descending sort followed by a prefix. This is what `heapq.nlargest` returns; its heap mechanics are not modelled.
