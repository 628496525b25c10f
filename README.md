# rust-common, modelled in Dafny

`rust-common` is a Rust utility crate. This project models its behavioural
core and proves properties of it:

- **Word-case conversion** (`src/str/convert.rs`). A word is tested against a
  `WordCase` and rewritten into it (lower, upper, capitalised). Text is split
  into words on a separator character or before each uppercase letter, and a
  word list is rewritten into a target `Case` such as snake, kebab, Pascal or
  camel. A `CapitalizedString` keeps the words, the case and an optional
  verbatim copy of its source text. `change_case` drops that copy when the
  words change, and rendering returns the copy when present, otherwise the
  words joined with the separator. `try_from` picks the separator from the
  delimiters `' '`, `'-'`, `'_'` and refuses text that mixes them.
- **Edit-distance ranking** (`src/str/filter.rs`). The Levenshtein distance is
  computed with a two-row table that is filled in place. A recursive
  definition serves as the oracle. The distance is normalised by the larger
  byte length. A boolean filter can be promoted to a 0/1 metric, a common
  prefix boosts a score, and candidates are sorted stably by score.
- **Iterator adapters** (`src/extensions/iter.rs`):
  - `is_sorted_by` and `reduce_early_return`;
  - chunked windows and a filter that sees each item's neighbours;
  - an iterator with an announced size;
  - `open_border_pairs`, which yields `Start`, `Middle` and `End` states.
- **A packed bit set** (`src/collections/bit_set.rs`). It holds bits in a
  byte array, little endian. It supports bit access, counting, the bitwise
  operators and their assigning forms, left shifts, conversions to and from
  integers, and a double-ended bit iterator.
- **Small extensions**:
  - find-or-push on a vector (`src/extensions/vec.rs`);
  - hour/minute/second arithmetic and display of durations
    (`src/extensions/duration.rs`);
  - `is_none_or` and filling an empty option from a future
    (`src/extensions/option.rs`);
  - the borrowed-or-owned pointer types `Boo`, `Mob` and `Moo`
    (`src/boo.rs`);
  - the decision functions of the crate root (`src/lib.rs`): character
    comparison, the consent prompt's answer logic and the log-level mapping.

Modules, one per source file:

- `Convert` (convert.dfy)
- `Filter` (filter.dfy) and `Levenshtein` (levenshtein.dfy)
- `Iter` (iter.dfy)
- `BitSets` (bitset.dfy)
- `Vecs` (vec.dfy)
- `Durations` (duration.dfy)
- `Options` (option.dfy)
- `Boos` (boo.dfy)
- `Lib` (lib.dfy)
- shared helpers: `Chars` (ASCII case, UTF-8 length) and `Wrappers` (`Option`, `Result`)

How the model is built:

- **Pure source code becomes functions and lemmas.** This covers word tests,
  splitting, the metrics, the duration fields and the pointer conversions.
- **Code that mutates becomes imperative Dafny.**
  - The iterator structs, `CapitalizedString`, the vector, the option slot
    and the bit set are classes whose methods update their fields.
  - The bit set keeps its `array<bv8>`.
  - `dynamic_distance` fills two arrays row by row and swaps them.
  - Each method's `ensures` ties its result or new state to a specification
    function. Lemmas prove what the source promises about that function.
- **Rust references.** A `&mut T` inside a `Moo` or `Mob` is a heap `Cell`.
  The `&mut T` that the vector methods return is the index of the slot it
  points at.
- **Panics.** A panic in the source is a precondition, for example `expect_*`
  on the wrong variant, or an index outside the set.

## Model

| member | source | states |
|---|---|---|
| Lib.CompareChar | src/lib.rs:56-58 | without ignore-case the comparison is equality; equal chars always match; with ignore-case a lowercase letter matches its uppercase form, and matching chars agree once lowercased |
| Lib.CompareCharSymmetric | src/lib.rs:56-58 | the comparison is symmetric for either flag |
| Lib.CompareCharNonLetter | src/lib.rs:56-58 | a character that is not an ASCII letter matches only itself, even ignoring case |
| Lib.NewInputs | src/lib.rs:85-92 | `trys` defaults to 3; any default answer sets `yes`; `no` is set only by the default answer "no" |
| Lib.DefaultNoConsents | src/lib.rs:85-92 | with the default answer "no" both flags are set and `ask_consent` answers yes whatever is typed |
| Lib.NewInputsFixed | src/lib.rs:85-92 | corrected constructor: `yes` iff the default is yes, `no` iff it is no, never both |
| Lib.DefaultAnswerDecides | src/lib.rs:164-167 | with the corrected constructor a default answer is the result of `ask_consent`, independent of what is typed |
| Lib.ParseConsent | src/lib.rs:168-176 | "y", "yes", "j", "ja" mean yes, "n", "no", "nein" mean no, and anything else is unparsable |
| Lib.FirstAnswer | src/lib.rs:96-120 | the read loop gives an answer iff one of the first `attempts` lines parses, and that answer is the first parsable line's |
| Lib.AskConsent | src/lib.rs:164-181 | a set flag answers `yes` without reading; otherwise the answer is yes iff the first parsable line among the first `trys - 1` says yes |
| Lib.ToLevel | src/lib.rs:367-381 | silent gives Error, else verbose gives Trace, else debug gives Debug, else warn gives Warn; Info exactly when no flag is set |
| Convert.NotInCase | src/str/convert.rs:22-32 | a word out of some case is never empty |
| Convert.NotInCaseMeaning | src/str/convert.rs:22-32 | an empty word is in every case; not lowercase iff some char is uppercase; not uppercase iff some char is lowercase; not capitalised iff the first char is lowercase or a later char is uppercase |
| Convert.ConvertWord | src/str/convert.rs:35-48 | the converted word has the same length, is in the target case, and equals the input up to case, char by char |
| Convert.ConvertWordInCaseIsIdentity | src/str/convert.rs:35-48 | converting a word already in case returns it unchanged |
| Convert.ConvertIfNeeded | src/str/convert.rs:50-62 | the changed flag is raised iff it was set or the word was out of case; without a target or in case the word is kept; with a target the result is in case |
| Convert.SplitSeparator | src/str/convert.rs:132-134 | at least one piece, no piece holds the separator, and joining the pieces with it gives the input back |
| Convert.SplitSeparatorWhole | src/str/convert.rs:132-134 | text without the separator is one piece, so the empty text gives one empty piece |
| Convert.SplitJoin | src/str/convert.rs:366-382 | splitting words joined by a separator they do not contain gives the words back |
| Convert.SplitCapitalized | src/str/convert.rs:135-147 | text without an uppercase char gives no pieces; otherwise the non-empty pieces concatenate to the text |
| Convert.SplitCapitalizedCuts | src/str/convert.rs:135-147 | every piece but a leading one starts with its only uppercase char, and a leading piece has none |
| Convert.CapitalizedPiecesUnique | src/str/convert.rs:135-147 | two lists of pieces, each cut before its uppercase chars, that concatenate to the same text are equal |
| Convert.SplitCapitalizedJoin | src/str/convert.rs:135-147 | splitting the concatenation of such pieces gives the pieces back |
| Convert.SplitCapitalizedOneWord | src/str/convert.rs:135-147 | a word whose only uppercase char is the first one is split into itself |
| Convert.ConvertFrom | src/str/convert.rs:149-175 | the word count is kept; the changed flag is raised iff some word needed conversion; each word is converted to the case its position demands |
| Convert.ConvertWords | src/str/convert.rs:149-175 | the word count is kept, the flag is raised iff some word needed conversion, every word with a target case is in it afterwards, and an unchanged flag means the words are untouched |
| Convert.ConvertAll | src/str/convert.rs:149-175 | when every word is out of a single target case, the flag is raised and each word is converted |
| Convert.Detect | src/str/convert.rs:195-231 | no uppercase char gives Lower; uppercase without lowercase gives Upper; both give Pascal when the first char is uppercase, else Camel |
| Convert.DetectCase | src/str/convert.rs:202-227 | the flag loop of `new` computes the detected case |
| Convert.NewSnapshot | src/str/convert.rs:195-231 | a new string keeps its text as the copy, its words join back to the text, and it renders as that text |
| Convert.Render | src/str/convert.rs:306-317 | when the copy agrees with the words, rendering is the words joined with the case's separator |
| Convert.ChangedCase | src/str/convert.rs:279-291 | `change_case` as written: the new case is the target |
| Convert.ChangedCaseKeepsStaleCopy | src/str/convert.rs:279-291 | as written, the copy survives a separator change when no word changed, where the intended rule drops it |
| Convert.ChangeCaseExample | src/str/convert.rs:283-285 | "some data" split on ' ' and changed to snake case still renders "some data"; the corrected rule renders "some_data" |
| Convert.ChangedCaseFixed | src/str/convert.rs:279-291 | corrected `change_case`: the new case is the target |
| Convert.ChangedCaseFixedConsistent | src/str/convert.rs:279-291 | the corrected `change_case` keeps the copy consistent with the words, so rendering is the join in the new case |
| Convert.ChangeCaseKeepsOldReferences | src/str/convert.rs:278-291 | with no word out of its target case the words and the copy are kept and the text renders as before; the corrected rule agrees unless the separator changes between several words |
| Convert.ChangedCaseAgrees | src/str/convert.rs:279-291 | the written and corrected rules agree except when no word changed, there are several words and the separator changed |
| Convert.ChangeCaseChain | src/str/convert.rs:428-442 | "some data" becomes "SOME DATA", "some_data", "SomeData", "some-data", "someData", "some data" |
| Convert.FormatCorrectly | src/str/convert.rs:350-370 | text parsed with a case's separator whose words are already in that case keeps its words and copy through the change to the case; when the separators agree or there is one word, `from_words` renders it back |
| Convert.FormatSeparated | src/str/convert.rs:350-370 | for words without the separator: parsing their join gives them back, the copy is kept, and `from_words` renders the join |
| Convert.FormatCapitalized | src/str/convert.rs:350-370 | the same for pieces cut before uppercase chars, in the case detected |
| Convert.CapitalizedPiecesInCase | src/str/convert.rs:149-175 | pieces cut before uppercase chars need no conversion to Pascal case when the first starts uppercase, nor to camel case when the first has no uppercase char |
| Convert.FormatSpaces | src/str/convert.rs:373-377 | "test with spaces" splits into its three words, keeps its copy in lower case, and is rebuilt from the words |
| Convert.FormatPascal | src/str/convert.rs:388-392 | "TestWithoutSeperator" splits into "Test", "Without", "Seperator", keeps its copy in Pascal case, and is rebuilt from the words |
| Convert.FormatCamel | src/str/convert.rs:393-397 | "testWithoutSeperator" splits into "test", "Without", "Seperator", keeps its copy in camel case, and is rebuilt from the words |
| Convert.ConvertNoExtraAllocation | src/str/convert.rs:444-452 | one lowercase word split on ' ' keeps its copy through kebab and lower case, as written and corrected |
| Convert.DetectExample | src/str/convert.rs:454-462 | "some data with spaces" renders "Some-Data-With-Spaces" capitalised with '-'; "SomeDataWithoutSpaces" renders "some-data-without-spaces" in kebab case |
| Convert.DetectNoExtraAllocation | src/str/convert.rs:464-470 | "SomeDataWithoutSpaces" is accepted and keeps its copy through the change to Pascal case |
| Convert.Owned | src/str/convert.rs:295-304 | `into_owned` drops the copy and keeps words and case |
| Convert.OwnedRendersSame | src/str/convert.rs:295-304 | an owned copy of a consistent string renders the same |
| Convert.FoundDelimiters | src/str/convert.rs:331-336 | exactly the delimiters occurring in the text |
| Convert.DetectSeparator | src/str/convert.rs:337-341 | no delimiter means no separator, exactly one is the separator, two or more is `MixedSeperators` carrying them |
| Convert.TryFromSnapshot | src/str/convert.rs:331-343 | an accepted text gives a consistent string rendering as the text |
| Convert.MixedSeparatorsRefused | src/str/convert.rs:331-343 | text holding two different delimiters is refused |
| Convert.NewIntoSnapshot | src/str/convert.rs:268-270 | `new_into` fails iff two or more delimiters occur, and otherwise has the target case |
| Convert.NewIntoIs | src/str/convert.rs:268-270 | `new_into` is `try_from` followed by the case change |
| Convert.NewIntoLeadingSeparator | src/str/convert.rs:408 | "_aBc" into Pascal renders "Abc" |
| Convert.NewIntoTwoWords | src/str/convert.rs:409 | "aB_CD" into Pascal renders "AbCd" |
| Convert.NewIntoOneWord | src/str/convert.rs:405-407 | "abc", "Abc" and "ABC" into Pascal all render "Abc" |
| Convert.OneWordPascal | src/str/convert.rs:135-147 | a single word out of capitalised case changed to Pascal renders as its capitalised form |
| Convert.CapitalizedString.New | src/str/convert.rs:195-231 | the constructor's fields are those of the specified new string |
| Convert.CapitalizedString.FromWords | src/str/convert.rs:233-246 | words as given, no copy, a mixed case with the separator |
| Convert.CapitalizedString.FromWordsUnchecked | src/str/convert.rs:247-261 | the fields as given |
| Convert.CapitalizedString.ChangeCase | src/str/convert.rs:279-291 | the new fields are `change_case` as written applied to the old ones |
| Convert.CapitalizedString.IntoCase | src/str/convert.rs:273-276 | the same object, changed as by `change_case` |
| Convert.CapitalizedString.IntoOwned | src/str/convert.rs:295-304 | a fresh string holding the owned form of the old fields |
| Convert.CapitalizedString.ToString | src/str/convert.rs:319-321 | when the copy agrees with the words, the words joined with the case's separator |
| Convert.TryFrom | src/str/convert.rs:328-343 | a fresh string as specified, or the error the specification gives |
| Convert.NewInto | src/str/convert.rs:268-270 | a fresh string as `new_into` specifies, or its error |
| Levenshtein.RecursiveDistance | src/str/filter.rs:78-91 | the recursive distance lies between the length difference and the longer length |
| Levenshtein.DynamicDistance | src/str/filter.rs:92-129 | the two-row table computes the last table cell, which is the edit distance |
| Levenshtein.NextRow | src/str/filter.rs:102-126 | from a row of the table the inner loop fills the next row in place |
| Levenshtein.CellStep | src/str/filter.rs:112-121 | each cell is the minimum of substitution, insertion and deletion plus one, or 0 in the `overflowing_sub` branch |
| Levenshtein.StepZero | src/str/filter.rs:112-121 | the `overflowing_sub` branch gives 0 exactly when the diagonal is 0 and the chars match |
| Levenshtein.TableIsEditDistance | src/str/filter.rs:92-129 | the table's last cell is the edit distance |
| Levenshtein.RecursiveIsSuffixDistance | src/str/filter.rs:78-91 | the recursive distance of two suffixes is their edit distance |
| Levenshtein.RecursiveIsEditDistance | src/str/filter.rs:160-179 | the recursive and the dynamic distance agree on all inputs |
| Levenshtein.EditDistanceSymmetric | src/str/filter.rs:160-179 | the distance does not depend on the order of its arguments |
| Levenshtein.EditDistanceBounds | src/str/filter.rs:66-70 | the distance lies between the length difference and the longer length |
| Levenshtein.EditDistanceZero | src/str/filter.rs:180-184 | distance 0 iff the strings are equal char by char under the comparison |
| Levenshtein.EditDistanceSelf | src/str/filter.rs:182 | a string is at distance 0 from itself |
| Levenshtein.EditDistanceIgnoringCase | src/str/filter.rs:183 | ignoring case, distance 0 iff the lowercased strings are equal |
| Levenshtein.SuffixDistanceUnmatched | src/str/filter.rs:92-129 | case-sensitively, the distance is at least the number of chars of one string left without a partner in the other |
| Levenshtein.UnmatchedMonotone | src/str/filter.rs:92-129 | a larger pool of partners leaves no more chars unmatched |
| Levenshtein.UnmatchedRemove | src/str/filter.rs:92-129 | removing one partner leaves at most one more char unmatched |
| Levenshtein.UnmatchedEdits | src/str/filter.rs:112-121 | deleting, inserting or aligning one char changes the unmatched count by at most the edit's cost |
| Levenshtein.Mismatches | src/str/filter.rs:92-129 | the positions where two strings of one length differ: none iff they agree everywhere |
| Levenshtein.SuffixDistanceMismatches | src/str/filter.rs:92-129 | for equal lengths the distance is at most the number of differing positions |
| Levenshtein.KittenSittingExample | src/str/filter.rs:187 | "kitten" and "sitting" are at distance 3, by both implementations in both orders |
| Levenshtein.CaseSensitiveExample | src/str/filter.rs:188 | "levENSHTein" and "LEVENshtein" are at distance 6 case-sensitively, by both implementations in both orders |
| Levenshtein.CaseInsensitiveExample | src/str/filter.rs:183 | ignoring case, "levENSHTein" and "LEVENshtein" are at distance 0, by both implementations in both orders |
| Levenshtein.SameExample | src/str/filter.rs:182 | a string is at distance 0 from itself, by both implementations |
| Filter.Matches | src/str/filter.rs:54-58 | a match needs an input no longer than the option |
| Filter.StartsWithIgnoreCasePointwise | src/str/filter.rs:54-58 | `StartsWithIgnoreCase` matches iff the input is no longer than the option and each input char matches the option's char ignoring case |
| Filter.EmptyInputMatches | src/str/filter.rs:54-58 | an empty input matches every option |
| Filter.MaxLen | src/str/filter.rs:68 | the larger byte length bounds both lengths and is 0 only for two empty strings |
| Filter.PrefixLen | src/str/filter.rs:146-150 | the common prefix under the comparison: within both strings, all matching, and maximal |
| Filter.MetricDistance | src/str/filter.rs:142-153 | computes the specified score of a metric |
| Filter.PromotedScore | src/str/filter.rs:19-24 | a promoted filter scores 0 iff it matches and 1 iff it does not |
| Filter.LevenshteinScore | src/str/filter.rs:66-70 | the normalised distance lies in [0, 1], is 0 iff the distance is 0, and is symmetric |
| Filter.BoostWithoutBonus | src/str/filter.rs:142-153 | a zero bonus returns the inner score |
| Filter.BoostBounds | src/str/filter.rs:142-153 | with a bonus in [0, 1] the boosted score lies between 0 and the inner score, and a full-length prefix scales it by `1 - bonus` |
| Filter.Distance | src/str/filter.rs:13-17 | every metric with bonuses in [0, 1] scores in [0, 1]; a promoted filter scores 0 iff it matches, else 1 |
| Filter.SortFrom | src/str/filter.rs:27-50 | the order is a permutation of the positions |
| Filter.SortFromOrdered | src/str/filter.rs:43-48 | positions come by ascending score, equal scores in input order |
| Filter.SortOrderIsPermutation | src/str/filter.rs:27-50 | `sort_with` reorders all the candidates, each exactly once |
| Filter.SortWith | src/str/filter.rs:27-50 | the candidates rearranged, each as often as before, scores ascending |
| Filter.PickPermutation | src/str/filter.rs:27-50 | picking by two rearrangements of the same positions gives rearrangements of one another |
| Filter.SortOrderPicks | src/str/filter.rs:27-50 | the positions the sort picks give a rearrangement of the candidates with scores ascending |
| Filter.SortWithSortsStably | src/str/filter.rs:27-50 | the sorted candidates are the input under that order, scores ascending and ties in input order |
| Iter.IsSortedBy | src/extensions/iter.rs:42-54 | false iff some adjacent pair compares Greater |
| Iter.AdjacentAscendingIsSorted | src/extensions/iter.rs:36-41 | for integers, no adjacent pair out of order means every pair is in order |
| Iter.ReduceEarlyReturn | src/extensions/iter.rs:55-68 | the loop returns the specified result and pulls exactly the items up to the first error |
| Iter.Reduce | src/extensions/iter.rs:55-68 | `Ok` only after pulling every item; `Err` after pulling at least one |
| Iter.ReduceWithoutErrors | src/extensions/iter.rs:55-68 | without errors the result is `Ok` of the left fold, and every item is pulled |
| Iter.ErrorIgnoresLaterItems | src/extensions/iter.rs:55-68 | after an error, later items change neither the result nor the number pulled |
| Iter.ProductExamples | src/extensions/iter.rs:374-401 | the product of 1..5 is Ok(120); a 0 gives Err(0) after pulling four items |
| Iter.Chunks | src/extensions/iter.rs:147-161 | as intended: no chunks iff the source is empty or the window is 0; each chunk non-empty and at most a window; the first is the leading window |
| Iter.ChunksAsWritten | src/extensions/iter.rs:147-161 | as written: the same emptiness, chunk-size and first-chunk facts |
| Iter.ChunksAsWrittenClampsHop | src/extensions/iter.rs:158 | as written, successive chunks start `min(hop, window)` apart |
| Iter.ChunksAsWrittenWithinWindow | src/extensions/iter.rs:147-161 | with hop at most the window the written iterator yields the intended chunks |
| Iter.HopBeyondWindowExample | src/extensions/iter.rs:158 | 0..6 chunked (2, 3) yields [0,1],[2,3],[4,5] where [0,1],[3,4] is intended |
| Iter.ChunkAt | src/extensions/iter.rs:147-161 | chunk k starts at k·hop and is at most `window` long |
| Iter.ChunksCount | src/extensions/iter.rs:168-170 | there are ⌈n / hop⌉ chunks |
| Iter.ChunkedExample | src/extensions/iter.rs:319-330 | 15 items chunked (6, 4) give 0..6, 4..10, 8..14, 12..15 |
| Iter.ChunkedLenAtStart | src/extensions/iter.rs:168-170 | before the first `next`, `len` counts the chunks when hop is at most the window |
| Iter.ChunkedIterator.constructor | src/extensions/iter.rs:131-138 | an empty buffer over the whole source |
| Iter.ChunkedIterator.Len | src/extensions/iter.rs:168-170 | ⌈rest / hop⌉: enough hops to cover what is left, and no more |
| Iter.ChunkedIterator.Next | src/extensions/iter.rs:147-161 | each call yields the next chunk still to come and removes it |
| Iter.FilterSurrounding | src/extensions/iter.rs:200-218 | keeps at most the items it is given, each one of them |
| Iter.KeptPositions | src/extensions/iter.rs:208-217 | the positions the predicate accepts with their neighbours, ascending, and all of them |
| Iter.FilterSurroundingIsKeptSubsequence | src/extensions/iter.rs:200-218 | the kept items are exactly the items at those positions, in order: an ordered subsequence |
| Iter.SurroundingFromIsFilter | src/extensions/iter.rs:208-217 | the iterator's state machine keeps exactly the items the predicate accepts with their neighbours |
| Iter.SurroundingExample | src/extensions/iter.rs:332-341 | 0..4 without the neighbours of 2 gives [0, 2] |
| Iter.SurroundingFilterIterator.constructor | src/extensions/iter.rs:190-198 | the items to come are the filtered source |
| Iter.SurroundingFilterIterator.Next | src/extensions/iter.rs:208-217 | each call yields the next kept item and removes it |
| Iter.ExactSizeWrapper.constructor | src/extensions/iter.rs:227-233 | nothing consumed; the size is exact when it is the source's length |
| Iter.ExactSizeWrapper.Len | src/extensions/iter.rs:245-247 | with an exact size, `len` is the number of items left |
| Iter.ExactSizeWrapper.Next | src/extensions/iter.rs:238-242 | takes the first item, counts it, and keeps the size exact |
| Iter.ExactSizeWrapper.NextBack | src/extensions/iter.rs:250-254 | takes the last item, counts it, and keeps the size exact |
| Iter.NewState | src/extensions/iter.rs:269-276 | two absent items give no state; otherwise Start, Middle or End by which are present |
| Iter.OpenBorderPairs | src/extensions/iter.rs:299-302 | nothing iff the source is empty; otherwise n + 1 states, Start of the first item to End of the last |
| Iter.OpenBorderPairsShape | src/extensions/iter.rs:299-302 | nothing for an empty source; otherwise n + 1 states: Start of the first, Middle of each adjacent pair, End of the last |
| Iter.OpenBorderExample | src/extensions/iter.rs:342-353 | [1, 2, 3] gives Start(1), Middle(1,2), Middle(2,3), End(3) |
| Iter.OpenBorderLenAsWritten | src/extensions/iter.rs:309-311 | `len` counts the states to come, except on an empty or exhausted source, where it says 1 and none come |
| Iter.OpenBorderLen | src/extensions/iter.rs:309-311 | never 0; while an item is held or left, the number of states still to come |
| Iter.OpenBorderLenFixed | src/extensions/iter.rs:309-311 | corrected `len`: the number of states to come |
| Iter.OpenBorderWindowIterator.constructor | src/extensions/iter.rs:288-290 | the states to come are the open-border pairs of the source |
| Iter.OpenBorderWindowIterator.Next | src/extensions/iter.rs:299-302 | each call yields the next state and removes it |
| Iter.OpenBorderWindowIterator.Len | src/extensions/iter.rs:309-311 | counts the states to come while an item is held or left |
| BitSets.PopCount | src/collections/bit_set.rs:154 | at most 8, 0 only for the zero byte and 8 only for 0xFF |
| BitSets.IsInBounds | src/collections/bit_set.rs:121-124 | an index passes iff it falls in one of the bytes or is the end position |
| BitSets.SplitIndexAsWritten | src/collections/bit_set.rs:117-120 | the assertion passes iff the index is in bounds as written |
| BitSets.SplitIndexAdmitsEnd | src/collections/bit_set.rs:117-124 | the index 8·BYTES passes and names the byte one past the end |
| BitSets.SplitIndex | src/collections/bit_set.rs:117-120 | with the bound `index < 8·BYTES` the bit is below 8, the byte exists and they recombine to the index |
| BitSets.SplitIndexInRange | src/collections/bit_set.rs:117-124 | the corrected bound admits exactly the indexes whose byte exists |
| BitSets.GetBit | src/collections/bit_set.rs:127-130 | `get` reads bit i of the little-endian bit sequence |
| BitSets.LeBytesBits | src/collections/bit_set.rs:83-103 | from an integer, bit i of the set is bit i of the integer |
| BitSets.FromLeBytesLeBytes | src/collections/bit_set.rs:83-103 | integer to bytes to integer is the identity |
| BitSets.LeBytesFromLeBytes | src/collections/bit_set.rs:83-103 | bytes to integer to bytes is the identity |
| BitSets.BitSet.New | src/collections/bit_set.rs:112-114 | holds the given bytes |
| BitSets.BitSet.FromUint | src/collections/bit_set.rs:83-103 | holds the integer's little-endian bytes, so bit i is bit i of the integer |
| BitSets.BitSet.ToUint | src/collections/bit_set.rs:83-103 | the integer fits in 8·BYTES bits and its little-endian bytes are the set's |
| BitSets.BitSet.Default | src/collections/bit_set.rs:105-109 | every bit is false |
| BitSets.BitSet.Get | src/collections/bit_set.rs:127-130 | the bit at the index |
| BitSets.BitSet.Flip | src/collections/bit_set.rs:132-136 | toggles that bit and no other |
| BitSets.BitSet.Set | src/collections/bit_set.rs:137-148 | sets that bit to the value and changes no other |
| BitSets.BitSet.Count | src/collections/bit_set.rs:151-157 | the number of true bits |
| BitSets.BitSet.All | src/collections/bit_set.rs:158-166 | as written, true iff no byte is 0xFF |
| BitSets.AllAsWrittenInverted | src/collections/bit_set.rs:158-166 | the full byte 0xFF has every bit set but `all` says false; 0x00 has none and `all` says true |
| BitSets.BitSet.AllSet | src/collections/bit_set.rs:158-166 | corrected `all`: true iff every bit is set |
| BitSets.AllBitsFullBytes | src/collections/bit_set.rs:158-166 | every bit is set iff every byte is 0xFF |
| BitSets.BitSet.Any | src/collections/bit_set.rs:168-175 | true iff some bit is set |
| BitSets.SomeBitNonzeroByte | src/collections/bit_set.rs:168-175 | some bit is set iff some byte is nonzero |
| BitSets.BitSet.None | src/collections/bit_set.rs:177-179 | true iff no bit is set |
| BitSets.CountZeroIffNone | src/collections/bit_set.rs:151-179 | the count is 0 iff no bit is set |
| BitSets.BitSet.Clear | src/collections/bit_set.rs:181-184 | every byte is zero, so every bit is false |
| BitSets.BitSet.Union | src/collections/bit_set.rs:186-193 | a fresh set whose bits are the pointwise or |
| BitSets.BitSet.Intersection | src/collections/bit_set.rs:195-201 | a fresh set whose bits are the pointwise and |
| BitSets.BitSet.AndAssign | src/collections/bit_set.rs:232-240 | `&=` replaces each bit by the and with the other set's bit |
| BitSets.BitSet.OrAssign | src/collections/bit_set.rs:232-240 | `\|=` replaces each bit by the or with the other set's bit |
| BitSets.BitSet.XorAssign | src/collections/bit_set.rs:232-240 | `^=` replaces each bit by the xor with the other set's bit |
| BitSets.BitSet.Copy | src/collections/bit_set.rs:18 | a fresh set with the same bytes |
| BitSets.BitSet.BitAnd | src/collections/bit_set.rs:222-231 | `&` gives a fresh set of pointwise ands |
| BitSets.BitSet.BitOr | src/collections/bit_set.rs:222-231 | `\|` gives a fresh set of pointwise ors |
| BitSets.BitSet.BitXor | src/collections/bit_set.rs:222-231 | `^` gives a fresh set of pointwise xors |
| BitSets.BitSet.Not | src/collections/bit_set.rs:245-249 | a fresh set with every bit negated |
| BitSets.BitSet.Shl | src/collections/bit_set.rs:251-279 | `<<= k` moves bit i to i + k, drops bits past the end and clears the low k |
| BitSets.BitSet.ShlSingleByte | src/collections/bit_set.rs:256 | the one-byte path is the same shift |
| BitSets.BitSet.ShlWholeBytes | src/collections/bit_set.rs:260-264 | moving whole bytes is a shift by a multiple of 8 |
| BitSets.BitSet.ShlBitByBit | src/collections/bit_set.rs:265-274 | the bit-by-bit loop is the same shift |
| BitSets.BitSet.BoolArrays | src/collections/bit_set.rs:281-296 | `[[bool; 8]; N]` has one group per byte holding that byte's bits |
| BitSets.GroupsOfEightBits | src/collections/bit_set.rs:281-296 | grouping the bits by eight gives each byte's bits |
| BitSets.FlattenGroupsOfEight | src/collections/bit_set.rs:281-296 | flattening the groups gives the bits back |
| BitSets.BitSet.IntoIter | src/collections/bit_set.rs:330-342 | the iterator yields every bit from 0 upward |
| BitSets.IterWrapper.constructor | src/collections/bit_set.rs:298-303 | position and end as given |
| BitSets.IterWrapper.Next | src/collections/bit_set.rs:307-313 | yields the lowest bit not yet taken and advances, or nothing once the ends meet |
| BitSets.IterWrapper.NextBack | src/collections/bit_set.rs:321-327 | yields the highest bit not yet taken and steps back, or nothing once the ends meet |
| BitSets.IterWrapper.SizeHint | src/collections/bit_set.rs:314-317 | the exact number of bits left |
| BitSets.GetExample | src/collections/bit_set.rs:348-364 | 0xF00F has bits 0-3 and 12-15 set; 0x00FF has bits 0-7 set |
| BitSets.SetExample | src/collections/bit_set.rs:366-373 | setting bit 10 of 0xAA00 gives 0xAE00, then clearing bit 11 gives 0xA600 |
| BitSets.UnionExample | src/collections/bit_set.rs:375-381 | 0b1010_1010 with 0b0000_1111 gives 0b1010_1111 |
| BitSets.ShiftBytesExample | src/collections/bit_set.rs:383-388 | 0x04030201 shifted by 8 is 0x03020100 |
| BitSets.ShiftBitsExample | src/collections/bit_set.rs:389-392 | 0xFFC1 shifted by 9 is 0x8200 |
| Vecs.Position | src/extensions/vec.rs:31-38 | the index of the first element matching, or none iff no element matches |
| Vecs.FindOrPushed | src/extensions/vec.rs:26-39 | the returned index is within the new vector |
| Vecs.FindOrPushedFound | src/extensions/vec.rs:31-38 | with a match the vector is unchanged and the index is the first match |
| Vecs.FindOrPushedAppends | src/extensions/vec.rs:33-37 | without a match the default is appended and the index is the new last one |
| Vecs.FindOrPushedSlot | src/extensions/vec.rs:26-39 | the old elements stay in front, at most one is added, and the slot holds a match or the appended default |
| Vecs.Vec.PushReturn | src/extensions/vec.rs:7-10 | appends the element and refers to the new last slot |
| Vecs.Vec.FindOrPushElse | src/extensions/vec.rs:26-39 | the scan gives the specified vector and slot; the default is used only without a match |
| Vecs.Vec.FindOrPush | src/extensions/vec.rs:15-17 | the same as `find_or_push_else` with a closure returning the default |
| Vecs.Vec.Write | src/extensions/vec.rs:51-52 | writing through the returned slot changes only that slot |
| Vecs.FindExample | src/extensions/vec.rs:47-53 | in [1, 2, 4], 1 is found at 0; writing 7 gives [7, 2, 4] |
| Vecs.PushExample | src/extensions/vec.rs:56-63 | 3 is missing from [1, 2, 4], so 0 is pushed at 3; writing 8 gives [1, 2, 4, 8] |
| Durations.New | src/extensions/duration.rs:65 | `Duration::new` gives a valid duration of secs·10⁹ + nanos nanoseconds |
| Durations.Sub | src/extensions/duration.rs:44-46 | `Duration` subtraction of a no-longer duration gives a valid duration of the difference |
| Durations.Hours | src/extensions/duration.rs:26-28 | the whole hours: hours·3600 ≤ seconds < (hours + 1)·3600 |
| Durations.Minutes | src/extensions/duration.rs:30-32 | below 60 |
| Durations.Seconds | src/extensions/duration.rs:34-36 | below 60 |
| Durations.SubsecMillis | src/extensions/duration.rs:79 | the whole milliseconds within the second: below 1000 and ms·10⁶ ≤ nanos < (ms + 1)·10⁶ |
| Durations.HoursMinutesSeconds | src/extensions/duration.rs:26-36 | hours·3600 + minutes·60 + seconds is the whole seconds |
| Durations.HoursMinutesSecondsUnique | src/extensions/duration.rs:26-36 | any such decomposition with minutes and seconds below 60 is the one computed |
| Durations.AbsDiff | src/extensions/duration.rs:42-48 | a valid duration whose length is the absolute difference, never underflowing |
| Durations.AbsDiffSymmetric | src/extensions/duration.rs:42-48 | the difference does not depend on the order |
| Durations.AbsDiffZero | src/extensions/duration.rs:42-48 | the difference is zero iff the durations are equal |
| Durations.IsNearTo | src/extensions/duration.rs:51-53 | near iff the absolute difference is strictly shorter than delta |
| Durations.IsNearToDistance | src/extensions/duration.rs:51-53 | near iff each difference is strictly below delta; symmetric |
| Durations.NotNearWithinZero | src/extensions/duration.rs:51-53 | nothing is within a zero delta, not even the duration itself |
| Durations.FromHoursMinutesSecondsMillis | src/extensions/duration.rs:59-66 | a valid duration of h·3600 + m·60 + s seconds plus the milliseconds, carrying into seconds |
| Durations.FromHoursMinutesSecondsMillisRoundTrip | src/extensions/duration.rs:59-66 | hours, minutes, seconds and milliseconds in range are read back by the accessors |
| Durations.Display | src/extensions/duration.rs:72-82 | the minutes' digits, then ':' and '.' at fixed places from the end, seven characters after the minutes |
| Durations.DisplayFields | src/extensions/duration.rs:72-82 | the text is the minutes, ':', two-digit seconds, '.', three-digit milliseconds, each reading back as its value |
| Durations.DisplayDropsHours | src/extensions/duration.rs:72-82 | whole hours do not show |
| Durations.DisplayExample | src/extensions/duration.rs:72-82 | 1 h 2 min 5 s 45 ms displays as "2:05.045" |
| Options.IsNoneOr | src/extensions/option.rs:20-25 | true iff every value the option holds satisfies the predicate |
| Options.IsNoneOrExamples | src/extensions/option.rs:28-33 | Some(2) passes `x > 1`, Some(0) fails it, None passes |
| Options.TryInserted | src/extensions/option.rs:69-78 | the returned value is the option's new content; a present value is kept, an empty option takes the future's output |
| Options.TryInsertedIdempotent | src/extensions/option.rs:69-78 | once filled, filling again changes nothing, whatever the future yields |
| Options.TryInsertedEmpty | src/extensions/option.rs:69-78 | the result is empty iff the option was empty and the future yielded nothing |
| Options.OptionPlace.GetOrTryInsertFuture | src/extensions/option.rs:69-78 | new content and result as specified |
| Options.OptionPlace.GetOrInsertFuture | src/extensions/option.rs:46-53 | afterwards the option holds a value, which is returned: the old one or else the output |
| Options.OptionPlace.InsertFutureIfNone | src/extensions/option.rs:55-57 | an empty option takes the output, a full one is kept |
| Options.OptionPlace.TryInsertFutureIfNone | src/extensions/option.rs:59-64 | the option is filled as by `get_or_try_insert_future` |
| Boos.BooDeref | src/boo.rs:39-63 | the owned value, or the borrowed cell's value |
| Boos.MobDeref | src/boo.rs:130-158 | the owned value, or the value in the borrowed or mutably borrowed cell |
| Boos.MooDeref | src/boo.rs:249-274 | the owned value, or the mutably borrowed cell's value |
| Boos.MobFromBoo | src/boo.rs:114-121 | never mutably borrowed, and refers to the same cells |
| Boos.MobFromMoo | src/boo.rs:106-113 | never shared-borrowed, and refers to the same cells |
| Boos.BooTryFromMob | src/boo.rs:27-37 | fails iff mutably borrowed, returning the cell; otherwise converts back exactly |
| Boos.MooTryFromMob | src/boo.rs:231-241 | fails iff shared-borrowed, returning the cell; otherwise converts back exactly |
| Boos.BooTryFromMoo | src/boo.rs:21-26 | succeeds iff owned |
| Boos.MooTryFromBoo | src/boo.rs:225-230 | succeeds iff owned |
| Boos.MobRoundTrips | src/boo.rs:106-121 | `Boo` to `Mob` to `Boo` and `Moo` to `Mob` to `Moo` are identities |
| Boos.ConversionsKeepValue | src/boo.rs:27-37 | every conversion preserves the value seen through `deref` |
| Boos.MobTryIntoMut | src/boo.rs:170-175 | the cell iff mutably borrowed |
| Boos.MooTryIntoMut | src/boo.rs:330-332 | the cell iff mutably borrowed |
| Boos.MooExpectMut | src/boo.rs:325-328 | on a mutable borrow, its cell |
| Boos.MooTryGetOwned | src/boo.rs:315-320 | the value iff owned |
| Boos.MooExpectOwned | src/boo.rs:310-313 | on an owned value, that value |
| Boos.MooOwnedOrMut | src/boo.rs:310-332 | a `Moo` is exactly one of owned and mutably borrowed |
| Boos.MobTryAsMut | src/boo.rs:162-168 | nothing iff shared-borrowed; otherwise the value that is reachable mutably |
| Boos.BooFromCoerceRef | src/boo.rs:67-69 | a mutable borrow becomes a shared one of the same cell; the other variants convert directly |
| Boos.BooFromCoerceRefMoo | src/boo.rs:67-69 | owned stays owned; a mutable borrow becomes a shared one of the same cell |
| Boos.FromCoerceRefKeepsValue | src/boo.rs:67-69 | coercion preserves the value seen through `deref` |
| Boos.BooIntoOwned | src/boo.rs:71-76 | the owned value, or a clone of the borrowed one |
| Boos.MobIntoOwned | src/boo.rs:178-184 | the owned value, or a clone of the borrowed one |
| Boos.MooIntoOwned | src/boo.rs:335-340 | the owned value, or a clone of the borrowed one |
| Boos.ClonedIsDeref | src/boo.rs:77-90 | with a faithful clone, `into_owned` is the value seen through `deref` |
| Boos.MooFromMobCloned | src/boo.rs:296-304 | a mutable borrow is kept, the rest is cloned into an owned value; the value is preserved |
| Boos.TakeKeepRef | src/boo.rs:202-210 | returns the old value, and the cell iff mutably borrowed, which now holds the default |
| Boos.MooFromWithValue | src/boo.rs:286-294 | the result holds the value, and is a mutable borrow of the given cell iff one was given |
| Boos.MooAssign | src/boo.rs:275-282 | after assignment through `deref_mut` the value is the new one and the variant is kept |
| Boos.SharedWriteExample | src/boo.rs:286-294 | a value written through a borrowed cell is seen through another handle on the same cell |

## Left out

- `src/io.rs`, `src/rc.rs` and `src/extensions/cow.rs` are not part of this model. They are file-system I/O, thin wrappers over `Rc`/`Arc`, and a lifetime-only reborrow.
- Terminal I/O in `src/lib.rs` (`inner_read`, `read`, `map_read`, `try_read`, `read_with_suggestion`) is not modelled as I/O. The lines a user would type are the `replies` parameter of `Lib.AskConsent`, and the prompts are not modelled.
- Lib.FirstAnswer does not model the empty-line default of `inner_read`. `ask_consent` passes no default, so that branch is unreachable from it.
- The `autocompleter` module and logger initialisation (`src/lib.rs:348-364`) are configuration of external crates.
- The futures of `src/extensions/option.rs` and `FutIterExt` (`src/extensions/iter.rs:72-88`) are async plumbing. A future is modelled by the value it resolves to.
- Character case is ASCII only. Unicode case tables and the panic of `word[..1]` on a multibyte first char are not modelled, and byte lengths are the UTF-8 lengths of the chars.
- Scores are `real`. NaN handling, the `log::warn!` in `sort_with` and the rounding of `f64` `mul_add` are not modelled.
- Whether a `Cow` fragment is borrowed or owned, and all lifetimes, are not modelled. Only the values are.
- The `std::fmt` implementations of `BitSet` (`src/collections/bit_set.rs:23-81`) are formatting plumbing.
- BitSets.BitSet.AndAssign, BitSets.BitSet.OrAssign and BitSets.BitSet.XorAssign require the right-hand set to be a different array. Rust's borrow rules make `a &= a` impossible, so the aliased case has no source counterpart.
- BitSets.BitSet.Shl requires `k < 8` for one-byte sets. The source shifts a native `u8` there and panics for larger `k`.
- BitSets.IterWrapper holds the bits of its set as a sequence, not a copy of the byte array.
- Boos.MobTryAsMut returns the reachable value rather than a mutable reference. Writing through such a reference is `Boos.MooAssign` and `Boos.TakeKeepRef`.
- Boos.BooIntoOwned, Boos.MobIntoOwned and Boos.MooIntoOwned take the clone as a parameter. `Clone` is the identity in `Boos.ClonedIsDeref`.
- The `&mut T` returned by the vector methods is the slot index, so aliasing through the reference is not modelled.
- Durations.FromHoursMinutesSecondsMillis requires that nothing overflows. In release builds the source would wrap silently.
- Durations.Display uses the standard library's `Duration` fields. Its normalisation and subtraction are modelled by `Durations.New` and `Durations.Sub`.
- Durations.IsNearTo follows the code's strict `<`. The trait's doc comment at `src/extensions/duration.rs:19` reads "no less then `delta`", but the code and its name mean "closer than `delta`".
- Iter.ChunkedIterator.Next states the chunks only for a nonzero hop. With hop 0 the source yields the same chunk forever, and `len` divides by zero in `f64`.
- Iter.ChunkedIterator.Len uses integer ceiling division in place of the `f64` ceiling.
- Iter.OpenBorderWindowIterator.Len follows the source: its contract covers only a non-exhausted source. The empty case is a finding below.
- Convert.CapitalizedString.ChangeCase follows the code as written. The corrected rule, `Convert.ChangedCaseFixed`, is proved separately.
- Closures passed to the adapters (`FnMut` predicates, reducers and orderings) are pure functions, so any state they would keep between calls is not modelled.

## Findings

| source | as written | input that shows it | evidently intended | confidence | as-written member | corrected member |
|---|---|---|---|---|---|---|
| src/str/convert.rs:283-285 | the word count is read after `std::mem::take` empties the words, so a separator change alone never drops the verbatim copy | `CapitalizedString::new("some data", ' ')` changed to snake case still renders "some data" | the copy is dropped when the separator changes for several words, giving "some_data" | high, not executed | Convert.ChangeCaseExample | Convert.ChangedCaseFixedConsistent |
| src/extensions/iter.rs:309-311 | `len` is the inner length plus one | `open_border_pairs` over an empty source, or after its last state | `len` is 0 when no state is left | high, not executed | Iter.OpenBorderLenAsWritten | Iter.OpenBorderLenFixed |
| src/extensions/iter.rs:158 | the buffer drains `min(hop, buffer.len())` items, at most a window | `(0..6).chunked(2, 3)` yields [0,1], [2,3], [4,5] | chunks start `hop` apart: [0,1], [3,4], as `len` counts | medium, not executed | Iter.HopBeyondWindowExample | Iter.ChunkAt |
| src/collections/bit_set.rs:158-166 | `all` returns false as soon as a byte is 0xFF, and true otherwise | a one-byte set 0xFF | true iff every bit is set | high, not executed | BitSets.AllAsWrittenInverted | BitSets.AllBitsFullBytes |
| src/collections/bit_set.rs:121-124 | `is_in_bounds` admits `index <= 8·BYTES` | `get(8 * BYTES)` passes the assertion and indexes one byte past the end | `index < 8·BYTES` | high, not executed | BitSets.SplitIndexAdmitsEnd | BitSets.SplitIndexInRange |
| src/lib.rs:85-92 | `yes` is set by any default answer | `Inputs::new(false, None).ask_consent(..)` returns true, with both exclusive flags set | `yes` only for the default answer "yes" | high, not executed | Lib.DefaultNoConsents | Lib.DefaultAnswerDecides |
