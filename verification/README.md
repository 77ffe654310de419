# Adapt-BPE word-count engine in Dafny

This project models the engine that adapts a pretrained BPE merge table to a
corpus (`train.py`), and its companion script that replays a merge list while
counting merge usage (`apply_merges_with_true_counts.py`). The engine's parts
are:

- **Tokenising.** The corpus is split into words. Each word becomes its
  characters followed by one `</w>` marker, and identical word types are
  collapsed into a weighted table.
- **Filtering.** The engine keeps the in-order merges that can be built
  bottom-up from atomic tokens, up to a requested count.
- **Applying.** Each merge is a greedy, non-overlapping, left-to-right
  rewrite of every word type. Each step records a weighted replacement
  count and a corpus-size log.
- **Undoing.** One merged token is split back into its two operands.
- **Refining.** A greedy swap search trades the least-used applied merges
  for more frequent remaining bigrams.
- **Flattening.** The final table is written out as a token stream.

Modules, one per stage:

| module | file | models |
|---|---|---|
| `Counters` | counters.dfy | Python `Counter`/`defaultdict` as an insertion-ordered list of `(key, count)` entries: `c[k] += n`, the re-keying loop, weighted sums |
| `Tokens` | tokens.dfy | tokens (`string`), word types (`seq<Token>`), tables, merges and the merged token `left + right` |
| `Serialization` | serialization.dfy | the `U+0001`-joined dictionary keys of both scripts and their round trips |
| `Tokenize` | tokenize.dfy | whitespace splitting, character tokenisation, the initial word-count table |
| `Filter` | filter.dfy | `filter_merges` |
| `Apply` | apply.dfy | one rewrite pass, `apply_merges_word_counts` |
| `Bigrams` | bigrams.dfy | `get_bigram_frequencies_from_counts` |
| `Undo` | undo.dfy | `undo_merge_word_counts` |
| `Sorting` | sorting.dfy | Python's stable `sorted` with an integer key |
| `Refine` | refine.dfy | `refine_merges_word_counts` |
| `Flatten` | flatten.dfy | `flatten_from_counts` |
| `TrueCounts` | truecounts.dfy | `apply_merges` with its usage counter, and `count_final_tokens` |

Some choices shape the whole model:

- **Tables keep their order.** A table is an insertion-ordered association
  list, not a map, because Python dicts keep insertion order. That order
  decides ties in the stable sorts of the refinement and the exact flattened
  output. `Get` gives the map view, and `Distinct` says every key appears
  once.
- **Tables are keyed by token sequences, not by the joined strings.**
  `Serialization.KeyRoundTrip` and `Serialization.KeyInjective` justify this
  for words of valid tokens: non-empty, without `U+0001`. Tables stay valid
  under two hypotheses: the corpus contains no `U+0001`, and every merge
  applied or undone has valid operands. Under them,
  `Tokenize.FreshTable`, `Apply.ApplyFromValid`, `Undo.UndoValid` and
  `Refine.RefineMergesValid` show that each table the pipeline builds is
  valid, and the refined table keeps distinct keys. A corpus with `U+0001`
  is outside the model (see "Left out").
- **The companion script reads keys with a bare split.** Its `deserialize`
  turns the key `""` into `[""]`, not `[]`. `TrueCounts.CompanionReadsAlike`
  shows that its merge loop still produces the same keys and replacements
  as rewriting the token lists directly. `TrueCounts.CountFinalTokens`
  reads every key back through the bare split, as the source does.
- **Whitespace is a parameter.** `str.split()`'s notion of whitespace is the
  predicate `isSpace`.
- **Sorting.** `sorted(..., key=f)` is a stable insertion sort on `f`.
  `reverse=True` is the same stable sort on `-f`, since Python keeps equal
  elements in input order in both cases.

## Model

| member | source | states |
|---|---|---|
| Counters.Add | train.py:110 | `c[k] += n` raises the count under `k` by `n` and leaves every other key alone; the key exists afterwards even when `n` is 0; the total grows by `n` |
| Counters.Regroup | train.py:93-110 | re-keying a table through a word function keeps the total multiplicity, gives distinct keys, keeps counts positive, and collects under each new key the counts of exactly the old keys sent to it |
| Counters.RegroupWeighted | train.py:93-110 | a per-word weight summed over the re-keyed table equals the weight of the image summed over the old table |
| Counters.RegroupInjective | train.py:93-110 | when no two word types coincide after re-keying, the re-keyed table is the old one with each key replaced in place, order and counts kept |
| Tokens.MergedValid | train.py:53 | the merged token of two valid tokens is valid and differs from both operands |
| Serialization.SplitOn | apply_merges_with_true_counts.py:39 | `str.split` returns at least one piece and no piece contains the separator |
| Serialization.SplitJoin | train.py:25-31 | splitting a join gives back every non-empty list of separator-free tokens |
| Serialization.JoinSplit | train.py:25-31 | joining the pieces of a split gives back any string |
| Serialization.KeyRoundTripIff | train.py:23-31 | for separator-free tokens, the key round trip gives the word back exactly unless the word is the single empty token `[""]`, which comes back as `[]` |
| Serialization.KeyRoundTrip | train.py:23-31 | every word of valid tokens, including the empty word, survives serialisation and deserialisation |
| Serialization.BareKeyRoundTrip | apply_merges_with_true_counts.py:35-39 | with the bare split, separator-free words round-trip exactly when they are non-empty; `""` comes back as `[""]` |
| Serialization.KeyInjective | train.py:109-110 | two words of valid tokens with the same key are the same word, so counting by key counts by word type |
| Serialization.SeparatorInWordBreaksKey | train.py:23-31 | one witness that the key round trip needs the separator-free assumption: the word made of the single character U+0001, tokenised as `[U+0001, </w>]`, comes back from its key as two empty tokens and the marker |
| Tokenize.SplitWords | train.py:14 | the words are non-empty, contain no whitespace, and together hold exactly the text's non-whitespace characters in order |
| Tokenize.SplitWordsLaws | train.py:14 | the word boundaries of `str.split()`: no words in the empty text, a non-empty run without whitespace is one word, and a whitespace character separates the words before it from those after it |
| Tokenize.SplitLawsDetermine | train.py:14 | these laws determine the split completely: every function obeying them is `SplitWords`, so the words are exactly the maximal runs of non-whitespace |
| Tokenize.CharacterWord | train.py:18-19 | a word's token list is one single-character token per character, in order, then exactly one marker; none of the character tokens is the marker |
| Tokenize.TokenizeCharacters | train.py:11-21 | every produced word type ends in the marker and has at least two tokens |
| Tokenize.TokenizeText | apply_merges_with_true_counts.py:20-31 | one word type per word, each being the word's characters followed by the marker |
| Tokenize.TokenizeSplitWords | train.py:14-20 | on non-empty words both scripts tokenise alike: one word type per word, of length `len(word)+1`, the characters then the marker |
| Tokenize.InitialWordCounts | train.py:68-71 | the table has distinct keys, positive counts, total equal to the number of words, each word type's count equal to its multiplicity in the list, and a key exactly for each word type that occurs |
| Counters.TallySpec | train.py:68-71 | `Counter(list)` stores each element once, with positive count equal to its number of occurrences, total equal to the list's length, and a key exactly for each element that occurs |
| Counters.TallyOrder | train.py:68-71 | `Counter(list)` lists its keys in the order of their first occurrence in the list |
| Counters.AddInOrder | train.py:79 | `c[k] += n` keeps a counter's keys in first-occurrence order of the stream of keys added so far, and its keys are exactly that stream's elements |
| Tokenize.InitialOrder | train.py:68-71 | the table lists the word types in the order of their first occurrence in the word list, as a `Counter` built from the list does |
| Tokenize.InitialNonEmpty | train.py:68-71 | a word list without the empty word gives a table without it |
| Tokenize.FreshTable | apply_merges_with_true_counts.py:108-109 | a text without `U+0001` gives a table of valid word types, none of them empty |
| Tokenize.InitialTableValid | train.py:68-71 | a corpus whose words avoid the separator yields a table of valid word types |
| Filter.FilterMerges | train.py:40-66 | the result is the scan state after some prefix of the merges; for `N >= 1` the scan stopped right after the `N`-th acceptance or at the end of the list, no earlier prefix had `N` acceptances, and at most `N` are accepted; for `N <= 0` the whole list is scanned |
| Filter.AtomicOperandsIff | train.py:45-49 | the initial known set is exactly the single-character or marker tokens used as an operand anywhere in the merge list |
| Filter.FilterKnown | train.py:51-55 | the known set is exactly the atomic operands plus the merged tokens of the accepted merges, and every operand of an accepted merge is atomic or the merged token of an earlier accepted merge |
| Filter.FilterSubsequence | train.py:51-64 | the accepted merges and the skipped merges are each an in-order subsequence of the scanned merges, and together they are as many as the scanned merges |
| Filter.FilterPartition | train.py:51-64 | the accepted merges are exactly the scanned merges whose operands were both known when reached, and the skipped ones exactly the others, each in scan order, so every scanned merge lands in exactly one list |
| Filter.ScanSkipReasons | train.py:52-64 | a merge is accepted if and only if both operands are known; otherwise it is skipped with a non-empty reason listing exactly its unknown operands |
| Apply.RewriteLength | train.py:101-108 | each replacement turns two tokens into one: the rewritten length plus the replacements is the old length |
| Apply.FiresIff | train.py:101-108 | the pass changes the word exactly when it makes a replacement, which happens exactly when the pair occurs adjacently; it never makes more replacements than there are (overlapping) occurrences |
| Apply.ScanStep | train.py:101-108 | at a matching position the scan emits the merged token and skips two positions, counting one replacement; anywhere else it copies one token |
| Apply.MergeWord | train.py:98-109 | the source's index loop computes the rewritten word and the number of replacements, with length conservation |
| Apply.CorpusSizeIsMassMinusTotal | train.py:88 | the initial corpus size (tokens minus one marker per word type, weighted) is the weighted token count minus the total multiplicity |
| Apply.StepFromIsRegroup | train.py:93-110 | the per-merge loop computes the re-keying of the table through the rewrite, and its replacement count is the weighted number of replacements |
| Apply.StepFacts | train.py:90-119 | one merge keeps the total multiplicity, distinct keys and positive counts, lowers the weighted token count and the corpus size by exactly the replacement count, never replaces more than the weighted pair occurrences, and keeps a valid table valid under a valid merge |
| Apply.StepKeeps | train.py:90-119 | one merge keeps the total multiplicity, keeps distinct keys and positive counts, and lowers the corpus size by the replacement count |
| Apply.StepKeepsNonEmpty | train.py:96-110 | no merge turns a non-empty word type into the empty word, so a table without it stays without it |
| Apply.StepGet | train.py:109-110 | after a merge, each word type's count is the sum of the counts of the old word types that rewrite to it |
| Apply.StepMass | train.py:112-114 | re-keying through the rewrite lowers the weighted token count and the corpus size by the weighted replacements |
| Apply.MergeLoopLog | train.py:90-117 | for any per-merge step, the `i`-th frequency entry and the `i`-th log entry belong to the `i`-th merge, agree on the replacements, and log the starting size minus all replacements so far |
| Apply.ApplyFromKeeps | train.py:90-119 | the merge loop keeps the total multiplicity and positivity, yields distinct keys, and lowers the corpus size by the sum of all recorded frequencies |
| Apply.ApplyFromValid | train.py:90-119 | valid merges keep a table of valid word types valid |
| Apply.ApplyMergesWordCounts | train.py:82-121 | one frequency and one log entry per merge, in input order; the logged sizes count down from the true initial corpus size; the total multiplicity is kept and the final corpus size is the initial one minus all replacements; valid merges keep a valid table valid, and a table without the empty word stays without it |
| Apply.MergeLoopPrefix | train.py:90-117 | running the loop on a prefix of the merges gives the same prefix of the frequency list, so each step's record depends only on the merges before it |
| Apply.LoggedSizeIsTrueSize | train.py:88-117 | the corpus size logged after the `i`-th merge is the corpus size of the table after the first `i+1` merges |
| Bigrams.BigramsSpec | train.py:73-80 | a pair's frequency is the multiplicity-weighted number of its adjacent occurrences over all word types; a pair has an entry if and only if it occurs adjacently somewhere; keys are distinct |
| Bigrams.BigramOrder | train.py:73-80 | the pairs are listed in the order of their first occurrence when the word types are scanned in table order and each word left to right, and they are exactly the pairs met on that scan |
| Bigrams.ReplacementsAtMostFrequency | train.py:96-105 | applying a merge never makes more replacements than the merge's bigram frequency in the same table |
| Undo.Split | train.py:138-144 | every token of the result is an old token or one of the two operands |
| Undo.UndoFacts | train.py:123-148 | undo keeps the total multiplicity, distinct keys and positive counts, and each word type's count is the sum over the old word types that split to it |
| Undo.SplitWithout | train.py:132-134 | the shortcut for word types without the merged token agrees with splitting them |
| Undo.UndoWordIsSplit | train.py:129-146 | with or without the shortcut, each word type is split the same way |
| Undo.SplitLength | train.py:139-144 | splitting adds one token per occurrence of the merged token |
| Undo.NoMergedLeft | train.py:139-144 | after undoing a valid merge no word type contains its merged token |
| Undo.SplitRewrite | train.py:96-144 | splitting undoes one rewrite pass of the same merge on every word type that did not already contain the merged token |
| Undo.UndoUntouched | train.py:129-134 | undo leaves a table unchanged, order included, when no word type contains the merged token |
| Undo.UndoMass | train.py:136-146 | undo raises the weighted token count by the weighted number of merged tokens |
| Undo.UndoValid | train.py:123-148 | undoing a valid merge keeps a table of valid word types valid |
| Undo.UndoAfterApply | train.py:123-148 | undoing a merge right after applying it gives back the original table exactly, provided no word type held the merged token before |
| Sorting.SortBySpec | train.py:155 | the sorted list is ordered by key, is a permutation of the input, and keeps the input order among equal keys |
| Sorting.StableSortUnique | train.py:165 | two key-ordered lists with the same elements of each key in the same order are equal, so the stable sort is determined uniquely |
| Refine.Candidates | train.py:159-164 | the candidates are exactly the bigram entries whose pair is a remaining merge, each with its bigram frequency |
| Refine.CandidatesOrder | train.py:161-164 | the candidate list keeps the bigram order: filtering distributes over concatenation and keeps a single entry exactly when its pair is a remaining merge |
| Refine.DropAtMost | train.py:177-178 | the inner loop pops a prefix of entries whose frequency is at most the low merge's usage, and leaves a suffix that is empty or starts with a strictly larger frequency |
| Refine.RemoveFirstSpec | train.py:212-216 | removal deletes exactly the first occurrence and keeps the order of all other entries; an absent merge leaves the list unchanged |
| Refine.RefineLoopGrows | train.py:172-228 | the loop only appends to the log, at most one entry per queued applied merge and at most one per candidate |
| Refine.RefineLoopLog | train.py:207-228 | each added log entry is numbered by its position, records a swap that fired, and pairs an entry of the low queue with a strictly more frequent entry of the high queue |
| Refine.RefineLoopReplay | train.py:207-217 | the final merge list and the table are the starting ones with exactly the logged swaps replayed (remove the low merge's first occurrence, append the high merge), so a swap that did not fire changes neither |
| Refine.RefineLoopOrder | train.py:173-183 | with the low queue sorted by ascending usage and the high queue by descending frequency, the logged low usages never decrease and the logged high frequencies never increase |
| Refine.HardStop | train.py:177-181 | once no remaining candidate beats the current low merge, the search ends with table, log and merge list unchanged, however many applied merges are still queued |
| Refine.SwapMass | train.py:187-205 | a swap raises the weighted token count by the low merge's occurrences in the current table and lowers it by the candidate's replacements, keeping the total multiplicity |
| Refine.ReplayTotal | train.py:187-209 | replaying swaps keeps the total multiplicity and positive counts |
| Refine.RefineMergesLog | train.py:150-231 | the log is numbered 1, 2, …; it has at most one entry per recorded merge frequency and per candidate; every logged swap fired and replaced an applied merge, with its recorded usage, by a remaining merge whose bigram frequency in the starting table is strictly greater; the swaps come in greedy order, the logged usages never decreasing and the logged candidate frequencies never increasing |
| Refine.RefineMergesReplay | train.py:150-231 | the final merge list and table are the logged swaps replayed on the applied merges and the starting table; the total multiplicity is kept |
| Refine.ReplayValid | train.py:187-209 | replaying swaps of valid merges keeps a table of valid word types valid, and any swap leaves distinct keys |
| Refine.RefineMergesValid | train.py:150-231 | with valid word types and valid applied merges, the refined table has valid word types, and distinct keys when the starting table had them; the candidates are pairs of the table's own tokens |
| Bigrams.BigramKeyValid | train.py:73-80 | every pair listed for a table of valid word types is a valid merge |
| Refine.CandidateEntry | train.py:157-165 | every entry of the high queue is a remaining merge with its bigram frequency in the table |
| Flatten.WithoutMarker | train.py:239 | the filtered list holds exactly the word's tokens other than the marker |
| Flatten.Repeat | train.py:240-241 | `count` copies of the word give `count` times its length, and nothing else |
| Flatten.FlattenMultiset | train.py:233-242 | each token other than the marker occurs in the stream as often as its multiplicity-weighted count over the table |
| Flatten.FlattenNoMarker | train.py:239 | the stream holds no marker |
| Flatten.FlattenLength | train.py:235-241 | the stream's length is the multiplicity-weighted number of marker-free tokens |
| Flatten.FlattenRoundTrip | train.py:242 | when no token contains a space and the stream is non-empty, splitting the written text on single spaces gives the stream back, empty tokens included |
| TrueCounts.UsageAddSpec | apply_merges_with_true_counts.py:61 | adding the count once per replacement adds count times replacements under the merge, touches no other key, and creates the key only if the merge fired |
| TrueCounts.CountFromSpec | apply_merges_with_true_counts.py:53-67 | one merge yields train.py's table, and the usage counter gains exactly the step's replacements under that merge and nothing elsewhere |
| TrueCounts.CountLoopSpec | apply_merges_with_true_counts.py:50-69 | the whole loop yields train.py's final table, and every key's usage grows by the sum of the frequencies train.py records for it |
| TrueCounts.TrueCountsAgree | apply_merges_with_true_counts.py:43-71 | both scripts compute the same final table; each merge's usage is the sum of the replacement counts train.py records for it, so repeated merges accumulate; only listed merges get a usage entry; the total multiplicity is kept and the total usage equals the drop in the weighted token count |
| TrueCounts.UsageIsTokenDrop | apply_merges_with_true_counts.py:58-67 | per merge, the amount added to the usage counter equals the drop in the weighted token count |
| TrueCounts.ReadBack | apply_merges_with_true_counts.py:35-39 | the bare split reads a stored word of valid tokens back as itself, except the empty word, which comes back as one empty token |
| TrueCounts.CompanionReadsAlike | apply_merges_with_true_counts.py:53-66 | reading a key back through the bare split before the rewrite gives the same new key and the same number of replacements as rewriting the stored word itself |
| TrueCounts.CountFinalIsWeighted | apply_merges_with_true_counts.py:75-81 | on valid word types, the final token count is the multiplicity-weighted number of tokens other than the marker, with the empty word counted as one token |
| TrueCounts.CountFinalIsFlattenLength | apply_merges_with_true_counts.py:75-81 | on valid word types without the empty word, the final token count is the length of train.py's flattened token stream |
| TrueCounts.EmptyWordCountsOne | apply_merges_with_true_counts.py:75-81 | the scripts differ on the empty word: its key `""` counts one token per occurrence, while train.py writes no token for it |
| TrueCounts.CharacterWordLength | apply_merges_with_true_counts.py:27-30 | a freshly tokenised word has one non-marker token per character |
| TrueCounts.InitialWeighted | train.py:68-71 | a weight summed over the collapsed table equals the weight summed over the word list |
| TrueCounts.TokenizedLength | apply_merges_with_true_counts.py:25-31 | the non-marker tokens of the tokenised words number the characters of the words |
| TrueCounts.CountFinalOnFreshTable | apply_merges_with_true_counts.py:75-81 | on a freshly tokenised corpus without `U+0001`, the final token count is the number of non-whitespace characters of the text |
| TrueCounts.CountFinalAfterMerges | apply_merges_with_true_counts.py:108-115 | after any valid merges on a text without `U+0001`, the final token count is the number of tokens train.py writes out for the same table |

Two facts about the code that a reader of the refinement log or of the
filter might not expect:

- **A log entry does not fix a swap's token count.** `low_freq` in a
  refinement log entry is the usage recorded when the merges were applied.
  It is not the number of tokens the undo brings back, which depends on the
  current table. `Refine.SwapMass` states the exact relation.
- **Filtering with `N <= 0` keeps everything.** The test
  `len(valid_merges) == N` (train.py:56) never succeeds when `N <= 0`, so
  the scan runs over the whole list and accepts every buildable merge.
  `Filter.FilterMerges` states this case.

## Left out

- Reading `tokenizer.json` and the merge file, the `main` functions, argument
  parsing, file writes and logging (train.py:33-38, 244-306;
  apply_merges_with_true_counts.py:85-134): I/O.
- The computation of `remaining_merges` as all merges minus the applied ones
  (train.py:280): it belongs to `main`, and `Refine.RefineMerges` takes the
  remaining merges as an input.
- The compression-utility ratio (apply_merges_with_true_counts.py:118): float
  division, undefined on an empty corpus.
- apply_filtered-merges.py: its behaviour lies inside the HuggingFace
  `tokenizers` library, which is not part of this model.
- Unicode whitespace of `str.split()`: `Tokenize.SplitWords` takes the
  whitespace predicate as a parameter.
- `make_base_token` (apply_merges_with_true_counts.py:11-12) is the identity.
  `make_merged_token` (apply_merges_with_true_counts.py:14-15) is
  `Merge.Merged`.
- The skip reasons are strings in the source. The model records the list of
  missing operands those strings name, in the same order.
- The `"merge_type": "Replacement"` field of each refinement log entry is a
  constant and is not stored.
- Undo's shortcut copies the original key string when the merged token is
  absent. The model re-keys that word type by itself. This is the same key
  for words of valid tokens (`Serialization.KeyRoundTrip`).
- A corpus containing `U+0001`: the key of a word holding that character
  splits into extra empty tokens (`Serialization.SeparatorInWordBreaksKey`).
  Both scripts would then rewrite, pair and count token lists other than
  the word's own, which a table keyed by token lists does not describe. The
  lemmas about whole runs assume a text without it.
- The empty word: `count_final_tokens` counts its key `""` as one token,
  and `flatten_from_counts` writes none for it
  (`TrueCounts.EmptyWordCountsOne`). No table built from a corpus holds it:
  every word type ends in the marker, and no merge empties a word
  (`Tokenize.FreshTable`, `Apply.StepKeepsNonEmpty`).
- TrueCounts.CountFinalIsFlattenLength: requires a table without the empty
  word, because on the empty word the two scripts' counts differ.
- Apply.MergeLoop: its own contract gives only the lengths of the frequency
  list and the log. The per-entry facts are in `Apply.MergeLoopLog` and
  `Apply.ApplyFromKeeps`.
- Refine.RefineMergesLog: the greedy order is stated as monotone usages and
  monotone candidate frequencies along the log. It does not state that each
  tried candidate is the most frequent one still queued, because "still
  queued" depends on the candidates popped by earlier rounds.
- Refine.RefineMerges: there is no lemma that the refined merge list stays
  bottom-up buildable. It need not: a low merge `(a, b)` can be swapped out
  while a later merge still uses `ab` as an operand.
