# Wordle best-guess pipeline, modelled in Dafny

This project models the discrete core of fvogels/wordle-solver. The pipeline has four stages:

1. The Ruby preprocessor scores every ordered pair of dictionary words with the two-pass Wordle rule (`score.rb`).
2. It stores the scores in a hash keyed `"solution:guess"` and, optionally, writes them in a compressed binary layout (`ruby/preprocess.rb`).
3. The C++ solver loads that layout into a `Scorer`, filters candidate solutions by an observed score, and searches for the guess of greatest average information (`cpp/cpp/app.cpp`). The search comes in a sequential and a threaded form.
4. Two Ruby solvers do the same over the hash (`wordle.rb`, `ruby/wordle.rb`).

Everything is modelled with immutable sequences, maps and pure functions. The loops of the source appear as methods proved equal to those functions.

Modules, one file each:

| module | file | what it models |
|---|---|---|
| `Seqs` | seqs.dfy | Option, duplicate-freedom, Ruby `uniq`, subsequences, concatenation |
| `Positional` | positional.dfy | base-b digit folds (`acc * b + d`) and their inverse |
| `Feedback` | feedback.dfy | `score` / `score?` of score.rb: the two passes over a letter tally, proved equal to a closed-form greedy rule |
| `Codec` | codec.dfy | `to_word`, `from_word` (32-bit), the Ruby id fold, score packing, `to_score`, `unparse_score` |
| `ScoreTable` | score_table.dfy | the Ruby hash, `build_table`, the `score` key lookup, the dictionary extraction |
| `Compressed` | compressed.dfy | `write_compressed` as bytes, and the byte reader at the head of `load_scorer` |
| `Scoring` | scorer.dfy | the C++ `Scorer` (`derive_key`, `add`, `lookup`, `wordids`) and the loops of `load_scorer` |
| `Filtering` | filter.dfy | `filter_words`, `measure_information_gained`, `average_information_gained` with its memo |
| `Argmax` | argmax.dfy | the strict-`>` running best of `find_best_guess` and the reduction over thread results |
| `Batches` | batches.dfy | the round-robin dealing of guesses to threads |
| `Search` | search.dfy | both C++ `find_best_guess` overloads, as written and as intended |
| `PoolFinding` | finding.dfy | a three-word counterexample for the candidate pool of `find_best_guess` |
| `RubySearch` | ruby_search.dfy | compatible counting, `group_by` bucketing and `max_by` of the Ruby solvers |

Floating-point information is not computed. It enters as a parameter:

- `Filtering.Entropy` is a function from (compatible, incompatible) counts to a `real`.
- In the Ruby search, the rating of a guess is an abstract `real`-valued function.

A NaN average, which comes from an empty candidate list, is `None`.

Behaviour of the code that the model keeps as it is:

- **Rating pool.** Both C++ `find_best_guess` overloads rate each guess over `candidate_guesses`, not over the remaining solutions (see Findings).
- **Ties.** The sequential and threaded searches can pick different guesses on ties (`Search.TieBreaksDiffer`).
- **Missing keys.** A C++ `lookup` of a pair never added is undefined behaviour. The model states this as a precondition (`Scoring.Lookup` requires `Has`).
- **Truncated files.** A truncated file leaves the zeros the C++ reader's buffers were initialised with. `Compressed.Read` models that zero fill.
- **Information metric.** The C++ solver and `wordle.rb` average a binary compatible/incompatible split. `ruby/wordle.rb` buckets the full score distribution. Only the counting skeleton of either is modelled.
- **Empty guess pool.** C++ returns word id 0, and Ruby `max_by` returns nil (`None`).

## Model

| member | source | states |
|---|---|---|
| Feedback.Reference | score.rb:5 | one verdict per position of the solution |
| Feedback.PassOne | score.rb:7-15 | pass one marks exactly the positions where solution and guess agree as correct, all others wrong, and leaves the tally of solution letters not consumed by an exact match, positive counts only |
| Feedback.MarkMisplaced | score.rb:18-24 | one step of pass two sets position i to its greedy verdict and consumes the letter from the tally exactly when it is marked misplaced |
| Feedback.PassTwo | score.rb:17-25 | pass two turns the pass-one marks into the greedy reference verdicts and ends with the tally of unclaimed letters |
| Feedback.Score | score.rb:1-28 | one verdict per position; position i is correct iff solution and guess agree there; the result is the closed-form greedy rule |
| Feedback.IsScore | score.rb:31-33 | `score?` holds exactly when the expected verdicts equal the score |
| Feedback.TallyStart | score.rb:4 | `tally` of the solution is the tally pass one starts from |
| Feedback.ExactStep | score.rb:8-13 | an exact match finds its letter in the tally and consumes it, deleting the entry at zero |
| Feedback.InexactStep | score.rb:8 | a position that does not match exactly leaves the tally unchanged |
| Feedback.VerdictByTally | score.rb:18 | a non-exact position is misplaced iff its guess letter is still in the tally, otherwise wrong |
| Feedback.ClaimStep | score.rb:18-23 | a misplaced mark consumes one copy of its letter from the tally |
| Feedback.SkipStep | score.rb:18 | a position not marked misplaced leaves the tally unchanged |
| Feedback.CreditSplit | score.rb:17-24 | the positions credited with letter x are its exact matches plus as many left-most contenders as there are unmatched copies of x |
| Feedback.CreditBound | score.rb:10-13 | for each letter, the positions marked correct or misplaced never exceed its count in the solution |
| Feedback.IdenticalAllCorrect | score.rb:8-9 | a guess equal to the solution scores all correct |
| Feedback.MisplacedInSolution | score.rb:18 | a misplaced position holds a guess letter that differs from the solution there but occurs in the solution |
| Feedback.DisjointAllWrong | score.rb:18 | a guess sharing no letter with the solution scores all wrong |
| Feedback.EarlierDuplicateFirst | score.rb:17-24 | misplaced marks go left to right: if a later duplicate of a letter is misplaced, an earlier non-exact one is too |
| Feedback.PermutationMisplaced | score.rb:17-24 | a guess of distinct letters drawn from the solution scores correct where it agrees and misplaced everywhere else |
| Feedback.ExampleIdentical | tests.rb:6 | "abcde" against itself is CCCCC |
| Feedback.ExampleDisjoint | tests.rb:7 | "xxxxx" against "abcde" is WWWWW |
| Feedback.ReversedFive | tests.rb:8 | any five distinct letters against their reversal give MMCMM |
| Positional.PackBound | preprocess.rb:19-21 | a base-b fold of k digits lies in [0, b^k) |
| Positional.UnpackPack | preprocess.rb:19-21 | unpacking a fold gives back its digits |
| Positional.PackUnpack | cpp/cpp/app.cpp:25-29 | folding the k low digits of n gives n mod b^k |
| Codec.Spaces | cpp/cpp/app.cpp:16-17 | 26^5 word ids fit in 32 bits, and 3^5 = 243 patterns |
| Codec.ToWord | cpp/cpp/app.cpp:20-32 | `to_word` gives five lowercase letters, the last being 'a' + id mod 26 |
| Codec.FromWordWraps | cpp/cpp/app.cpp:34-44 | the 32-bit `from_word` fold, taken one character at a time, is the unbounded Ruby fold reduced mod 2^32 for every string of characters; `FromCharsAscii` ties it to the C++ byte fold |
| Codec.FromCharsAscii | cpp/cpp/app.cpp:34-44 | on a string of characters below 128, `from_word` folding the string's signed `char` bytes, each step wrapped to 32 bits, gives the same id as the character fold |
| Codec.WordIdsAgree | ruby/preprocess.rb:46-48 | on a five-letter word the Ruby id is below 26^5 and equals `from_word`, over its characters and over its bytes |
| Codec.ToWordFromWord | cpp/cpp/app.cpp:20-44 | `to_word(from_word(w)) == w` for every five-letter lowercase w |
| Codec.FromWordToWord | cpp/cpp/app.cpp:20-44 | `from_word(to_word(id))` is id mod 26^5, and id itself below 26^5 |
| Codec.FromWordInjective | cpp/cpp/app.cpp:34-44 | distinct words get distinct ids |
| Codec.PackScoreRange | preprocess.rb:19-21 | the packed score of five verdicts lies in [0, 243) |
| Codec.PackScoreInjective | preprocess.rb:10-23 | equal packed scores iff equal verdict sequences |
| Codec.ToScore | cpp/cpp/app.cpp:46-73 | `to_score` gives five characters over C, M, W |
| Codec.ToScorePackScore | cpp/cpp/app.cpp:46-72 | `to_score` of a packed score renders the verdicts (2 to C, 1 to M, 0 to W, least significant last) |
| Codec.ToScoreWraps | cpp/cpp/app.cpp:51-70 | `to_score` only sees its argument mod 243 |
| Codec.Ternary | wordle.rb:8 | `to_s(3)` is a base-3 numeral of n |
| Codec.PadLeft | wordle.rb:8 | `rjust(5, '0')` pads to five digits and never truncates |
| Codec.TernaryLength | wordle.rb:8 | the numeral has at most k digits iff n < 3^k |
| Codec.UnparseScoreLength | wordle.rb:8 | `unparse_score(n)` has exactly five characters iff n < 243 |
| Codec.UnparseScore | ruby/wordle.rb:8-17 | `unparse_score` yields characters over W, M, C only |
| Codec.UnparseScoreToScore | wordle.rb:7-18 | below 243 `unparse_score` and `to_score` agree |
| Codec.UnparsePackScore | ruby/wordle.rb:7-18 | `unparse_score` inverts `build_table`'s packing |
| ScoreTable.Get | wordle.rb:47 | a hash read finds a value iff the key was stored |
| ScoreTable.PutKeys | preprocess.rb:23 | a store keeps insertion order: a new key goes last, an existing one stays put |
| ScoreTable.GetPut | preprocess.rb:23 | after a store the key reads the new value and every other key is unchanged |
| ScoreTable.KeyInjective | preprocess.rb:23 | keys "s:g" of colon-free words determine s and g |
| ScoreTable.BuildTableShape | preprocess.rb:8-24 | `build_table` holds an entry for every ordered dictionary pair, each key once, and only such entries |
| ScoreTable.BuildTableCode | preprocess.rb:5-28 | the entry of "s:g" is the base-3 packing of `score(s, g)` |
| ScoreTable.BuildTableRange | preprocess.rb:19-21 | for five-letter words every stored value lies in [0, 243) |
| ScoreTable.PairsShape | ruby/preprocess.rb:8-24 | the pair table of any coder covers every ordered pair, keys distinct, entries sound |
| ScoreTable.Lookup | wordle.rb:46-48 | `score` finds a value iff the key "solution:guess" is in the table |
| ScoreTable.LookupBuilt | ruby/wordle.rb:46-48 | over a built table `score(s, g)` is the packed verdicts of s against g |
| ScoreTable.BeforeColon | wordle.rb:43 | the text before the first colon holds no colon |
| ScoreTable.FirstFieldKey | wordle.rb:43 | `"s:g".split(':')[0]` is s for a non-empty colon-free s |
| ScoreTable.Dictionary | wordle.rb:43 | the dictionary is duplicate-free and holds exactly the first fields of the keys |
| ScoreTable.DictionaryOfBuilt | ruby/wordle.rb:43 | over a built table the dictionary is duplicate-free and holds exactly the input words |
| Compressed.Le32RoundTrip | ruby/preprocess.rb:43 | reading the four little-endian bytes of `pack('L')` gives the value mod 2^32 |
| Compressed.Le32s | ruby/preprocess.rb:50 | `pack('L*')` writes four bytes per id |
| Compressed.LexTotal | ruby/preprocess.rb:40 | any two strings are ordered one way or the other |
| Compressed.LexAntisymmetric | ruby/preprocess.rb:40 | strings ordered both ways are equal |
| Compressed.Insert | ruby/preprocess.rb:40 | one insertion step keeps the members and adds one |
| Compressed.InsertMultiset | ruby/preprocess.rb:40 | an insertion step adds exactly one copy of the inserted word to the multiset of words |
| Compressed.SortFacts | ruby/preprocess.rb:40 | `sort` returns an ordered permutation (equal multisets) of its input, duplicate-free when its input is |
| Compressed.Words | ruby/preprocess.rb:40 | the word list holds exactly the five-character key prefixes |
| Compressed.WordsSorted | ruby/preprocess.rb:40 | the word list is sorted and duplicate-free |
| Compressed.Ids | ruby/preprocess.rb:45-48 | one id per word |
| Compressed.MatrixAt | ruby/preprocess.rb:53-57 | byte i*N+j of the matrix is the cell of solution i and guess j |
| Compressed.ScoreBytesAt | ruby/preprocess.rb:53-59 | each matrix cell is the stored score of "words[i]:words[j]" as `pack('C')` writes it |
| Compressed.WriteMissing | ruby/preprocess.rb:53-59 | if the key "s:g" of two listed words is missing, the writer fails, as `pack('C*')` raises on the nil |
| Compressed.BuiltWrites | ruby/preprocess.rb:37-62 | the table `build_table` makes for a dictionary of five-letter words always writes |
| Compressed.Read | cpp/cpp/app.cpp:112-121 | the reader yields a layout of N ids and N*N scores whenever it succeeds |
| Compressed.ReadLayout | cpp/cpp/app.cpp:114-121 | count, ids and matrix read back exactly as laid out |
| Compressed.WriteRead | ruby/preprocess.rb:37-62 | reading what `write_compressed` wrote gives its count, its ids and its matrix |
| Compressed.WordsOfBuilt | ruby/preprocess.rb:40 | the word list of a built table holds exactly the dictionary words |
| Compressed.BuiltIds | ruby/preprocess.rb:45-50 | read-back id i of a built table is `from_word` of word i |
| Compressed.BuiltScores | ruby/preprocess.rb:53-57 | read-back cell (i, j) of a built table is the packed score of word i against word j |
| Compressed.BuiltRoundTrip | ruby/preprocess.rb:37-62 | for a dictionary of five-letter words the written file reads back as the sorted distinct words, their ids and their pair scores |
| Scoring.KeyLayout | cpp/cpp/app.cpp:86 | shifting s left 32 and or-ing g is s * 2^32 + g |
| Scoring.DeriveKey | cpp/cpp/app.cpp:84-87 | the key fits 64 bits |
| Scoring.KeyHalves | cpp/cpp/app.cpp:84-87 | the high half of the key is the solution and the low half the guess |
| Scoring.DeriveKeyInjective | cpp/cpp/app.cpp:84-87 | keys are equal iff both ids are |
| Scoring.AddLookup | cpp/cpp/app.cpp:90-101 | after `add(s, g, v)` the pair (s, g) looks up v, and every other pair is present and valued as before |
| Scoring.LoadScorer | cpp/cpp/app.cpp:123-136 | the nested loops build the scorer of the layout; the running index is i * N + j, so the score handed to `add` is matrix cell (i, j) |
| Scoring.LoadWords | cpp/cpp/app.cpp:103-106 | `wordids()` of a loaded scorer is the set of its ids |
| Scoring.LoadHas | cpp/cpp/app.cpp:123-136 | a loaded scorer holds a pair iff both ids are in the file |
| Scoring.LoadLookup | cpp/cpp/app.cpp:123-136 | with distinct ids, (ids[i], ids[j]) looks up matrix cell i*N+j |
| Scoring.ScorerOfBuilt | cpp/cpp/app.cpp:109-139 | loading the compressed file of a dictionary gives, for every pair of its words, the packed verdicts |
| Filtering.FilterWords | cpp/cpp/app.cpp:141-155 | the result is no longer than the input and holds exactly the input words whose lookup equals the score |
| Filtering.FilterSubsequence | cpp/cpp/app.cpp:146-152 | the result keeps the input order |
| Filtering.FilterIdempotent | cpp/cpp/app.cpp:142-155 | filtering twice by the same guess and score is filtering once |
| Filtering.Compatible | cpp/cpp/app.cpp:160-179 | the compatible count never exceeds the candidate count |
| Filtering.MeasureInformation | cpp/cpp/app.cpp:157-199 | compatible plus incompatible is the candidate count, compatible is the size of the filtered list, and the information is the entropy of the two counts |
| Filtering.AverageInformation | cpp/cpp/app.cpp:201-228 | the memoised loop returns the plain average of the per-candidate measures, NaN for no candidates |
| Argmax.BestChosen | cpp/cpp/app.cpp:234-247 | the sequential best is (0, 0) or a guess with its value, and no guess beats it |
| Argmax.BestFirst | cpp/cpp/app.cpp:239-247 | the loop returns (0, 0) iff no value exceeds 0, else the first guess of greatest value |
| Argmax.ChosenUnique | cpp/cpp/app.cpp:243 | two acceptable bests over the same guesses carry the same value |
| Argmax.ReduceChosen | cpp/cpp/app.cpp:335-347 | reducing acceptable per-batch bests gives an acceptable best over all batches |
| Batches.Deal | cpp/cpp/app.cpp:274-286 | there are nthreads batches |
| Batches.DealStride | cpp/cpp/app.cpp:280-285 | batch t holds the guesses at positions congruent to t mod nthreads, in order |
| Batches.StrideMembers | cpp/cpp/app.cpp:282-283 | a guess is in batch t iff it sits at a position congruent to t |
| Batches.StrideSubsequence | cpp/cpp/app.cpp:280-285 | each batch keeps the order of the guesses |
| Batches.DealPartition | cpp/cpp/app.cpp:274-286 | the batches together hold every guess exactly as often as the input |
| Batches.NextBatch | cpp/cpp/app.cpp:283 | one step `i = (i + 1) % nthreads` from k mod n gives (k + 1) mod n; `MakeBatches` uses it to keep the counter at k mod n after k guesses |
| Batches.MakeBatches | cpp/cpp/app.cpp:274-286 | the dealing loop builds the batches and `progress_goal` is the guess count |
| Search.SelectBest | cpp/cpp/app.cpp:239-247 | the selection loop computes the strict-`>` best of the guesses |
| Search.FindBestGuessAsWritten | cpp/cpp/app.cpp:231-263 | the sequential overload picks the best guess rated over `candidate_guesses` |
| Search.FindBestGuess | cpp/cpp/app.cpp:239-247 | the corrected sequential overload picks the best guess rated over the solutions |
| Search.FindBestFirst | cpp/cpp/app.cpp:234-247 | the corrected search returns 0 iff no average exceeds 0, else the first guess of greatest average |
| Search.ThreadBests | cpp/cpp/app.cpp:288-311 | one result per thread |
| Search.BatchesReady | cpp/cpp/app.cpp:296-298 | every guess of every batch can be rated |
| Search.RunThreads | cpp/cpp/app.cpp:288-311 | thread t leaves the best of batch t |
| Search.ReduceBests | cpp/cpp/app.cpp:335-347 | the final loop computes the strict-`>` reduction of the thread results |
| Search.FindBestGuessThreaded | cpp/cpp/app.cpp:265-348 | the threaded overload deals, selects per batch, and reduces |
| Search.ThreadedChosen | cpp/cpp/app.cpp:265-348 | the threaded result has the overall greatest value, or is 0 when none exceeds 0, so it carries the same information as the sequential one |
| Search.DealThree | cpp/cpp/app.cpp:280-285 | three guesses dealt to two threads give batches [1, 3] and [2] |
| Search.TieBreaksDiffer | cpp/cpp/app.cpp:300-303 | with a tie, the sequential overload picks 2 and the threaded one with two threads picks 3 |
| PoolFinding.ExampleLayout | cpp/cpp/app.cpp:114-121 | the three-word file is well sized with distinct ids |
| PoolFinding.ExampleLookup | cpp/cpp/app.cpp:97-101 | the loaded example scores 242 on the diagonal and 0 elsewhere |
| PoolFinding.RateTwo | cpp/cpp/app.cpp:201-228 | over two candidates, a guess scoring them alike rates h(2, 0) and one scoring them apart h(1, 1) |
| PoolFinding.ExampleShape | cpp/cpp/app.cpp:123-136 | the loaded example has the scores the counterexample needs |
| PoolFinding.PoolCounterexample | cpp/cpp/app.cpp:241 | both overloads as written pick guess 3, which cannot tell the two solutions apart; rating over the solutions picks 1 |
| RubySearch.CompatibleCount | wordle.rb:52-54 | the compatible count never exceeds the candidate count |
| RubySearch.CountsSplit | wordle.rb:52-56 | the incompatible count is the number of candidates with another score, and the two counts add up to the candidate count |
| RubySearch.PlaceKeys | ruby/wordle.rb:52-54 | adding an element keeps the existing keys and appends a new key last |
| RubySearch.GroupByKeys | ruby/wordle.rb:52-54 | the keys of `group_by` are the distinct scores in order of first appearance |
| RubySearch.GroupByMembers | ruby/wordle.rb:52-54 | each group is exactly the elements with its key, in order |
| RubySearch.GroupBySizes | ruby/wordle.rb:52-55 | the group sizes add up to the element count |
| RubySearch.SelectCount | wordle.rb:52-54 | the candidates with a given score number its compatible count |
| RubySearch.Buckets | ruby/wordle.rb:52-55 | the buckets have distinct scores, hold exactly the candidates with their score, as many as `information_gained` counts compatible, and their sizes sum to the candidate count |
| RubySearch.MaxBy | ruby/wordle.rb:62-66 | `max_by` is nil iff there are no guesses, and otherwise a guess whose value is at least every other |
| RubySearch.MaxByFirst | wordle.rb:83-90 | `max_by` returns the first guess of greatest value |

## Left out

- File and stream I/O are not modelled. This covers the `ifstream` reads, `Marshal.dump`/`Marshal.load`, `IO.binread`/`IO.binwrite`, `File.open`, and reading the dictionary from STDIN. Byte layouts are modelled as `seq<int>`.
- `write_binary`, `write_text` and `write` are not modelled: they only serialise the hash.
- `load_score_table` is not modelled. Its text mode aborts.
- Option parsing, `main`, `test` and the hard-coded paths are not modelled.
- Threads, the atomic progress counter, the sleep/poll loop and `join` are not modelled. The threads run one after another in the model, which is their sequential meaning, since each writes only its own slot.
- Progress, ETA and console printing are not modelled.
- `log2`, floating-point division and rounding are not modelled. Information is an abstract function into `real`, and `real` addition is exact where the source rounds.
- Filtering.AverageInformation: a lookup of 243 or more would index past the 243-entry memo. The model requires every score to be below 243 (`Filtering.Patterns`), which holds for files the preprocessor writes (`ScoreTable.BuildTableRange`).
- Scoring.Lookup: a missing key is undefined behaviour in the source. The model requires the key to be present (`Has`), and so do the filter and search members that call it.
- Scoring.DeriveKey: the 64-bit key is an unbounded integer. `Scoring.KeyLayout` proves that the shift-and-or on 64-bit vectors computes that integer.
- Scoring: the solver's `std::set` iteration order, in ascending id, is not modelled. Candidate and guess containers are sequences in any given order.
- Compressed.Read: the bytes are read as little-endian. A header shorter than four bytes and an N*N that wraps 32 bits are `None`, because they are undefined behaviour in the source.
- Filtering.MeasureInformation: `compatible_count` and `incompatible_count` (cpp/cpp/app.cpp:160-161) are 32-bit `unsigned` in the source. The model counts them as unbounded `nat`. This matters only at 2^32 or more candidates. The solver's candidate sets are sets of ids from one file, whose count is a `uint32_t`, so they hold fewer than 2^32 ids and the wrap cannot be reached.
- Filtering.AverageInformation: the same holds for its `count` (cpp/cpp/app.cpp:206).
- Batches.MakeBatches: the same holds for `progress_goal` (cpp/cpp/app.cpp:272), which counts guesses drawn from the same id sets.
- Compressed.ReadLayout: proved for N below 65536, so that N*N fits 32 bits.
- Compressed.BuiltRoundTrip: like `Compressed.BuiltIds`, `Compressed.BuiltScores` and `Scoring.ScorerOfBuilt`, it requires fewer than 65536 distinct dictionary words, so that the reader's 32-bit N*N does not wrap.
- Search.FindBestGuessThreaded: requires at least one thread. With `nthreads == 0` and at least one guess, the source's `batches[i]` indexes an empty vector (cpp/cpp/app.cpp:282), which is undefined behaviour. With no guesses and no threads the source returns 0; the model leaves that case out.
- RubySearch: `average_information_gained` and `information_gained` are modelled only through their counting skeleton, the compatible count and the buckets. The logarithms are left out, and so is the ZeroDivisionError an empty candidate list raises.
- RubySearch.MaxBy: the rating is an abstract total function. Ruby's failure to compare a NaN rating is not modelled.
- Codec.FromWordWraps: the fold is over characters, which are code points. C++ `from_word` folds the bytes of the `std::string` as signed `char`s. The two agree on characters below 128 (`Codec.FromCharsAscii`), which covers every dictionary word. For other characters the C++ input depends on the string's byte encoding, for example UTF-8, and that encoding is not modelled.
- Codec.FromWord: agrees with the C++ function only on strings of characters below 128, as the line above says.
- Codec: Ruby's `unparse_score` maps digits other than 0, 1 and 2 to nil. This never happens, since `to_s(3)` only yields those digits.

## Findings

| source | as written | input that shows it | evidently intended | confidence | as-written member | corrected member |
|---|---|---|---|---|---|---|
| cpp/cpp/app.cpp:241 | both `find_best_guess` overloads (also line 298) rate each guess by `average_information_gained(scorer, guess, candidate_guesses)`, so `candidate_solutions` is never used | a synthetic file for ids 1, 2, 3 with diagonal score 242 and 0 elsewhere, the scores of letter-disjoint words such as "abcde", "fghij", "klmno"; solutions [1, 2], guesses [3, 1]: as written both overloads pick 3, whose score is the same for both solutions | rate over `candidate_solutions`: guess 1 tells the two solutions apart and is picked | not executed | Search.FindBestGuessAsWritten, PoolFinding.PoolCounterexample | Search.FindBestGuess, Search.FindBestFirst, Search.ThreadedChosen |
