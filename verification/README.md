# Wordle entropy solver: a verified model of its engine

The solver plays Wordle over a dictionary of five-letter words.

Feedback for a guess against a hidden solution is one mark per position:
- `2`: the letter is right and in the right place.
- `1`: the letter is present elsewhere; each solution letter is consumed at most once.
- `0`: the letter is absent.

The feedback is packed into a code in `[0, 243)`, where position i contributes `digit * 3^i`. The all-green feedback `22222` is code 242, the solved code.

The solver precomputes an `N*N` table holding the code of every word guessed against every word. A game then repeats four steps:
1. It filters the dictionary down to the words consistent with every recorded (guess, code) pair.
2. It picks the guess pool. This is the whole dictionary when 4 <= candidates < 50, and the candidates otherwise.
3. It scores every guess in the pool by the histogram of codes the guess induces over the candidates, or over a random sample of 400 when there are more than 1500. It keeps the first guess with strictly the highest score. On the first turn it plays `slate` instead, when the dictionary holds it.
4. It records the guess with its code against the solution.

The game stops when the code is 242.

The project has four modules:
- `Codec` (`codec.dfy`)
  - It states the marking rule declaratively (`Marks`) and defines the base-3 packing (`Pack`) and its inverse (`Render`).
  - It proves that the imperative two-pass encoder `EncodeQuery` computes that rule. `EncodeQuery` works on small `res`/`used` arrays, as the original does.
  - It proves that the result-string encoder `EncodeString` packs with the original's 16-bit wrap-around.
  - It proves the green rule, the duplicate-letter count rule, the leftmost-first rule and the round trip between the two encoders.
- `Candidates` (`candidates.dfy`)
  - It defines the history of turns and the filter as a function (`Filter`).
  - It proves that the filter's output is an order-preserving subsequence of the pool, that membership holds exactly for the consistent words, that the filter is idempotent, composes and is monotone in the history, and never drops the true solution.
- `Selection` (`selection.dfy`)
  - It defines the evaluation set, the per-guess histogram, the first-strict-maximum choice and the guess-pool policy.
  - It proves that every histogram sums to the size of the evaluation set.
- `Engine` (`engine.dfy`)
  - It holds the class `Context`, with the dictionary, the word-to-index map and the flat table `fb`.
  - It has imperative methods for the table fill, the table read, the filter, the histogram count, the guess selector and the game loop. Each method is proved against the functions above.

Three behaviours of the solver worth knowing:
- The result-string encoder does not reject malformed strings. It reads the first five characters, whatever they are, and adds digit*3^i into a 16-bit accumulator. The sum therefore wraps around only when it leaves [0, 2^16). In the solver that happens when a character below '0', or a non-ASCII byte (a negative signed char), makes the sum negative. In this model, where characters are code points, a character far above '2' can also push the sum past 2^16. A lower-case letter such as `a` in `a0000` just adds 49, with no wrap. The interactive caller checks only the length of the string.
- The selector returns -1 for an empty guess pool rather than failing.
- An empty candidate set is not reported as an error. In the game loop it cannot happen: `NextGuess` states that the hidden solution is among the round's candidates, and `Candidates.SolutionSurvives` states it for every prefix of a truthful history.

## Model

| member | source | states |
|---|---|---|
| Codec.Pack | Wordle_bot_entropy.cpp:12-19 | the base-3 value of a string: the sum of digit(s[i])*3^i, position 0 least significant, shared by both encoders (the packing loop at lines 37-38 is the same sum); its range and inverse are the lemmas below |
| Codec.Marks | Wordle_bot_entropy.cpp:21-36 | the feedback has one digit '0'..'2' per position, and position i is '2' exactly when guess and solution agree there |
| Codec.EncodeQuery | Wordle_bot_entropy.cpp:21-40 | the green pass, yellow pass and packing compute the code of the declarative marking `Marks`, and the code is below 243 |
| Codec.MarkYellows | Wordle_bot_entropy.cpp:31-36 | starting from the green pass's `res` and `used` arrays, the yellow pass leaves `res` equal to the declarative marking |
| Codec.YellowFound | Wordle_bot_entropy.cpp:33-34 | when a non-green position finds an unused solution position with its letter, the mark is '1', and consuming that position keeps the count of spare letters exact |
| Codec.YellowNotFound | Wordle_bot_entropy.cpp:33-35 | when no unused solution position holds the letter of a non-green position, the mark is '0' and the spare-letter count is unchanged |
| Codec.PackResult | Wordle_bot_entropy.cpp:37-38 | packing the marks array in the 16-bit accumulator yields their base-3 value below 243, with no wrap-around |
| Codec.PackStep | Wordle_bot_entropy.cpp:38 | each step of the packing loop adds digit*3^i and stays below 3^(i+1) <= 243, well inside 16 bits |
| Codec.EncodeString | Wordle_bot_entropy.cpp:12-19 | the code is the base-3 value of the first five characters modulo 2^16; for a digit string it is that value exactly and below 243 |
| Codec.PackFront | Wordle_bot_entropy.cpp:15 | position 0 is the least significant base-3 digit |
| Codec.PackRange | Wordle_bot_entropy.cpp:12-19 | a digit string of length m packs into [0, 3^m) |
| Codec.PackRender | Wordle_bot_entropy.cpp:37-38 | rendering any code below 3^m as m digits and packing the digits gives the code back |
| Codec.RenderPack | Wordle_bot_entropy.cpp:12-19 | packing a digit string and rendering the code gives the string back |
| Codec.CodeRoundTrip | Wordle_bot_entropy.cpp:37-38 | every feedback code is below 243; rendering it gives the feedback; re-encoding the rendered string with the 16-bit string encoder gives the same code |
| Codec.SolvedString | Wordle_bot_entropy.cpp:168 | "22222" packs to 242 |
| Codec.SelfIsSolved | Wordle_bot_entropy.cpp:27-29 | any word guessed against itself is all green, code 242 |
| Codec.YellowsAreCapped | Wordle_bot_entropy.cpp:31-36 | the '1's given to a letter so far number the non-green occurrences so far, capped at the spare copies of that letter in the solution |
| Codec.CountRule | Wordle_bot_entropy.cpp:31-36 | for every letter, the guess positions with that letter marked '1' or '2' number min(count in guess, count in solution) |
| Codec.YellowNeedsLetter | Wordle_bot_entropy.cpp:34 | a '1' is given only at a non-green position whose letter sits at some non-green solution position |
| Codec.LeftmostFirst | Wordle_bot_entropy.cpp:31-36 | among non-green copies of one letter, a later copy gets '1' only if every earlier one does |
| Codec.AbsentMeansExhausted | Wordle_bot_entropy.cpp:33-35 | a non-green position is marked '0' exactly when the earlier copies of its letter already took every spare copy of it in the solution |
| Candidates.Consistent | Wordle_bot_entropy.cpp:90-93 | a word agrees with a history when every recorded guess gives it the recorded code |
| Candidates.Filter | Wordle_bot_entropy.cpp:86-97 | the result is no longer than the pool, and holds only pool members consistent with every recorded turn |
| Candidates.FilterMembers | Wordle_bot_entropy.cpp:89-94 | a word is kept if and only if it is in the pool and every recorded guess gives it the recorded code |
| Candidates.FilterSnoc | Wordle_bot_entropy.cpp:89-94 | one more pool element is appended to the output exactly when it is consistent |
| Candidates.FilterIsSubseq | Wordle_bot_entropy.cpp:86-97 | the output is an order-preserving subsequence of the pool |
| Candidates.FilterNoHistory | Wordle_bot_entropy.cpp:86-97 | with an empty history the pool is returned unchanged |
| Candidates.FilterIdempotent | Wordle_bot_entropy.cpp:86-97 | filtering the output again with the same history changes nothing |
| Candidates.ConsistentAppend | Wordle_bot_entropy.cpp:91-93 | agreeing with a concatenated history is agreeing with both parts |
| Candidates.FilterCompose | Wordle_bot_entropy.cpp:86-97 | filtering with `past + more` equals filtering the `past` result with `more` |
| Candidates.FilterMonotone | Wordle_bot_entropy.cpp:86-97 | extending the history yields a subsequence of the earlier result: the candidates only shrink |
| Candidates.FilterSameTest | Wordle_bot_entropy.cpp:91-93 | two histories that accept the same words give the same output |
| Candidates.FilterOrderFree | Wordle_bot_entropy.cpp:91-93 | histories with the same set of turns give the same candidates, whatever the order |
| Candidates.KeepsSolution | Wordle_bot_entropy.cpp:191-192 | when every recorded code is the true code against the solution, the solution survives the filter |
| Candidates.SolutionSurvives | Wordle_bot_entropy.cpp:170-194 | in every round of a game with a truthful history, the solution is among the candidates |
| Selection.EvaluationSet | Wordle_bot_entropy.cpp:128-137 | the words a guess is scored against: the candidates when there are at most `threshold` of them, otherwise the first `samples` elements of their shuffle (all of it when shorter) |
| Selection.EvaluationSetShape | Wordle_bot_entropy.cpp:128-137 | at most `threshold` candidates are evaluated exactly; above that, a sub-multiset of min(samples, candidates) of them is evaluated |
| Selection.EvaluationSetIndices | Wordle_bot_entropy.cpp:128-137 | the evaluation set names dictionary words only |
| Selection.Occurrences | Wordle_bot_entropy.cpp:147-149 | how many evaluated words the guess answers with code c; at most the evaluation-set size, and zero for any c outside [0, 243) |
| Selection.Histogram | Wordle_bot_entropy.cpp:143-150 | the 243 counts of codes the guess induces over the evaluation set, each at most the evaluation-set size |
| Selection.HistogramSnoc | Wordle_bot_entropy.cpp:147-150 | one more evaluated word raises exactly the bucket of its code, which lies in [0, 243) |
| Selection.HistogramTotal | Wordle_bot_entropy.cpp:143-150 | for every guess there are 243 buckets, and they sum to the size of the evaluation set |
| Selection.FirstBestUnique | Wordle_bot_entropy.cpp:152-156 | the first strictly best guess is unique, so the choice is determined by the scores |
| Selection.GuessPool | Wordle_bot_entropy.cpp:172-173 | the guesses considered in a round: the whole pool when 4 <= candidates < 50, the candidates otherwise |
| Selection.GuessPoolCovers | Wordle_bot_entropy.cpp:172-173 | every candidate is in the guess pool, the pool is non-empty when candidates exist, and it is the whole dictionary exactly when 4 <= candidates < 50 (or the candidates are the whole dictionary) |
| Engine.Offset | Wordle_bot_entropy.cpp:62 | cell (i, j) sits at i*N+j, inside the N*N table, and distinct cells get distinct offsets |
| Engine.AllIndices | Wordle_bot_entropy.cpp:165-166 | the game's pool: every dictionary index 0..N-1, in order |
| Engine.SelectorPickInPool | Wordle_bot_entropy.cpp:183-186 | the selector's choice in a round lies in that round's guess pool |
| Engine.SelectorPicksInPools | Wordle_bot_entropy.cpp:171-186 | a history whose every guess after the opening is the selector's choice has every such guess drawn from its round's guess pool |
| Engine.FromSelectorSnoc | Wordle_bot_entropy.cpp:183-192 | recording the current round's selector choice keeps every recorded guess the selector's choice of its round |
| Engine.Context.constructor | Wordle_bot_entropy.cpp:322-324 | the index maps exactly the dictionary words to an index holding that word, and for a repeated word to its last occurrence |
| Engine.Context.Precompute | Wordle_bot_entropy.cpp:65-83 | the fresh table has N*N cells, and cell i*N+j holds the feedback code of word i guessed against word j |
| Engine.Context.FillRow | Wordle_bot_entropy.cpp:73-78 | row i is filled with the codes of word i against every word, and every other row is unchanged |
| Engine.Context.FB | Wordle_bot_entropy.cpp:62 | the table read is the feedback code of the two words, below 243 |
| Engine.Context.FilterCandidates | Wordle_bot_entropy.cpp:86-97 | the loop with `push_back` computes `Filter` |
| Engine.Context.Agrees | Wordle_bot_entropy.cpp:90-93 | the early-exit check is true exactly when the word agrees with every recorded turn |
| Engine.Context.CountPatterns | Wordle_bot_entropy.cpp:143-150 | the 243 counters hold, for each code, how many evaluated words the guess answers with that code |
| Engine.Context.ChooseBestGuess | Wordle_bot_entropy.cpp:118-160 | it returns -1 exactly when the guess pool is empty; otherwise it returns the pool member at the first strictly best score over the evaluation set |
| Engine.Context.NextGuess | Wordle_bot_entropy.cpp:171-187 | the guess is a dictionary index and the hidden solution is among the round's candidates; on turn 0 the guess is the index of "slate" when present, and otherwise it is the selector's first strictly best member of the round's guess pool, scored over the round's evaluation set |
| Engine.Context.PlayTurn | Wordle_bot_entropy.cpp:171-192 | one round records a guess with its true code against the solution; the opening is "slate" when present, and every other guess is the selector's choice of its round |
| Engine.Context.PlayWordle | Wordle_bot_entropy.cpp:163-197 | the turn count equals the history length; every recorded code is the true code against the solution; the game ends exactly at the first code 242; the first guess is "slate" when present; every other guess is the selector's first-best choice of its round and so lies in its round's guess pool |

## Left out

- `load_words` and `main`'s menu: file input, lower-casing and the five-letter filter. The dictionary is a parameter. Every word has five characters, which is what the loader guarantees.
- `interactive_solver`: console prompts and input. It calls the same encoder, filter, pool policy and selector that are modelled here.
- `test_all_solutions`: threads, the atomic counter, the mutex-guarded totals, wall-clock timing and printing.
- Threads in `precompute_feedback_table`: the table is filled sequentially, row by row. The contents do not depend on which thread fills which row.
- `compute_entropy_from_counts`: floating point and `log2`. The score is any function from the histogram to a non-negative real, which entropy is. The comparison is on reals, not doubles.
- The Monte Carlo sample: `random_device`, `mt19937` and `shuffle` are replaced by a caller-supplied permutation of the candidates. The game takes a shuffle function that must return a permutation.
- `draw_uniform_int`: not used by the solver.
- Engine.Context.PlayWordle: `maxTurns` bounds the loop, because termination of the original's `while (true)` depends on the scores and is not proved. It returns whether the game was solved within the bound.
- Characters are Unicode code points, not the original's signed bytes. This matters only for non-ASCII input to the result-string encoder.
- Integer widths: indices and counters are unbounded integers. Table offsets are below N*N, and each counter is at most the evaluation-set size. Only the 16-bit feedback accumulator wraps, and it is modelled explicitly.
