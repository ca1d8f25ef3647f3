# Character-level language model (frequency lists and training)

This project models the core of a character-level language model, with
proofs about the model. The model is a map from *windows* (strings of
`windowLength` characters) to *frequency lists*. A frequency list is a
linked list of `CharData` records. Each record holds a character, the
number of times it was seen after the window, its probability `p` and its
cumulative probability `cp`.

- **Training** slides a window over a corpus. For every character it
  counts that character in the list of the window before it. Then it turns
  each list's counts into probabilities and running sums of probabilities.
- **Sampling** picks the first record whose `cp` exceeds a draw in [0, 1).

The project has four modules, one per file:

- `frequency_list.dfy`, module `FrequencyList`, models `List.java`.
  - `CharData` is a value type.
  - The `List` class keeps the chain of nodes as a sequence of records,
    the field `records`, beside the element counter `size`.
  - `IndexOf`, `Update` and `Remove` are proved against the functions
    `FirstIndex`, `Updated` and `Removed`, which work on sequences. The
    contracts of `GetSize`, `GetFirst`, `AddFirst`, `Get` and `ToArray` give
    their result or the new records directly.
  - Errors the source raises become values of `Result`: the out-of-bounds
    exception of `get` and the null dereference of `getFirst` on an empty
    list.
- `distribution.dfy`, module `Distribution`, covers the probability pass
  and the sampler.
  - `Finalize` is what `calculateProbabilities` computes.
  - `Sample` is what `getRandomChar` returns.
  - Lemmas prove that each `p` is count over total and that the `cp` are the
    inclusive running sums. The `cp` never decrease, lie in (0, 1] and end
    at 1. A draw below 1 always hits a record.
- `training.dfy`, module `Training`, states `train` on values.
  - `Trained` is the counting loop, written as a left fold over corpus
    positions.
  - `TrainResult` is the whole of `train`.
  - Lemmas prove that every table is non-empty, that its characters are
    distinct and that every key has the window length.
  - Count conservation is proved: the count of `c` in the table of `window`
    is the number of positions where `window` is followed by `c`. All counts
    together total `|corpus| - windowLength`.
- `language_model.dfy`, module `Model`, is the `LanguageModel` class.
  - The class holds the map `charDataMap` from windows to `List` objects,
    which share no list object.
  - A ghost map `tables` gives the value of every list. The ghost set
    `Repr` holds the owned list objects.
  - `Train` is built from the source's three loops: `FirstWindow`, then
    `CountWindows` (one `Advance` per character), then `FinalizeTables`. It
    is proved to leave `tables == TrainResult(old(tables), corpus, w)`.

Two edge cases follow the code as written:

- The sampler returns `' '` when no `cp` exceeds the draw
  (LanguageModel.java:98), rather than falling back to the last record. The
  source's comment there says the return is never reached.
  `Distribution.SampleFinalized` proves this for exact reals: on a finalized
  non-empty list, every draw below 1 is below some `cp`. With the source's
  `double` arithmetic the return can be reached (see "Left out").
- Finalizing an empty list divides by nothing. The loop that divides
  (LanguageModel.java:81-87) does not run, so the list stays empty, and
  `CalculateProbabilities` accepts the empty list in the same way.

The one departure in control flow is `update`. The model follows its doc
comment instead of the call to `add`, which closes the list into a cycle
(see "Left out").

## Model

| member | source | states |
|---|---|---|
| FrequencyList.FirstIndex | List.java:63-75 | the index of the first record of `chr` lies in [-1, size) |
| FrequencyList.FirstIndexSpec | List.java:63-75 | the index is -1 exactly when no record has `chr`; otherwise the record there has `chr` and no earlier one does |
| FrequencyList.Updated | List.java:77-88 | the records after `update(chr)`, defined from the first match; its meaning is stated by UpdatedPresent, UpdatedAbsent and UpdatedInvariants |
| FrequencyList.Removed | List.java:94-109 | the records after `remove(chr)`, defined from the first match; its meaning is stated by RemovedAbsent and RemovedPresent |
| FrequencyList.Total | LanguageModel.java:73-78 | the sum of all counts, `numOfLetters`; CountLetters is proved to compute it, and TotalUpdated and TotalAtLeastSize state its properties |
| FrequencyList.UpdatedPresent | List.java:80-88 | updating a present character increases that record's count by exactly 1; size, order and every other record are unchanged |
| FrequencyList.UpdatedAbsent | List.java:77-79 | updating an absent character adds one record at index 0 for `chr` with count 1, and the old records follow it, shifted by one and unchanged |
| FrequencyList.UpdatedInvariants | List.java:77-88 | update keeps every count at least 1 and the characters distinct; the result is non-empty and holds exactly the old characters plus `chr` |
| FrequencyList.CountInUpdated | List.java:80-88 | update adds one to the recorded count of `chr` and changes no other character's count |
| FrequencyList.TotalUpdated | List.java:80-88 | update adds exactly one to the sum of all counts |
| FrequencyList.UpdateAllShape | List.java:77-88 | after any sequence of updates from a list of distinct observed characters, the characters are still distinct, and they are the old ones plus those updated |
| FrequencyList.UpdateAllCounts | List.java:77-88 | after any sequence of updates, each character's count is its old count plus the number of times it was updated |
| FrequencyList.CountInUnique | List.java:80-88 | in a list of distinct characters, the count recorded for a record's character is that record's count |
| FrequencyList.CountInAbsent | List.java:80-83 | a character without a record has count 0 |
| FrequencyList.TotalAtLeastSize | LanguageModel.java:73-78 | when every record was observed at least once, the total count is at least the number of records |
| FrequencyList.RemovedAbsent | List.java:94-96 | removing an absent character leaves the records unchanged |
| FrequencyList.RemovedPresent | List.java:94-109 | removing a character whose first record is at `i` deletes exactly that record: the records before keep their positions, those after move up one, and the multiset loses only that record; with distinct characters the character is then gone and the rest stay distinct |
| FrequencyList.List.constructor | List.java:15-18 | a new list has no records and size 0 |
| FrequencyList.List.GetSize | List.java:21-23 | returns the number of records |
| FrequencyList.List.GetFirst | List.java:26-28 | returns the first record, or the null-dereference error on an empty list |
| FrequencyList.List.AddFirst | List.java:31-35 | puts a fresh record for `chr` before the old records and keeps size equal to the record count |
| FrequencyList.List.IndexOf | List.java:66-75 | returns the position of the first record of `chr`, or -1 exactly when there is none |
| FrequencyList.List.Get | List.java:114-124 | fails with out-of-bounds exactly when the index is negative or not below size; otherwise returns the record at that index |
| FrequencyList.List.Update | List.java:80-89 | the new records are `Updated(old records, chr)`; size stays equal to the record count and distinct characters stay distinct |
| FrequencyList.List.Remove | List.java:94-109 | returns true exactly when a record of `chr` was present, and the new records are `Removed(old records, chr)` |
| FrequencyList.List.ToArray | List.java:127-136 | returns a fresh array whose i-th entry is the i-th record, so its length is size |
| Distribution.Finalize | LanguageModel.java:79-87 | the probability pass keeps the length, and every record's character and count |
| Distribution.Sample | LanguageModel.java:91-98 | the draw selects the character of the first record whose `cp` exceeds it; it selects `' '` when there is none |
| Distribution.Prob | LanguageModel.java:83 | a record's probability, its count over the list's total; FinalizedShares states that the `p` values are these and sum to 1 |
| Distribution.ProbSum | LanguageModel.java:84-85 | the running sum of the first `k` probabilities, `comCP` after `k` records; ProbSumShare states that it is the prefix total over the whole total |
| Distribution.TotalSameCounts | LanguageModel.java:73-78 | two lists with the same counts in the same order have the same total |
| Distribution.CountInSameCounts | LanguageModel.java:79-87 | two lists with the same characters and counts record the same count for every character |
| Distribution.FinalizeInvariants | LanguageModel.java:79-87 | the probability pass keeps counts positive, characters distinct, the total, and the count of every character |
| Distribution.TotalPrefix | LanguageModel.java:73-78 | the total of a prefix never exceeds the total of a longer prefix or of the whole list |
| Distribution.ProbSumShare | LanguageModel.java:80-85 | the running sum of the first `k` probabilities is the total of the first `k` counts over the whole total |
| Distribution.FinalizedShares | LanguageModel.java:83 | each `p` is the record's count over the list's total, and the `p` values sum to 1 |
| Distribution.SumPIsProbSum | LanguageModel.java:82-85 | the sum of the first `k` finalized `p` values is the running probability sum after `k` records |
| Distribution.FinalizedRunningSum | LanguageModel.java:84-85 | each `cp` is the inclusive running sum of the `p` values in list order |
| Distribution.CumulativeShare | LanguageModel.java:84-85 | each `cp` is the total of the counts up to and including the record, over the whole total, and lies in (0, 1] |
| Distribution.FinalizedCumulative | LanguageModel.java:79-87 | after the probability pass the `cp` never decrease, lie in (0, 1], and the last one is exactly 1 |
| Distribution.CumulativeMonotone | LanguageModel.java:84-85 | a later record never has a smaller `cp` |
| Distribution.FirstCover | LanguageModel.java:94-96 | if a draw is below some record's `cp`, there is a first record whose `cp` exceeds the draw |
| Distribution.SampleFinalized | LanguageModel.java:94-98 | on a finalized non-empty list, every draw below 1 is below some `cp`, so with exact reals the `' '` fallback is unreachable (rounding is left out) |
| Distribution.SampleZero | LanguageModel.java:91-98 | on a finalized non-empty list, the draw 0 returns the first record's character |
| Distribution.SampleLast | LanguageModel.java:91-98 | a draw of at least the next-to-last `cp` and below 1 returns the last record's character, and the next-to-last `cp` is below 1, so such draws exist |
| Training.SlideWindow | LanguageModel.java:56-57 | appending the read character and dropping the first gives the window ending one position further on |
| Training.StepWellFormed | LanguageModel.java:48-53 | recording a character in the table of a window of length `w` keeps every key of length `w` and every table non-empty, observed and free of duplicate characters |
| Training.TrainedWellFormed | LanguageModel.java:46-58 | the counting loop keeps every key of the window length and every table non-empty, with distinct observed characters |
| Training.FinalizeAllWellFormed | LanguageModel.java:63-66 | the final loop keeps the keys, the well-formedness of every table, and every count and total |
| Training.TrainedKeys | LanguageModel.java:48-52 | a window has a table after the loop exactly when it had one before or occurs with a character after it |
| Training.OccurrenceCountPositive | LanguageModel.java:46-58 | a window's occurrence count is positive exactly when the window occurs at some position with a character after it |
| Training.OccurrenceCountPositions | LanguageModel.java:46-58 | the recursive occurrence count equals the number of positions where the window occurs with a character after it |
| Training.FollowerCountPositions | LanguageModel.java:46-58 | the recursive follower count equals the number of positions where the window is followed by `c` |
| Training.CountOfStep | LanguageModel.java:48-53 | one step adds one to the count of the read character in the current window's table and changes no other count |
| Training.TableTotalStep | LanguageModel.java:48-53 | one step adds one to the total of the current window's table and changes no other table's total |
| Training.TrainedCounts | LanguageModel.java:46-58 | after the loop, the count of `c` in the table of a window is its earlier count plus the number of remaining positions where the window is followed by `c` |
| Training.TrainedTotals | LanguageModel.java:46-58 | after the loop, the total of a window's table is its earlier total plus the number of remaining occurrences of the window |
| Training.MapTotalRemove | LanguageModel.java:63-66 | the sum of all tables' totals is one table's total plus the sum over the other tables |
| Training.MapTotalUpdate | LanguageModel.java:48-53 | replacing one table changes the sum of all totals by the difference of that table's totals |
| Training.TrainedMapTotal | LanguageModel.java:46-58 | the loop adds one count per remaining character to the sum over all tables |
| Training.FinalizeAllMapTotal | LanguageModel.java:63-66 | the final loop keeps the sum of all totals |
| Training.FinalizeAllRemove | LanguageModel.java:63-66 | finalizing all tables and then dropping one key is finalizing the map without that key |
| Training.FinalizedButStep | LanguageModel.java:63-66 | finalizing one pending table moves the final loop on by that key |
| Training.FinalizedButDone | LanguageModel.java:63-66 | when no key is pending, every table is finalized |
| Training.CountConservation | LanguageModel.java:35-68 | after training from an empty map, the count of `c` in the table of `window` is the number of positions where `window` is followed by `c` |
| Training.WindowConservation | LanguageModel.java:35-68 | after training from an empty map, the total of a window's table is the number of positions where the window occurs with a character after it |
| Training.TotalConservation | LanguageModel.java:35-68 | a corpus shorter than the window leaves the map empty; otherwise all counts together total `|corpus| - windowLength` |
| Training.TrainResultShape | LanguageModel.java:35-68 | after training from an empty map, every table is well formed; the keys are exactly the windows that occur with a character after them, and each table is the finalized count table |
| Training.Step | LanguageModel.java:48-53 | one iteration of the counting loop on values: the window's table, created empty when missing, updated with `c`; CountOfStep, TableTotalStep and StepWellFormed state its effect |
| Training.Trained | LanguageModel.java:46-58 | the map the counting loop ends with from position `pos`; TrainedCounts, TrainedTotals, TrainedKeys and TrainedWellFormed state what it holds |
| Training.Proceed | LanguageModel.java:46-58 | the counting loop at a position where a character remains: one Step, then on from the next position |
| Training.FinalizeAll | LanguageModel.java:63-66 | the final loop on values: every table replaced by its finalized form; FinalizeAllWellFormed and FinalizeAllMapTotal state its properties |
| Training.TrainResult | LanguageModel.java:35-68 | the whole of `train` on values; Train is proved to compute it, and CountConservation, WindowConservation, TotalConservation and TrainResultShape state what it holds |
| Model.LanguageModel.constructor | LanguageModel.java:28-32 | a new model has the given window length, an empty map and owns no list yet |
| Model.LanguageModel.CountLetters | LanguageModel.java:73-78 | the first loop computes the total count of the list |
| Model.LanguageModel.CalculateProbabilities | LanguageModel.java:72-88 | the records become `Finalize` of the old records; the list stays valid and keeps distinct characters distinct |
| Model.LanguageModel.GetRandomChar | LanguageModel.java:91-99 | returns `Sample(records, rand)`: the character of the first record whose `cp` exceeds the draw |
| Model.LanguageModel.TableFor | LanguageModel.java:48-52 | returns the window's existing list, or a fresh empty list registered under the window; nothing else in the map changes |
| Model.LanguageModel.RecordNext | LanguageModel.java:47-53 | the tables become `Step(old tables, window, c)`, and the lists stay separate and consistent with the tables |
| Model.LanguageModel.FinalizeTable | LanguageModel.java:64-65 | only the table of `key` changes, and it becomes its finalized form |
| Model.LanguageModel.FinalizeTables | LanguageModel.java:63-66 | every table becomes its finalized form, and the map's keys and lists are unchanged |
| Model.LanguageModel.FirstWindow | LanguageModel.java:41-44 | succeeds exactly when the corpus has at least the window length of characters, and then returns its first window |
| Model.LanguageModel.Advance | LanguageModel.java:47-57 | one iteration records the current character in the table of the current window (`Step`) and returns the window ending one position on; the map the loop ends with is unchanged |
| Model.LanguageModel.CountWindows | LanguageModel.java:46-58 | the tables become `Trained(old tables, corpus, w, w)`, the counting loop over every character after the first window |
| Model.LanguageModel.Train | LanguageModel.java:35-68 | the tables become `TrainResult(old tables, corpus, w)` and stay well formed; a corpus shorter than the window leaves the map untouched; every list added to the model is new, so a caller's own objects stay outside it |
| Model.NewTrainedModel | LanguageModel.java:28-68 | constructing a model and training it yields a new model whose lists are all new objects, whose tables are `TrainResult` of the empty map, and each of whose tables has `p` values summing to 1 |

## Left out

- `List.add` (List.java:36-47) is not modelled. It sets the new node's `next` to `first` and appends the node after the last one, so the list becomes a cycle. On an empty list it also goes on after `addFirst`. The first new character in a table then leaves a two-node cycle with two records for that character and `size` 2. The next absent character makes `indexOf` (List.java:69-73) circle that cycle forever. Even a table that sees only one character stays a cycle, so the first loop of `calculateProbabilities` (LanguageModel.java:75-78, `while (pointer != null)`) never ends on it either. Since `train` finalizes every table (LanguageModel.java:63-66), the source's `train` does not return on any corpus longer than the window; the model describes what `train` evidently was meant to do. `FrequencyList.List.Update` follows the doc comment of `update` instead and puts the new record at the front, as `addFirst` does.
- `toString` of both classes is not modelled. It is formatting only and depends on the unseen `CharData.toString` and on the hash map's iteration order.
- `listIterator` is not modelled, and the `ListIterator` class is not part of this model.
- `generate` is not modelled. It is an unimplemented stub that returns `"0"`.
- `main` is not modelled, because all of its tests are commented out.
- Reading the corpus file through `In` is not modelled. The corpus is a `string` parameter of `Train`. The source tests for more input with `in.hasNextChar()` while forming the first window (LanguageModel.java:42) and with `in.isEmpty()` in the counting loop (LanguageModel.java:46). The model reads both as "a character remains". `In` is not part of this model, so any difference between the two calls, for instance on trailing whitespace, is not captured.
- Java's `char` is a UTF-16 code unit, but Dafny's `char` has no surrogate values. So the model cannot represent a corpus holding a character outside the Basic Multilingual Plane. The source would read such a character as two halves, count each one, and give them window positions of their own. CharData, windows and the corpus are over Dafny `char`.
- The random generator, the seed and `Math.random()` are not modelled. The draw is a parameter of `GetRandomChar`, and the constructor takes only the window length.
- Floating-point rounding of `p` and `cp` is not modelled. They are exact reals, so "the last `cp` is 1" holds exactly. In the source's `double` arithmetic the running sum can end below 1. For example, with six or ten records of count 1 the computed sum ends at 1 − 2⁻⁵³, which `Math.random()` can return. For that draw no `cp` exceeds it, and the source's `getRandomChar` returns `' '`. `Distribution.SampleFinalized` does not cover that case.
- 32-bit overflow of `size`, `count` and `numOfLetters` is not modelled. Counts are unbounded integers.
- The linked nodes and the aliasing of `CharData` objects are not modelled. A list is the sequence of its records, and `Get` returns the record's value, not a shared object. `Update` writes the new count back into the list, which has the same effect as the source's in-place `chrD.count++`.
- `CharData.java` is not part of this model. A fresh record is taken to have count 1 and `p = cp = 0`. `CharData.equals(char)` is taken to compare the character.
- The hash map's iteration order in the final loop of `train` is not modelled. `FinalizeTables` picks the keys in any order, and the result does not depend on the order.
- Model.LanguageModel.Train: a negative `windowLength` is treated as a window length of 0 (`Width`). With a negative length the source's first loop does not run, and the window stays empty.
