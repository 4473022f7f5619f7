# LM-REC: sequence examples from MovieLens-100k and their relevance vectors

This project models the two computational pieces of LM-REC in Dafny.

**The sequence-example builder** (`ML100kSeq._generate_examples`) works in five steps:

1. It reads the tab-separated lines of `u.data` into a four-column table of strings.
2. It takes the distinct item ids, in first-seen order, as the item universe.
3. It walks the distinct users, in first-seen order. For each user it sorts that user's rows by the timestamp column, compared as strings.
4. It draws ten negative candidates with `random.sample` from the items the user never rated. The one module-level generator advances across all users.
5. It yields `(uid, record)`. The record's `seq`/`target` window depends on the split:
   - train: `hist[-10:-2]`, with no target;
   - validation: `hist[-10:-2]`, with target `hist[-2]`;
   - test: `hist[-10:-1]`, with target `hist[-1]`.

**The evaluation script** (`main.py`) does three things:

- It builds the id-to-title dictionary.
- It turns a record into its `input` text (the prompt followed by the window's titles joined by `"; "`) and its `answer` (the target's title).
- For each of the first twenty records, it shuffles `candidates + [target]` in place. It then adds the 0/1 vector marking where the target landed to the NDCG accumulator.

Modules:

- `Wrappers`: `Option` and `Result`.
- `PyStr`: `str.strip`, `str.split` with a one-character separator, `str.join`, and string `<=`.
- `PyList`: Python slices and indices with negative bounds, pandas' `unique()`, and the membership filter.
- `PyRandom`: the random stream, `random.sample` and `random.shuffle`.
  - The Mersenne Twister itself is a parameter. A seeded stream is a function `draw` from draw numbers to raw values, plus the class `RandomStream` holding the position.
  - `randbelow(n)` is `draw(pos) % n`.
  - `sample` is CPython's pool algorithm: pick, then move the last element into the hole. In that branch each pick takes one draw.
  - `shuffle` is CPython's Fisher-Yates from the last index down to 1. It takes `n - 1` draws.
- `Ratings`: the parse loop over an array of lines (in place), the table construction, and each user's rows sorted by timestamp.
- `SeqBuilder`: `_generate_examples`. The function that defines it is `Generate`, with `Build` on a parsed table and `Walk` over the users. The methods that run it are `GenerateExamples`, `WalkUsers` and `UserRecord`.
- `Evaluation`: the dictionary, `preprocess_function` as a method on a mutable row (`ProcessedRow`), the ranking list, the relevance vector, the accumulator class, and the twenty-iteration loop.

The generator either yields every record or stops at the first failing user. Its outcome is therefore a `Generated` value with three parts: the records yielded so far, the error that stopped it (if any), and the stream position.

Behaviour of the code worth noting:

- Timestamps and ratings stay strings. The sort is lexicographic.
- A pool of fewer than ten unrated items raises `random.sample`'s `ValueError`, here `PoolExhausted`. That error ends the whole generator; no user is skipped.
- A validation history shorter than 2 (or an empty test history) raises `IndexError`, here `IndexOutOfRange`.
- The train/validation window has `max(n-2,0) - max(n-10,0)` items. So for `2 <= n < 10` it has `n - 2` items.
- Every user takes a draw in every split, including train.

## Model

| member | source | states |
|---|---|---|
| PyStr.StripSpec | datasets/ml100k_seq.py:178 | `strip()` returns the slice of the line between its leading and trailing whitespace. Everything cut off is whitespace. The result starts and ends with a non-space character. |
| PyStr.Split | datasets/ml100k_seq.py:178 | `split('\t')` gives at least one piece, and no piece contains a tab. |
| PyStr.JoinSplit | datasets/ml100k_seq.py:178 | Joining the pieces of a split with the separator gives back the string. |
| PyStr.SplitJoin | datasets/ml100k_seq.py:178 | Splitting a join of tab-free parts gives back the parts. |
| PyStr.JoinAppend | main.py:24 | Joining two non-empty part lists puts the separator once between their joins. |
| PyStr.LexLeTotal | datasets/ml100k_seq.py:182 | String `<=` on timestamps is total. |
| PyStr.LexLeTransitive | datasets/ml100k_seq.py:182 | String `<=` on timestamps is transitive. |
| PyStr.LexLeAntisymmetric | datasets/ml100k_seq.py:182 | String `<=` on timestamps is antisymmetric. |
| PyList.Clamp | datasets/ml100k_seq.py:191 | Python's normalisation of a slice bound: negative bounds count from the end, and every bound is clamped to the length. |
| PyList.NegativeSlice | datasets/ml100k_seq.py:191 | `s[-a:-b]` is `s[max(n-a,0) .. max(n-b,0)]`. Its length is `a - b` once `n >= a`. |
| PyList.Index | datasets/ml100k_seq.py:199 | `s[i]` is defined exactly for `-n <= i < n`. A negative index counts from the end. |
| PyList.FirstIndex | main.py:47 | The position of the first occurrence: it holds `x`, and no earlier entry does. |
| PyList.Unique | datasets/ml100k_seq.py:180-181 | `unique()` has no repeats and holds exactly the values of its input. |
| PyList.UniqueFirstSeen | datasets/ml100k_seq.py:181 | `unique()` lists values in the order they first occur. |
| PyList.Without | datasets/ml100k_seq.py:185 | The filter keeps exactly the universe's items that the history lacks, with no repeats when the universe has none. |
| PyRandom.Below | datasets/ml100k_seq.py:185 | `randbelow(n)` lies below `n`. |
| PyRandom.RemoveTakesOne | datasets/ml100k_seq.py:185 | One pick of `sample` removes exactly the picked value from the live pool. |
| PyRandom.Pick | datasets/ml100k_seq.py:185 | `k` picks give `k` values. |
| PyRandom.PickFromPool | datasets/ml100k_seq.py:185 | The picks are a sub-multiset of the pool. |
| PyRandom.DrawnSpec | datasets/ml100k_seq.py:185 | `random.sample(pool, 10)` fails exactly when the pool has fewer than ten items. Otherwise it gives ten values from the pool, pairwise distinct when the pool is. |
| PyRandom.SwapPermutes | main.py:43 | A swap of the shuffle keeps the multiset. |
| PyRandom.ShuffleFromPermutes | main.py:43 | The swaps from index `i` down keep the multiset. |
| PyRandom.ShufflePermutes | main.py:43 | `random.shuffle` only permutes: same length, same multiset, for every stream. |
| PyRandom.SwapElements | main.py:43 | The in-place swap leaves the array equal to the swapped sequence. |
| PyRandom.RandomStream.constructor | main.py:35 | A seeded stream starts at draw 0. |
| PyRandom.RandomStream.RandBelow | datasets/ml100k_seq.py:185 | One draw is taken, and its value is `randbelow(n)` on that draw. |
| PyRandom.RandomStream.Sample | datasets/ml100k_seq.py:185 | The result is `sample` (pool branch) on the stream. The stream moves on by `k` draws, or stays where it is when the sample is refused. |
| PyRandom.RandomStream.Shuffle | main.py:43 | The array ends as the Fisher-Yates shuffle of its old contents, and the stream moves on by `n - 1` draws. |
| Ratings.ParseLineSpec | datasets/ml100k_seq.py:178 | A parsed line has at least one column, no column holds a tab, and the columns joined by tabs are the stripped line. |
| Ratings.ParseLines | datasets/ml100k_seq.py:177-178 | Every entry of the line array is replaced, in place, by its columns. |
| Ratings.ToRows | datasets/ml100k_seq.py:179 | Building the frame succeeds exactly when every line has four columns, giving one row per line. Otherwise it names the first line of another width. |
| Ratings.Iids | datasets/ml100k_seq.py:180 | The `iid` column, row by row. |
| Ratings.Uids | datasets/ml100k_seq.py:181 | The `uid` column, row by row. |
| Ratings.UserRows | datasets/ml100k_seq.py:182 | `df.loc[df['uid'] == uid]` holds exactly the user's rows, each as often as in the table. |
| Ratings.Insert | datasets/ml100k_seq.py:182 | Inserting one row into the ordered list makes it one longer. |
| Ratings.InsertPermutes | datasets/ml100k_seq.py:182 | An insertion adds exactly the inserted row. |
| Ratings.InsertIids | datasets/ml100k_seq.py:183 | An insertion adds exactly the inserted row's item id to the id column. |
| Ratings.InsertSorted | datasets/ml100k_seq.py:182 | An insertion keeps the list ordered by timestamp. |
| Ratings.SortByTimestamp | datasets/ml100k_seq.py:182 | The sort keeps the length. |
| Ratings.SortSorted | datasets/ml100k_seq.py:182 | The sorted rows are ordered by timestamp. |
| Ratings.SortPermutes | datasets/ml100k_seq.py:182 | The sorted rows are a permutation of the input rows. |
| Ratings.SortIids | datasets/ml100k_seq.py:183 | The sorted rows' item ids are a permutation of the input rows' item ids. |
| Ratings.SortSpec | datasets/ml100k_seq.py:182 | `sort_values(by='timestamp')`: the rows come out ordered by timestamp string, as a permutation of the input. No particular order of ties is claimed. |
| Ratings.HistorySpec | datasets/ml100k_seq.py:182-183 | The user's history is the item column of a timestamp-ordered permutation of exactly that user's rows. It holds each item as often as the user rated it. |
| Ratings.UserHasRows | datasets/ml100k_seq.py:181-183 | Every user of the table has a non-empty history. |
| SeqBuilder.GenerateExamples | datasets/ml100k_seq.py:172-208 | The generator on the file's lines yields the records of `Generate` and stops with its error. The stream ends where `Generate` says. |
| SeqBuilder.WalkUsers | datasets/ml100k_seq.py:181-208 | The loop over users yields what `Walk` gives, and the stream ends where `Walk` leaves it. |
| SeqBuilder.WalkedStep | datasets/ml100k_seq.py:181-208 | One turn of the user loop either ends the walk on a failed step or extends the yielded records by the step's record. |
| SeqBuilder.WalkedEnd | datasets/ml100k_seq.py:181 | When the users are exhausted, the walk has yielded exactly the records so far, with no error. |
| SeqBuilder.UserRecord | datasets/ml100k_seq.py:182-208 | One user's turn: the result is that user's step. The stream moves on ten draws unless the sample was refused. |
| SeqBuilder.WalkShape | datasets/ml100k_seq.py:181-208 | The records are for a prefix of the users, in order. Record `i` is user `i`'s successful step with the stream ten draws on per earlier user. The walk stops at the first failed step and nowhere else, and the final stream position follows. |
| SeqBuilder.WalkAt | datasets/ml100k_seq.py:181-189 | Record `i` is keyed by user `i` and is that user's step from draw `pos + 10i`. |
| SeqBuilder.WalkStop | datasets/ml100k_seq.py:181-185 | The user at which the walk stops failed with the reported error from draw `pos + 10k`. |
| SeqBuilder.StepSpec | datasets/ml100k_seq.py:182-208 | A user's step is refused exactly when fewer than ten items are unrated. Otherwise it cuts the window with the drawn candidates: ten items from the universe, none in the history, pairwise distinct. |
| SeqBuilder.MakeExampleSpec | datasets/ml100k_seq.py:188-208 | The splits' windows and targets in plain indices. Validation fails exactly when `n < 2`, and test exactly when `n < 1`, with the index that failed. |
| SeqBuilder.WindowLengths | datasets/ml100k_seq.py:191-205 | The window length is `max(n-2,0) - max(n-10,0)` for train and validation, and `max(n-1,0) - max(n-10,0)` for test: 8 and 9 once `n >= 10`. |
| SeqBuilder.WindowsNest | datasets/ml100k_seq.py:188-208 | For `n >= 2`: train and validation windows agree, and the test window is the validation window plus the validation target. The test window plus the test target is the last ten items (all of them when `n < 10`). |
| SeqBuilder.WindowInHistory | datasets/ml100k_seq.py:191-206 | Every window item, and the target, comes from the history. The candidates are passed through. |
| SeqBuilder.CandidatesFresh | datasets/ml100k_seq.py:185-206 | No candidate is an item of the window or the target, in every split. |
| SeqBuilder.CandidatesIndependentOfSplit | datasets/ml100k_seq.py:185-205 | With the stream at the same position, every split draws the same candidates. |
| SeqBuilder.StepUid | datasets/ml100k_seq.py:189-204 | A successful step's record carries the user's uid. |
| SeqBuilder.BuildKeys | datasets/ml100k_seq.py:181-204 | One record per user in first-seen order, keyed and labelled by that user, and no key twice. The generator stops early exactly when it reports an error. |
| SeqBuilder.BuildKey | datasets/ml100k_seq.py:181-204 | Record `i` is keyed and labelled by user `i`. |
| SeqBuilder.BuildCovers | datasets/ml100k_seq.py:181 | Without an error, every uid in the table has a record. |
| SeqBuilder.BuildFirstSeen | datasets/ml100k_seq.py:181 | Records appear in the order their users first occur in the table. |
| SeqBuilder.BuildRecord | datasets/ml100k_seq.py:180-208 | Every yielded record has ten pairwise-distinct candidates from the table's items, none rated by the user, none in the window, none equal to the target. It is the window of the user's history for the split. |
| SeqBuilder.StepRecord | datasets/ml100k_seq.py:182-208 | The same facts for one successful step over a repeat-free universe. |
| SeqBuilder.BuildStops | datasets/ml100k_seq.py:185-206 | An error stops the walk at a user who had fewer than ten unrated items, or whose history was too short for the split's target index. |
| SeqBuilder.StepFails | datasets/ml100k_seq.py:185-206 | A failed step fails for the reason its error gives. |
| SeqBuilder.WalkCompletes | datasets/ml100k_seq.py:181 | A walk whose every step succeeds reports no error. |
| SeqBuilder.StepSucceeds | datasets/ml100k_seq.py:185-206 | A step succeeds when ten items are unrated and the history is long enough for the split's target. |
| SeqBuilder.BuildSucceeds | datasets/ml100k_seq.py:181-208 | The generator cannot fail on a table where every user has ten unrated items and, for validation, two ratings. |
| SeqBuilder.BuildDraws | datasets/ml100k_seq.py:185 | A complete pass moves the stream ten draws per user, whatever the split, train included. |
| SeqBuilder.BuildSameCandidates | datasets/ml100k_seq.py:185 | Passes of two splits over the same table, with the stream at the same position, give every user they both reach the same key and the same candidates. The program does not start its passes there: `load_dataset` runs the train, validation and test passes one after another on the one unseeded module-level generator (`random.seed` comes later, at main.py:35). So the lemma does not say that the real splits share candidates. |
| Evaluation.TitleIndex | main.py:15 | The dictionary has a key exactly for each id of the item table. |
| Evaluation.TitleIndexLast | main.py:15 | An id maps to the title of its last entry in the item table. |
| Evaluation.Titles | main.py:24 | The title lookup succeeds exactly when every id is a key, giving the titles in order. Otherwise it names the first missing id. |
| Evaluation.InputTextSpec | main.py:24 | `input` exists exactly when every window id has a title, and then starts with the prompt. Otherwise the error names the first id without a title. |
| Evaluation.InputTextSeparator | main.py:24 | After the prompt come the titles in window order, with `"; "` between consecutive titles. |
| Evaluation.AnswerText | main.py:25 | `answer` exists exactly when the target is present and is a key. It is then the target's title, and otherwise the lookup error for that target. |
| Evaluation.ProcessedRow.constructor | main.py:22 | A row starts with its generated fields and no `input` or `answer`. |
| Evaluation.ProcessedRow.Preprocess | main.py:22-26 | `input` is set first, then `answer`. A missing window title changes nothing. A missing target title leaves `input` set and `answer` unset. |
| Evaluation.RankingList | main.py:42 | `candidates + [target]`: one entry per candidate, in order, and then the target. |
| Evaluation.Lift | main.py:42 | The candidates as list entries, position by position. |
| Evaluation.RelevanceSpec | main.py:47 | The vector is as long as the list, its entries are 0 or 1, entry `k` is 1 exactly when list entry `k` is the target, and the number of 1s is the number of copies of the target. |
| Evaluation.LiftedCopies | main.py:42 | The candidates hold the target as often as the lifted list does. |
| Evaluation.RankingCopies | main.py:42 | The ranking list holds the target once more than the candidates do. |
| Evaluation.ShuffledRelevance | main.py:42-47 | After any shuffle, the vector has `|candidates| + 1` entries and `1 + (copies of the target among the candidates)` ones. |
| Evaluation.SingleRelevant | main.py:42-47 | When no candidate is the target, the shuffled list holds the target and the only 1 is at its position. |
| Evaluation.BuilderRelevance | main.py:42-47 | For every record the builder yields, the shuffled list has eleven entries and exactly one 1, at the target's position, whatever the stream. |
| Evaluation.NdcgAccumulator.constructor | main.py:34 | A fresh accumulator holds no predictions. |
| Evaluation.NdcgAccumulator.Add | main.py:50 | `ndcg.add` appends the prediction and changes nothing else. |
| Evaluation.Scored | main.py:41-50 | The loop's vectors for the first `n` records: `n` of them. |
| Evaluation.ScoredAt | main.py:41-50 | Vector `k` is record `k` scored from the position where the earlier shuffles left the stream. |
| Evaluation.VectorAt | main.py:41-50 | Vector `k` is record `k`'s relevance vector, shuffled after the draws of records `0..k-1`. |
| Evaluation.VectorsSpec | main.py:41-50 | Each vector is as long as its record's ranking list and has one 1 for the target plus one per copy of it among the candidates. |
| Evaluation.VectorOfSpec | main.py:42-47 | The same facts for one record and one stream position. |
| Evaluation.BuilderVectors | main.py:41-50 | Over the builder's records, every vector the loop adds has eleven entries and exactly one 1. |
| Evaluation.ScoreRecord | main.py:42-50 | One turn: the prediction is the relevance vector of the list shuffled from the current position. It is appended to the accumulator, and the stream moves on by the shuffle's draws. |
| Evaluation.ScoredSnoc | main.py:41-50 | Scoring one more record appends exactly its vector. |
| Evaluation.EvaluateFirst | main.py:41-50 | The loop adds one vector per record, for records 0..19 in index order, each shuffled where the previous left the stream. With fewer than twenty records it stops with the index error at the first missing index. |

## Left out

- Downloading and extracting the archive, opening `u.data` and `_info`'s feature schemas are I/O and library configuration. The generator takes the list `f.readlines()` returns.
- `datasets/ml100k.py` (the item-table loader) is not part of this model. The item table is a parameter of `TitleIndex`.
- Ratings.ToRows: pandas pads rows narrower than the widest line with `None`. The model reports any line whose width is not four as an error instead.
- PyRandom.RandomStream: the Mersenne Twister and `random.seed` are not modelled. A seeded stream is an arbitrary draw function, and `randbelow(n)` is `draw % n` rather than CPython's rejection sampling over `getrandbits`.
- PyRandom.RandomStream.Sample: only the pool branch of `random.sample` is modelled, and the picks are computed by the function `Pick` rather than by a loop.
  - For a sample of 10, CPython takes the pool branch only when the population has at most 21 + 4**3 = 85 items. Any larger population goes to the set-based branch, where each pick takes one `randbelow` plus one more per index drawn again.
  - On MovieLens-100k's 1682 items every pool is larger than that, so the real generator always runs the set branch.
  - The draw counts therefore hold for the modelled branch only:
    - "one draw per pick";
    - the ten-draw advance in `SeqBuilder.UserRecord`;
    - the positions `pos + 10i` in `SeqBuilder.WalkShape`, `SeqBuilder.WalkAt` and `SeqBuilder.WalkStop`;
    - `SeqBuilder.BuildDraws`.
  - Which candidates a given stream yields is likewise branch-specific.
  - The facts about which records come out hold for both branches: ten pairwise-distinct candidates from the pool, refusal exactly when the pool has fewer than ten items, and the same draws in every split.
- Evaluation.BuilderVectors: `load_dataset` is taken to return the generated records in generation order, keys dropped (the function `Examples`). This is an assumption about the library, not a proved fact.
- Ratings.SortByTimestamp: pandas' sort algorithm is foreign. It is modelled by an insertion sort whose properties are "ordered by timestamp string" and "a permutation". The order of equal timestamps is not claimed.
- SeqBuilder.Example: the record field `seq` is named `sequence`, `seq` being a Dafny keyword.
- Evaluation.ProcessedRow.Preprocess: only the per-record function is modelled, not `seq.map` over the whole split.
- Hydra configuration, `load_dataset`, reading the prompt from the configuration and `print(processed_datasets[0]['input'])` are orchestration and I/O. The prompt and the item table are parameters.
- The NDCG computation (`ndcg.compute`, main.py:52) is left out. Its source is not available and it is floating-point arithmetic. Only the predictions handed to the accumulator are modelled.
