# SQuAD answer-span pipeline: a Dafny model

This project models the data side of a SQuAD (Stanford Question Answering
Dataset) training pipeline, together with its answer scoring:

- **`data.py`**:
  - `make_vocab` builds the vocabulary from a token stream. It counts the tokens, orders them by frequency, keeps the leading run of tokens counted at least `min_count` times, puts the special tokens first, cuts the list to the maximum size and builds the inverse dictionary.
  - `SquadReader` gives random access to the tab-separated rows of a dataset file.
  - `SquadIterator` is an endless stream of fixed-size batches over a random order. It reshuffles the order whenever it passes the end, and tops the last batch up from the new order.
  - `SquadConverter` turns a batch into padded question and context id matrices, a target matrix of span labels and a three-channel span feature array.
- **`lstm_seq2seq.py`**:
  - answer normalisation, exact match, bag-of-words F1 and the maximum over gold answers;
  - the running `SquadMetric` averages;
  - the older `TextData` builder;
  - the older `make_vocab`;
  - the index selection of `SquadSequence` and `SquadTestGenerator`.

Modules follow the program's structure:

| module | file | what it models |
|---|---|---|
| `Common` | `common.dfy` | ranges, slices, ceiling division, permutations |
| `Vocab` | `vocab.dfy` | both versions of `make_vocab` |
| `Reader` | `reader.dfy` | `SquadReader` |
| `Text` | `text.dfy` | padding and id encoding; the `TextData` class |
| `Converter` | `converter.dfy` | `SquadConverter.__call__`, filling numpy arrays in place |
| `Batching` | `iterator.dfy` | the `SquadIterator` class and its batch schedule |
| `Legacy` | `sequence.dfy` | the `SquadSequence` class and `SquadTestGenerator`'s index chunks |
| `Metric` | `metric.dfy` | answer normalisation, EM, F1 and the `SquadMetric` class |

Objects whose methods update their fields are classes:

- `SquadIterator`, `SquadSequence`, `SquadMetric` and `TextData` keep their fields and reassign them in their methods.
- The converter's output arrays are `array2`/`array3` values, filled by loops.
- Pure computations are functions, and their properties are lemmas.

Some inputs are parameters rather than computed here:

- the random permutations (`np.random.permutation`, `np.random.shuffle`);
- the file contents, given as a sequence of lines;
- the tokenised texts and the located token spans.

## Model

| member | source | states |
|---|---|---|
| `Common.CeilDiv` | data.py:55-56 | `math.ceil(n / b)`: the least `q` with `n <= q*b`. |
| `Common.CeilDivUnique` | data.py:55-56 | Any `q` meeting both bounds is the ceiling quotient. |
| `Common.StepsIsCeilDiv` | data.py:68-76 | Counting batches one at a time gives `ceil(r/b)` batches. The last batch overshoots by `ceil(r/b)*b - r`. |
| `Common.LastBatchSize` | lstm_seq2seq.py:204 | The last batch holds what the full batches before it leave. |
| `Common.Slice` | data.py:66 | Python's `s[lo:hi]` clamps both bounds to the length. Entry k is `s[lo+k]`. |
| `Common.Range` | data.py:53 | `range(lo, hi)`: `hi - lo` consecutive integers starting at `lo`. |
| `Vocab.MostCommon` | data.py:15-17 | `Counter(tokens).most_common()` as a stable sort of the first-seen keys by descending count; its properties are stated by `Vocab.MostCommonFacts`. |
| `Vocab.Insert` | data.py:16-17 | One insertion step of the stable descending sort; its properties are stated by `Vocab.InsertFacts` and `Vocab.InsertStable`. |
| `Vocab.SortBy` | data.py:16-17 | The stable descending sort behind `most_common()`; its properties are stated by `Vocab.SortByFacts`. |
| `Vocab.MakeVocab` | data.py:13-23 | The newer `make_vocab`: count, order, keep the frequent prefix, put the specials first, cut, build the dictionary; its properties are stated by the `Vocab.MakeVocab…` lemmas below. |
| `Vocab.MakeVocabUnfiltered` | lstm_seq2seq.py:141-150 | The older `make_vocab`; `Vocab.UnfilteredIsMinCountOne` and `Vocab.MakeVocabUnfilteredFails` state its behaviour. |
| `Vocab.Distinct` | data.py:15 | The keys of `Counter(tokens)`: no repeats, exactly the tokens of the stream, in first-seen order (a key listed before another occurs in the stream before any occurrence of that other). |
| `Vocab.InsertFacts` | data.py:16-17 | Inserting into a count-ordered list keeps it ordered. It adds exactly that one element. |
| `Vocab.InsertStable` | data.py:16-17 | An insertion places the element before the equal-count ones. It leaves the order of every other count alone. |
| `Vocab.SortByFacts` | data.py:16-17 | The sort orders by non-increasing count. It permutes its input. It keeps equal-count elements in input order (stability). |
| `Vocab.MostCommonFacts` | data.py:15-17 | `most_common()` has non-increasing counts and no repeats. It holds exactly the stream's tokens, with ties in first-seen order. |
| `Vocab.TakeWhileFrequent` | data.py:16-17 | `takewhile` keeps the longest prefix counted `>= min_count`. The first element it stops at is counted less. |
| `Vocab.PyPrefix` | data.py:19-20 | `s[:k]` is a prefix of `s`, with Python's lengths for a negative `k`. |
| `Vocab.IndexOf` | data.py:21-22 | `dict(zip(s, range))` holds exactly the tokens of `s`. Each maps to a position holding it, the last one for duplicates. |
| `Vocab.IndexOfInverse` | data.py:21-22 | Without duplicates, the dictionary is the exact inverse of the list and has the same size. |
| `Vocab.Assemble` | data.py:18-22 | Specials plus kept tokens, cut to `min(max, len)`. The dictionary keys are exactly the listed tokens, and each indexes back to its token. |
| `Vocab.AssembleTail` | data.py:18-20 | Past the specials, the list follows the kept tokens. |
| `Vocab.AssembleNoDup` | data.py:18-20 | The list repeats no token when the specials and the kept tokens are distinct and disjoint. |
| `Vocab.MakeVocabFails` | data.py:16-17 | `make_vocab` fails (nothing to unpack) exactly when no token is counted `min_count` times. |
| `Vocab.MakeVocabLayout` | data.py:13-23 | On success, the specials come first and in order. The list is at most `max_vocab_size` long, and every dictionary entry indexes back to its token. |
| `Vocab.MostCommonOrdered` | data.py:15-17 | Counts never increase along `most_common()`. |
| `Vocab.MakeVocabFrequent` | data.py:13-23 | Past the specials come the most frequent tokens in order. Each is counted `>= min_count`, and counts do not increase. |
| `Vocab.FrequentTail` | data.py:16-20 | A cut of specials plus a prefix of a count-ordered list continues with that list and its bound. |
| `Vocab.MakeVocabBijective` | data.py:18-23 | With distinct specials absent from the stream, the dictionary and the list are inverse bijections of equal size. |
| `Vocab.MakeVocabSize` | data.py:13-23 | With a non-empty stream, `min_count <= 1`, distinct specials and no special token in the stream, `make_vocab` succeeds and both structures have `min(max_vocab_size, specials + distinct tokens)` entries. |
| `Vocab.KeepAll` | data.py:16-17 | With `min_count <= 1`, `takewhile` keeps the whole non-empty `most_common()` list, which has one entry per distinct token. |
| `Vocab.MakeVocabSpecialIndices` | data.py:18-22 | Special token k is looked up at index k when the maximum leaves room for the specials. |
| `Vocab.UnfilteredIsMinCountOne` | lstm_seq2seq.py:141-150 | The older builder equals the newer one with `min_count = 1` and the default specials. |
| `Vocab.MakeVocabUnfilteredFails` | lstm_seq2seq.py:142-143 | The older builder fails exactly on an empty token stream. |
| `Vocab.MakeVocabTestSize` | tests/test_data.py:7-21 | The unit test's stream gives 10 entries in both structures, and the 4 specials come first. |
| `Reader.JoinSplit` | data.py:36 | The tab-split fields joined by tabs give the line back. |
| `Reader.SplitJoin` | data.py:36 | Tab-free fields joined by tabs split back into the same fields. |
| `Reader.Fields` | data.py:36 | An empty line has no fields. A non-empty line's fields are tab-free and rejoin to the line. |
| `Reader.SquadReader.Len` | data.py:30-40 | `len(reader)` is the line count minus one. |
| `Reader.SquadReader.GetLine` | data.py:35 | `linecache.getline` is 1-based, and out-of-file line numbers read as empty. |
| `Reader.SquadReader.GetItem` | data.py:32-37 | `reader[i]` is refused exactly when `i > len`. Otherwise it returns the fields of line `i` (0-based), and nothing for a negative `i`. |
| `Reader.GetItemRoundTrip` | data.py:32-37 | Every accepted non-negative index returns fields that rejoin to the stored line. |
| `Reader.ReaderTestExample` | tests/test_data.py:24-45 | On the test file, `len` is 1. Index 1 gives the five fields of the second line, and index 2 is refused. |
| `Text.MaxLength` | data.py:122 | `max(len(x))` bounds every row and is reached by one of them. |
| `Text.PadRow` | data.py:123 | A padded row has the target length, keeps the row as its prefix and has pad tokens after it. |
| `Text.PadRows` | data.py:123 | All rows have the longest row's length, keep their tokens as a prefix and are pad-filled after them. |
| `Text.Lookup` | data.py:125 | A known token maps to its dictionary id, and any other token to the unknown id. |
| `Text.EncodeRows` | data.py:124-126 | Same shape as the input. Cell (i, j) is the id of token (i, j), or `unk`. |
| `Text.ProcessText` | data.py:120-126 | `_process_text`: pad to the longest row, then encode; its cells are stated by `Text.ProcessTextCells`. |
| `Text.ProcessTextCells` | data.py:120-126 | `_process_text` fails exactly on an empty batch. Otherwise every row has the longest length, tokens map to ids or `unk`, and padded cells hold the pad id. |
| `Text.PaddingRoundTrip` | data.py:120-126 | Decoding with the inverse list recovers each in-vocabulary token, and the pad token at each padded cell. |
| `Text.ProcessTextTestExample` | tests/test_data.py:123-129 | The unit test's context maps to `[1,1,1,2,3,4,5,6,4,7,8,5]`. |
| `Text.TextData.constructor` | lstm_seq2seq.py:109-110 | Holds the given token rows. |
| `Text.TextData.MaxLen` | lstm_seq2seq.py:130-132 | The `max_length` property: the longest row, and a failure on no rows. |
| `Text.TextData.Padding` | lstm_seq2seq.py:125-128 | Pads every row to the longest, which makes the data rectangular. It fails, leaving the data alone, on no rows. |
| `Text.TextData.ToArray` | lstm_seq2seq.py:112-115 | Replaces the tokens by their ids with the unknown fallback. It fails, leaving the data alone, on ragged rows. |
| `Text.PadThenEncode` | lstm_seq2seq.py:175-176 | `TextData(rows).padding(pad).to_array(...)` yields exactly what `_process_text` yields. |
| `Converter.SliceStop` | data.py:112-117 | The stop of a numpy slice: clamped to the axis, and counted from the end when negative. |
| `Converter.TargetCell` | data.py:108-112 | The label a cell receives: 0 without a span, 1 at the start, 2 on the clamped rest of the span; stated by `Converter.TargetLabels`. |
| `Converter.FeatureCell` | data.py:113-117 | The feature value a cell and channel receive, guards included; stated by `Converter.OneChannel`, `Converter.SpanCovered` and `Converter.TargetMatchesFeature`. |
| `Converter.FillTargetRun` | data.py:112 | `a[i, lo:hi] = v` changes exactly those cells. |
| `Converter.FillFeatureRun` | data.py:113-117 | `a[i, lo:hi, c] = 1.` changes exactly those cells. |
| `Converter.FillTarget` | data.py:110-112 | Row i becomes the span labels, and other rows are unchanged. |
| `Converter.FillFeature` | data.py:113-117 | Row i becomes the span features, guards included, and other rows are unchanged. |
| `Converter.FillRows` | data.py:108-117 | The loop succeeds exactly when every span starts inside the width. Every row then holds its labels and features, and rows without a span stay zero. |
| `Converter.Call` | data.py:95-118 | Fails on an empty batch or a span starting beyond the width. Otherwise: both id matrices are `_process_text`'s, the arrays are new with the batch's shape and the given category count, and each cell is its span label or feature. |
| `Converter.TargetLabels` | data.py:108-112 | A label is 0, 1 or 2. It is 1 exactly at the start and 2 exactly on the rest of the span. Rows without a span are all 0. |
| `Converter.OneChannel` | data.py:113-117 | No position carries two feature channels. |
| `Converter.SpanCovered` | data.py:113-117 | Every position up to a located span's end carries some channel. |
| `Converter.TargetMatchesFeature` | data.py:108-117 | Label 1 sits at the end of channel 0's run. Label 2 is exactly where channel 1 or 2 is set within the span. |
| `Converter.ConverterTestExample` | tests/test_data.py:106-121 | For the test's span (10, 10) in 12 tokens: target 1 only at 10, channel 0 on 0..10, channel 1 only at 11, channel 2 empty. |
| `Converter.QuestionTestExample` | tests/test_data.py:110-118 | The unit test's question maps to `[9,2,10,4,1]`. |
| `Batching.NextStep` | data.py:61-78 | Without reaching the end, the cursor advances by `b`. Otherwise the reshuffled order replaces the old one and the cursor becomes `i+b-n`. |
| `Batching.NextStepFacts` | data.py:61-78 | With `0 < b <= n`, a call returns exactly `b` records. The cursor stays inside the order, which stays a permutation. Ending exactly at `n` wraps to 0 with no top-up. |
| `Batching.NextStepBelow` | data.py:66-73 | Every picked entry indexes a record. |
| `Batching.PickedDistinct` | data.py:66-76 | A batch that does not wrap repeats no record. |
| `Batching.PermutationNoDup` | data.py:53 | A permutation of `range(n)` repeats no entry. |
| `Batching.NoWrapStep` | data.py:66-76 | A non-wrapping step takes the next `b` entries of the order. |
| `Batching.WrapStep` | data.py:66-74 | A wrapping step takes the rest of the order, then the first `i+b-n` entries of the new order. |
| `Batching.Run` | data.py:61-78 | Successive `next` calls return one batch per call. |
| `Batching.RunFrom` | data.py:61-78 | From position p, the next `ceil((n-p)/b)` batches are the rest of the order followed by the first entries of the reshuffle. |
| `Batching.RunLast` | data.py:68-74 | The last batch of an epoch is the rest of the order plus the top-up. |
| `Batching.FirstEpochCovers` | data.py:51-78 | After a reset, the first `ceil(n/b)` batches are the whole order plus `ceil(n/b)*b - n` entries of the next one, so every record is served. |
| `Batching.Records` | data.py:66 | `[dataset[i] for i in indices]`: entry k is the record at index k. |
| `Batching.SquadIterator.constructor` | data.py:44-53 | Keeps dataset, batch size and converter, with cursor 0 and a permutation as the order. |
| `Batching.SquadIterator.Reset` | data.py:51-53 | Cursor 0 and a fresh permutation. |
| `Batching.SquadIterator.Length` | data.py:55-56 | `len` is `ceil(n/b)`, with a division error for `b == 0`. |
| `Batching.SquadIterator.Next` | data.py:61-78 | The new cursor and order are `NextStep`'s. The result is the converter applied to the picked records, all in range, and `b` of them when `0 < b <= n`. |
| `Batching.LengthTestExample` | tests/test_data.py:69-70 | 100 records in batches of 32 make 4 batches. |
| `Batching.TenBatchesTestExample` | tests/test_data.py:72-75 | Ten `next` calls over 100 records with batch size 32 each return 32 records, whatever the shuffles. |
| `Legacy.StepRange` | lstm_seq2seq.py:204 | `range(lo, n, b)` has `ceil((n-lo)/b)` starts, and none when `lo >= n`. |
| `Legacy.StepRangeAt` | lstm_seq2seq.py:204 | Start k is `lo + k*b`. |
| `Legacy.ChunksFrom` | lstm_seq2seq.py:204 | `[s[i:i+b] for i in range(lo, len(s), b)]`; its properties are stated by `Legacy.ChunksFromFacts`. |
| `Legacy.BatchAt` | lstm_seq2seq.py:166 | The slice `indices[idx*b:(idx+1)*b]`; `Legacy.BatchIsChunk` and `Legacy.EpochServesEachOnce` state its properties. |
| `Legacy.ChunksFromFacts` | lstm_seq2seq.py:204 | The chunks concatenate to the input. Every chunk but the last has `b` entries. |
| `Legacy.TestIndices` | lstm_seq2seq.py:203-204 | Fails exactly for a step of 0. |
| `Legacy.TestIndicesFacts` | lstm_seq2seq.py:203-207 | The chunks concatenate to `range(n)` and there are `ceil(n/b)` of them. Each holds `b` indices but the last, which holds the rest. |
| `Legacy.TestIndicesEmpty` | lstm_seq2seq.py:203-204 | An empty file has no chunks. |
| `Legacy.BatchCount` | lstm_seq2seq.py:206-207 | `ceil(n/b)`, with a division error for `b == 0`. |
| `Legacy.BatchIsChunk` | lstm_seq2seq.py:166 | Batch idx is chunk idx of the permutation. |
| `Legacy.EpochServesEachOnce` | lstm_seq2seq.py:161-166 | Over one epoch, the batches concatenate to the permutation, so each record is served exactly once. |
| `Legacy.SquadSequence.constructor` | lstm_seq2seq.py:154-159 | Holds the line count, the batch size and a permutation. |
| `Legacy.SquadSequence.Length` | lstm_seq2seq.py:161-162 | `len` is `ceil(total/b)`. |
| `Legacy.SquadSequence.Batch` | lstm_seq2seq.py:164-166 | Batch idx is `BatchAt` of the current permutation: its entry k is permutation position `idx*b + k`, in order and without wrapping, all below the total. It has `min((idx+1)*b, total) - idx*b` entries, and none past the end. |
| `Legacy.SquadSequence.OnEpochEnd` | lstm_seq2seq.py:193-194 | A fresh permutation. |
| `Metric.PunctuationRuns` | lstm_seq2seq.py:50 | `string.punctuation` is the four ASCII punctuation runs. |
| `Metric.LowerChar` | lstm_seq2seq.py:53 | An upper-case letter becomes its lower-case letter (code point + 32). Nothing else changes, so no upper case is left and whitespace is kept. |
| `Metric.Lower` | lstm_seq2seq.py:53 | `str.lower` works character by character. |
| `Metric.RemovePunc` | lstm_seq2seq.py:49-51 | Keeps exactly the non-punctuation characters. |
| `Metric.LeadingWord` | lstm_seq2seq.py:47 | The longest whitespace-free prefix. |
| `Metric.Words` | lstm_seq2seq.py:59-60 | `str.split()` gives non-empty whitespace-free words drawn from the string. |
| `Metric.WordsOfNonSpace` | lstm_seq2seq.py:47 | A non-empty whitespace-free string is one word. |
| `Metric.WordsSplitAt` | lstm_seq2seq.py:47 | Splitting at any whitespace character: the words of `a + c + b` are the words of `a` then those of `b`. With `Metric.WordsOfNonSpace`, this determines `str.split()` on every string. |
| `Metric.WordsJoin` | lstm_seq2seq.py:46-47 | Splitting a space-joined word list gives the list back. |
| `Metric.JoinSpaceTidy` | lstm_seq2seq.py:47 | `' '.join` of words has no leading, trailing or doubled whitespace. |
| `Metric.Normalize` | lstm_seq2seq.py:45-53 | `normalize_answer`: lower-case, remove punctuation, collapse whitespace; stated by `Metric.NormalizeShape` and the lemmas below. |
| `Metric.NormalizeShape` | lstm_seq2seq.py:45-53 | A normalised answer is tidy and has no upper case or punctuation. |
| `Metric.NormalizeIdempotent` | lstm_seq2seq.py:45-53 | Normalising twice is normalising once. |
| `Metric.Tokens` | lstm_seq2seq.py:59-60 | The tokens F1 compares; `Metric.TokensOfNormalized` ties them to `normalize_answer(s).split()`. |
| `Metric.TokensOfNormalized` | lstm_seq2seq.py:59-60 | `normalize_answer(s).split()` equals the words of the cleaned text. |
| `Metric.NormalizeIgnoresCase` | lstm_seq2seq.py:45-53 | Case does not change the normal form. |
| `Metric.NormalizeIgnoresPunctuation` | lstm_seq2seq.py:45-53 | Trailing punctuation does not change the normal form. |
| `Metric.RemovePuncAppend` | lstm_seq2seq.py:51 | Punctuation removal distributes over concatenation. |
| `Metric.ExactMatch` | lstm_seq2seq.py:71-72 | The score is 1 exactly when the normal forms agree, else 0. |
| `Metric.ExactMatchIgnoresCaseAndPunctuation` | lstm_seq2seq.py:71-72 | An answer with punctuation appended exactly matches its lower-cased form. |
| `Metric.MixedCaseExactMatch` | lstm_seq2seq.py:71-72 | `"The Answer Is 5."` exactly matches `"the answer is 5"`. |
| `Metric.LowerAnswer` | lstm_seq2seq.py:53 | `str.lower` of `"The Answer Is 5"` is `"the answer is 5"`. |
| `Metric.Overlap` | lstm_seq2seq.py:61-62 | The shared-token count is at most either list's length. |
| `Metric.OverlapSymmetric` | lstm_seq2seq.py:61-62 | The shared-token count does not depend on argument order. |
| `Metric.TokenF1` | lstm_seq2seq.py:61-68 | The token F1 is 0 exactly when nothing is shared, and lies in [0, 1]. |
| `Metric.TokenF1Closed` | lstm_seq2seq.py:61-68 | With shared tokens, F1 is `2·same/(|p|+|g|)`. |
| `Metric.PrecisionRecallF1` | lstm_seq2seq.py:65-67 | The harmonic mean of precision and recall is `2·same/(np+ng)`, in (0, 1]. |
| `Metric.HarmonicMean` | lstm_seq2seq.py:65-67 | The identity `2(s/a)(s/b)/((s/a)+(s/b)) = 2s/(a+b)`. |
| `Metric.F1` | lstm_seq2seq.py:56-68 | `f1_score`; its cases are stated by `Metric.F1Cases`. |
| `Metric.F1Cases` | lstm_seq2seq.py:56-68 | `f1_score` is 1 for two empty raw strings, 0 when the token bags share nothing, and `2·same/(|p|+|g|)` otherwise. |
| `Metric.F1Bounds` | lstm_seq2seq.py:56-68 | F1 lies in [0, 1]. |
| `Metric.F1Symmetric` | lstm_seq2seq.py:56-68 | F1 is symmetric in prediction and truth. |
| `Metric.TokenF1Self` | lstm_seq2seq.py:61-68 | A non-empty token list against itself scores 1. |
| `Metric.ExactMatchFullF1` | lstm_seq2seq.py:56-72 | An exact match with at least one token scores F1 1. |
| `Metric.PunctuationOnlyScoresZero` | lstm_seq2seq.py:56-72 | `"."` and `""` match exactly but score F1 0, because the empty test looks at the raw strings. |
| `Metric.F1OneOfTwoShared` | lstm_seq2seq.py:56-68 | Two-word answers sharing one word score F1 1/2. |
| `Metric.MetricMaxOverGroundTruths` | lstm_seq2seq.py:75-80 | The result is a score of some gold answer and no smaller than any of them. There is none for no gold answers. |
| `Metric.Average` | lstm_seq2seq.py:99-100 | `total / count`, or 0 for no count, which lies in [0, 1] when each item adds at most 1. |
| `Metric.SquadMetric.constructor` | lstm_seq2seq.py:84-87 | Both totals and the count start at 0. |
| `Metric.SquadMetric.Call` | lstm_seq2seq.py:89-96 | Adds this answer's EM and F1 to the totals and counts it. Each total stays within the count. |
| `Metric.SquadMetric.GetMetric` | lstm_seq2seq.py:98-105 | Returns the two averages, both in [0, 1]. On request it zeroes every field, and otherwise leaves them alone. |

## Left out

- Tokenisation (spaCy) and `get_spans` (the code is not shown) are left out. The model takes token rows and token spans as inputs, and `Converter.Call` receives them already computed.
- Random numbers are parameters. The permutation that `reset`, `__init__` or `on_epoch_end` draws is an argument, and so is the order `np.random.shuffle` leaves.
- File I/O is left out. A file is its sequence of lines without line terminators, and `linecache` is indexing into it.
- CSV parsing is a plain split on tabs: an empty line has no fields, and quoting and escapes are not modelled.
- `Reader.SquadReader.GetItem` follows the code rather than the documented format:
  - it does not skip a header line;
  - `reader[i]` reads file line `i + 1`;
  - it accepts `i == len(reader)`.
- Floating point is not modelled. Scores are exact reals, so rounding in F1 and in the averages is not captured.
- Text is ASCII only:
  - `str.lower` maps only `A`–`Z`;
  - `str.split()` splits on the ASCII whitespace characters;
  - Unicode case mapping and Unicode whitespace are not modelled.
- `Converter.Call` requires at least three categories. With fewer, the source raises an index error when a channel is written; that error is not modelled.
- `Converter.Call` returns the target without numpy's trailing `[:, :, None]` axis, and the question and context matrices as sequences.
- `Converter.Call` does not model the `int()` conversions of the character offsets (`int(start)`, `int(end)`), because the spans are given.
- `Converter.TargetLabels`, `Converter.SpanCovered` and `Converter.TargetMatchesFeature` assume `start <= end`. A reversed span is handled by `Converter.Call` as the source does, but it is not described by these lemmas.
- `Batching.SquadIterator` takes its converter as a function value. The real `SquadConverter` is modelled separately by `Converter.Call`.
- `__iter__` of `SquadIterator` (returning itself) is not modelled.
- `SquadTestGenerator.__iter__` is left out: it only reads, tokenises and converts each chunk of lines.
- `SquadSequence.__getitem__` is modelled only for the indices it selects (`Legacy.SquadSequence.Batch`). Its tokenisation is left out, and so is its span loop, which rebinds `spans` and writes to row `i + 1`.
- `Legacy.SquadSequence.Batch` takes a non-negative batch number; a negative `idx` is not modelled.
- `Legacy.SquadSequence.constructor` takes the data count as a natural number, so a file with no lines at all (count -1) is not modelled.
- `TextData.reshape`, `TextData.getattr` and `TextData.__len__` are left out; `getattr('text')` is the tokenisation step already excluded.
- `Text.TextData.Padding` and `Text.TextData.ToArray` require the data to hold tokens. Calling them after `to_array` is not modelled.
- The training script (model building, `fit`, and evaluation by the model's predictions) and the other files are not part of this model.
