# NCET-ProPara core in Dafny

NCET tracks entities through procedural paragraphs (ProPara). A neural
tagger predicts, per sentence, one of six state tags (`O_C`, `O_D`, `C`,
`E`, `M`, `D`) and a raw location for each entity. This project models
three deterministic parts of that system and proves their properties.

- **Prediction post-processing** (`predict.dfy`, `output.dfy`). Module
  `Predict` derives the location before the first sentence. It then
  rewrites the raw locations left to right, so that each boundary agrees
  with the tags, and formats `(state, before, after)` triples. It also
  decodes the tagger's indices into one instance record. Module
  `PredictOutput` fills one tab-separated template line of the prediction
  file, and models the whole file as written and as intended. Module
  `PyText` (`text.dfy`) models the Python string and list built-ins this
  code relies on: `strip`, `split`, `join`, `int`, `str` and indexing with
  negative indices. It proves their round trips.
- **Masked span aggregation** (`aggregate.dfy`, module `SpanAggregation`).
  This is the masked mean of token vectors per sentence, with its
  zero-vector case for empty masks. It also covers:
  - the entity‖verb concatenation, zeroed where the entity is absent;
  - the per-token verb indicator, summed and not clipped;
  - the padding mask of the gold state sequences.
- **Training bookkeeping** (`training.dfy`, module `Training`). This
  covers the batches per epoch and the report accumulators. A `Trainer`
  class holds the early-stopping state machine: the best score, the
  impatience counter, the checkpoint to save and the stop decision.

Python exceptions become `Result` values (`AssertionError`, `ValueError`,
`KeyError`, `IndexError`). Floating point becomes `real`.

Two behaviours of the code are easy to misread, and the model keeps what
the code does:
- For tags `[C, E, D]` over raw locations `[x, y, z]`, the `E` branch at
  predict.py:114-115 copies the previous resolved boundary and not the raw
  location. The boundaries are therefore `["-", x, x, "-"]`, and the raw `y`
  is dropped (`Predict.CreateExistDestroyExample`).
- The docstring of `get_verb_indicator` (Model.py:112) calls the indicator
  binary, but Model.py:114 sums the verb mask over the sentences. A token
  that is the verb of two sentences gets 2
  (`SpanAggregation.VerbOfTwoSentences`).

## Model

| member | source | states |
|---|---|---|
| PyText.StripIsTrimmedInfix | predict.py:26 | `strip()` returns an infix of the line that neither starts nor ends with whitespace, and every character it drops is whitespace |
| PyText.StripUnpadded | predict.py:26 | a string that neither starts nor ends with whitespace is unchanged by `strip()` |
| PyText.Split | predict.py:26 | `split('\t')` yields at least one field, and no field contains the separator |
| PyText.JoinSplit | predict.py:26 | joining the fields of a split with the same separator gives the original string back |
| PyText.SplitJoin | predict.py:45 | splitting a `'\t'.join` of tab-free fields gives exactly those fields back |
| PyText.NatToString | predict.py:32 | `str(n)` is a non-empty string of decimal digits with no leading zero unless n is 0 |
| PyText.ParseIntToString | predict.py:29-32 | `int(str(i)) == i` for every integer, negative ones included |
| PyText.ParseNatToString | predict.py:29-30 | `int(str(n)) == n` for every natural number |
| PyText.NatToStringOfDigits | predict.py:29-32 | `str(int(s)) == s` for every digit string without a superfluous leading zero |
| PyText.PyIndex | predict.py:38 | list indexing succeeds exactly for `-len <= i < len`, and a negative index counts from the end |
| Predict.PredictLoc0 | predict.py:125-134 | the location before sentence 1 is `"?"` exactly when the first tag is `E`, `M` or `D`, and `"-"` exactly when it is `O_C`, `O_D` or `C` |
| Predict.TagToState | predict.py:79 | `tag2state` maps exactly `C` to CREATE, `M` to MOVE and `D` to DESTROY, and the three others to NONE |
| Predict.StateNamesDistinct | predict.py:79 | the four state names written to the file are pairwise distinct |
| Predict.PredictConsistentLoc | predict.py:99-121 | for equal-length non-empty inputs it returns n+1 boundaries. Boundary 0 is `predict_loc0` of the first tag. After `O_C`/`O_D`/`D` the boundary is `"-"`, after `E` it is the previous resolved boundary, and after `C`/`M` it is the raw location |
| Predict.ResolvedLocationsUnique | predict.py:90-97 | the documented rules leave no choice: two boundary sequences that satisfy them are equal |
| Predict.ResolvedIsAnchored | predict.py:112-119 | every resolved boundary is fixed by the latest non-`E` sentence before it: its raw location for `C`/`M`, `"-"` for `O_C`/`O_D`/`D`, and `"?"` when every earlier tag is `E` and the first tag is `E` |
| Predict.ResolvedComesFromTrusted | predict.py:91-92 | every resolved location is `"?"`, `"-"` or the raw location of an earlier `C` or `M` sentence |
| Predict.CreateExistDestroyExample | predict.py:112-117 | tags `C, E, D` over raw `x, y, z` resolve to `-, x, x, -`: `E` carries `x` forward and drops the raw `y` |
| Predict.FormatFinalPrediction | predict.py:76-85 | with n tags and n+1 boundaries it returns n triples, and triple i is (`tag2state` of tag i, boundary i, boundary i+1) |
| Predict.FormattedIsConsistent | predict.py:60-61 | formatting resolved boundaries gives triples that chain (the after of one is the before of the next) and obey each tag's location rule |
| Predict.FormattedBoundaries | predict.py:81-83 | the boundaries can be read back from the formatted triples, so formatting loses nothing |
| Predict.NoChangeKeepsLocation | predict.py:79 | in a consistent prediction a `NONE` triple keeps its location or has none |
| Predict.DestroyLeavesNoLocation | predict.py:112-113 | in a consistent prediction a `DESTROY` triple ends at `"-"` |
| Predict.DecodeTags | predict.py:57 | decoding state indices succeeds exactly when every index is a key of `idx2state`, otherwise KeyError, and maps each index to its tag |
| Predict.DecodeLocations | predict.py:58 | decoding location indices succeeds exactly when every index is in Python range of the candidate list, otherwise IndexError, and picks each candidate as Python indexing does |
| Predict.GetOutput | predict.py:48-69 | decoding failures give KeyError or IndexError. Once both decodings succeed, every failure is an AssertionError, and the result is Ok exactly when the sequences have equal length, at least one sentence and `total_sents` triples. An Ok record carries the metadata's id, entity and `total_sents` and a consistent prediction |
| PredictOutput.InstanceKeySplits | predict.py:32 | the key `str(para_id) + '-' + entity` has its first `-` after position 0 right after the id, the part before it parses back to the id, and the rest is the entity |
| PredictOutput.InstanceKeyInjective | predict.py:32 | two instances have the same key only when their paragraph ids and entity names are equal |
| PredictOutput.FillLine | predict.py:26-45 | a stripped line that does not split into 4 tab-separated fields ending in `NONE` fails the assertion. A filled line had integer ids, a stored instance under its key whose id and entity match, and `sent_id <= total_sents` |
| PredictOutput.FillFields | predict.py:27-43 | a line that is not 4 fields ending in `NONE` fails the assertion. A filled line had integer ids, a stored instance under `str(para_id)-entity` whose id and entity match, and `sent_id <= total_sents` |
| PredictOutput.FillParsed | predict.py:32-38 | once both ids are parsed, the line succeeds only if `str(para_id)-entity` is stored, the stored id and entity match the line and `sent_id <= total_sents` |
| PredictOutput.FillFieldsValue | predict.py:38-45 | on a well-formed line the record is the three template fields, then the state, before and after of `prediction[sent_id - 1]`, joined by tabs |
| PredictOutput.RecordFields | predict.py:40-45 | the six-field record splits back into its six fields when no field holds a tab |
| PredictOutput.FillFieldsRecord | predict.py:38-45 | for `1 <= sent_id`, the written record splits into the template's first three fields followed by triple `sent_id` |
| PredictOutput.SentIdZeroTakesLast | predict.py:34-38 | once the ids are parsed, a sentence id of 0 passes the bound check and, through index -1, writes the triple of the last sentence |
| PredictOutput.FillLines | predict.py:20-26 | one result per template line, in order: the i-th is the fill of the i-th line |
| PredictOutput.FillLinesAt | predict.py:20-26 | the i-th result of the writing loop is the fill of the i-th template line |
| PredictOutput.WriteGlued | predict.py:20-45 | the loop as written ends without an exception exactly when every line yields a record |
| PredictOutput.WriteTerminated | predict.py:20-45 | the corrected loop ends without an exception exactly when every line yields a record |
| PredictOutput.WriteOutputAsWritten | predict.py:20-45 | `write_output` as written finishes without an exception exactly when every template line fills in |
| PredictOutput.WriteOutput | predict.py:20-45 | `write_output` with one record per line finishes without an exception exactly when every template line fills in |
| PredictOutput.GluedText | predict.py:20-45 | when every line yields a record, the loop as written outputs the records concatenated, with no failure |
| PredictOutput.TerminatedText | predict.py:20-45 | when every line yields a record, the corrected loop outputs each record followed by a line break, with no failure |
| PredictOutput.FailureText | predict.py:20-45 | when line k is the first to fail, each loop has written the records of the lines before it and stops with line k's exception |
| PredictOutput.FirstFailureStops | predict.py:20-45 | the first failing line ends both loops with its exception, whatever follows it |
| PredictOutput.AsWrittenText | predict.py:20-45 | when every line is filled, the file as written is the records concatenated with nothing between them |
| PredictOutput.CorrectedText | predict.py:20-45 | with a line break after each record, the file is the records each followed by a line break |
| PredictOutput.AsWrittenGluesRecords | predict.py:45 | as written, two or more records make a file of one single line, fewer lines than the template |
| PredictOutput.OneRecordPerLine | predict.py:45 | corrected, the lines of the file are exactly the records, one per template line |
| PredictOutput.FailureStopsWriting | predict.py:20-45 | the first failing template line stops the writer with that line's exception, after the records of the lines before it, in both versions |
| PredictOutput.FilledPrefix | predict.py:20-45 | the results of lines that all fill in are exactly their records |
| PredictOutputExample.IronOreExample | predict.py:26-45 | the template line `12 3 ironore NONE` becomes `12 3 ironore MOVE water soil` when the third triple of paragraph 12 / `ironore` is `(MOVE, water, soil)` |
| SpanAggregation.MaskFill | Model.py:197-198 | after `masked_fill`, tokens whose mask is 0 hold zero vectors and the others keep their source vector |
| SpanAggregation.SumOfFilledIsSelectedSum | Model.py:197-199 | filling and then summing over tokens equals the sum of the component over the tokens the mask selects |
| SpanAggregation.MaskedMean | Model.py:197-205 | per sentence each component times the mask total equals the selected sum; an all-zero total gives the zero vector instead of NaN |
| SpanAggregation.AllZeroIffNoMass | Model.py:200 | the denominator is 0 exactly when the mask row is all zero |
| SpanAggregation.AllZeroMeanIsZero | Model.py:203-205 | an all-zero mask row yields exactly the zero vector |
| SpanAggregation.BinaryTotalIsCount | Model.py:200 | for a 0/1 mask the denominator is the number of selected tokens |
| SpanAggregation.MeanBounded | Model.py:197-201 | for a non-empty 0/1 mask every component of the mean lies between bounds of the selected tokens' components |
| SpanAggregation.MassBounds | Model.py:197-200 | for a 0/1 mask with a selected token the denominator is positive and the selected sum lies between it times the lower and times the upper bound |
| SpanAggregation.MeanOfBounded | Model.py:201 | any vector that scales by the denominator to the selected sums lies within the bounds of the selected components |
| SpanAggregation.SingleTokenMean | Model.py:197-201 | a mask selecting one token with weight 1 yields that token's vector |
| SpanAggregation.SentenceMeans | Model.py:187-207 | one mean of the source's width per sentence of a paragraph |
| SpanAggregation.GetMaskedMean | Model.py:187-207 | fails with AssertionError exactly when the batch differs from `batch_size` or the width from `2 * hidden_size` (line 207); otherwise shape (batch, sentences, width), with the masked mean of each paragraph and sentence |
| SpanAggregation.MaskedInputRow | Model.py:175-182 | a sentence row is twice the width. It is all zero when the entity mask is all zero, and otherwise the entity mean followed by the verb mean |
| SpanAggregation.AbsentEntityIgnoresVerb | Model.py:180-181 | where the entity is absent the row does not depend on the verb mask |
| SpanAggregation.NoVerbGivesZeroVerbHalf | Model.py:176-177 | where the entity is present and no verb is marked, the verb half of the row is zero |
| SpanAggregation.GetMaskedInput | Model.py:171-184 | fails with AssertionError exactly when the verb mask's shape differs from the entity mask's, the token counts differ from the encoder's, or the batch and width differ from `batch_size` and `2 * hidden_size` (lines 179, 182, 207); otherwise gives rows of width `4 * hidden_size` for every sentence of every paragraph |
| SpanAggregation.ParagraphInput | Model.py:175-181 | one input row of twice the width per sentence of a paragraph |
| SpanAggregation.ColumnSumCountsSentences | Model.py:114 | with 0/1 masks the indicator of a token is the number of sentences marking it |
| SpanAggregation.ColumnSumPositiveIff | Model.py:114 | the indicator is positive exactly when some sentence marks the token |
| SpanAggregation.IndicatorAtMostSentences | Model.py:114 | with 0/1 masks the indicator never exceeds the number of sentences |
| SpanAggregation.VerbIndicator | Model.py:110-116 | one single-component vector per token holding the column sum of the verb mask |
| SpanAggregation.GetVerbIndicator | Model.py:110-116 | fails with AssertionError exactly when the batch differs from `batch_size` or the tokens from `max_tokens` (line 115); otherwise shape (batch, tokens, 1) with each paragraph's indicator |
| SpanAggregation.VerbOfTwoSentences | Model.py:114 | a token that is the verb of two sentences gets indicator 2: the sum is not clipped |
| SpanAggregation.TagMask | Model.py:55 | the mask is true exactly where the gold state differs from the padding state |
| SpanAggregation.PaddedSequenceMask | Model.py:55 | a gold sequence padded at its end is masked as its states followed by its padding |
| Training.TotalBatches | train.py:132-135 | the number of batches is the ceiling of instances over batch size: it covers all instances and leaves less than a batch of room |
| Training.TotalBatchesExact | train.py:132-133 | when the batch size divides the instances, the count is exactly the quotient |
| Training.LimitOf | train.py:113-117 | an option of -1 means unbounded, and any other value is itself the bound |
| Training.BestOf | train.py:109 | the best score is minus infinity exactly before the first evaluation |
| Training.BestIsFirstMaximum | train.py:206-213 | the best score is the maximum of all scores. It was first reached `impatience` rounds before the last: every earlier score is lower and no later one higher |
| Training.BestMonotone | train.py:206-207 | the best score never decreases |
| Training.ImpatienceBelowRounds | train.py:208-212 | impatience is smaller than the number of evaluations once there is one |
| Training.AddBatch | train.py:176-179 | adding a batch adds its four counts to the accumulators |
| Training.TotalsAreSums | train.py:174-179 | between resets the accumulated counts equal the sums of the per-batch counts |
| Training.CorrectAtMostPredicted | train.py:176-179 | the accumulated correct counts never exceed the prediction counts when no batch reports more correct than predicted |
| Training.Decide | train.py:206-218 | an improving score saves a best checkpoint and never stops. Otherwise a checkpoint is saved only in `all` mode, and training stops exactly when the impatience reaches the limit |
| Training.ReportCount | train.py:180-183 | the number of report points among the first n batches is at most n, and 0 when none of them is a report point |
| Training.ConsumedAppend | train.py:121-225 | one more epoch appends exactly the first scores of that epoch it consumed to the scores consumed so far |
| Training.DecisionsFollowAppend | train.py:203-218 | appending the decision `Decide` takes on the next score keeps every decision the one taken on its own score after the scores before it |
| Training.StopRuleMeaning | train.py:206-218 | the stop rule holds exactly when training has stopped iff the decision on the last score stops, and no decision on an earlier score stopped |
| Training.DecisionsStopRule | train.py:183-218 | the decisions of one epoch, each `Decide` on its own score with only the last stopping, satisfy the stop rule over the epoch's scores |
| Training.StopRuleChain | train.py:121-225 | an epoch that starts without a stop and obeys the stop rule extends the stop rule of all earlier scores |
| Training.ScoresAfterEpoch | train.py:121-225 | after one more epoch the scores are exactly those consumed by all the epochs so far |
| Training.StopNeedsPatienceExhausted | train.py:216-218 | a stop follows a non-improving round whose impatience is at least a limit other than -1 |
| Training.UnboundedNeverStops | train.py:116-117 | with the impatience option -1 no round stops training |
| Training.Trainer.constructor | train.py:109-117 | the tracker starts with best minus infinity, impatience 0 and epoch 0, and maps -1 options to unbounded limits |
| Training.Trainer.StartEpoch | train.py:127-130 | a new epoch starts with empty accumulators and batch count 0 |
| Training.Trainer.RecordBatch | train.py:174-183 | the batch joins the report window, the count grows by one, and the result says whether the count is a report point |
| Training.Trainer.Evaluate | train.py:206-222 | the decision is `Decide` on the scores so far. An improving score becomes the best and resets impatience, otherwise impatience grows by exactly one. Accumulators are reset unless training stops |
| Training.Trainer.EndEpoch | train.py:225 | the epoch counter grows by one and nothing else changes |
| Training.Trainer.ProcessBatch | train.py:174-222 | the batch count grows by one and a batch evaluates exactly at a report point. Otherwise the batch joins the report window and nothing else changes. An evaluation is `Decide` on the scores before it, appends its score and stops exactly when the decision does; the window is emptied unless training stops |
| Training.Trainer.EpochStep | train.py:138-222 | one batch of an epoch keeps the epoch invariant: one decision per report point so far, each `Decide` on its score after the earlier scores, and only the last one stopping |
| Training.DecisionsStep | train.py:183-218 | the decision taken at the next report point on the scores so far and the next unused score keeps the decisions following `Decide`, keeps only the last one stopping, and extends the consumed scores by that score |
| Training.Trainer.EpochLoop | train.py:138-222 | the batch loop ends after every batch or at the report point where training stopped, and the epoch invariant holds at its end |
| Training.Trainer.RunEpoch | train.py:138-225 | the epoch runs every batch unless it stops at a report point. There is one decision per report point passed, decision i is `Decide` on score i after the earlier scores, the scores grow by the scores consumed, only the last decision can stop, the scores obey the stop rule, and the epoch counter advances unless training stopped |
| Training.Trainer.TrainStep | train.py:121-225 | one epoch keeps the training invariant: every epoch run started below the epoch limit, the scores are those each epoch consumed, and they obey the stop rule. An epoch that stopped training stopped at one of its report points and consumed one score per report point up to it, so at least one |
| Training.Trainer.TrainLoop | train.py:121-225 | the epoch loop ends when training stops, the epoch limit is reached or the supplied epochs run out, with the training invariant holding |
| Training.Trainer.TrainedMeans | train.py:121-225 | under the training invariant, training has stopped exactly when `Decide` on the last new score stops, and `Decide` stopped on no earlier new score |
| Training.Trainer.Train | train.py:121-225 | epochs run until training stops, the epoch limit is reached or the supplied epochs run out. Every epoch run started below the limit. The scores grow by exactly the scores each epoch consumed, and a completed epoch consumed one per report point. Training has stopped exactly when `Decide` on the last new score stops, and `Decide` stopped on no earlier new score. When training stopped, the last epoch run stopped at one of its report points, after consuming one score per report point up to that one, so at least one score: no epoch runs after the stopping one |

## Left out

- The ELMo embedding, the LSTM encoder and decoder, `Linear`, dropout and the CRF log-likelihood and decoding are learned or foreign layers. They are not modelled, and neither are `NCETModel.forward` and the model calls in train.py.
- `utils` and `Constants` are not part of this model:
  - `idx2state` is a parameter map, and `PAD_STATE` is a parameter.
  - The report points of `get_report_time` are a parameter set.
  - `find_allzero_rows` is modelled from its documented meaning, a row whose mask is all zero.
  - `compute_tag_accuracy` is left out.
- Tags form a closed datatype, so a tag outside the six cannot occur. In the code such a tag would behave as follows:
  - At sentence 0, `predict_loc0` fails first: its assertion (predict.py:127) fails, or `loc0` is unbound at predict.py:134 for a `state2idx` key that is not one of the six tags.
  - At a later sentence the `if`/`elif` chain of predict.py:112-117 has no `else`, so the previous sentence's `cur_location` is appended again, a stale location, with no exception.
- `evaluate` and the report averages and messages (train.py:185-204, 233-294) are left out. Each evaluation enters the `Trainer` as its score.
- Checkpoint files, `quit()`, log output and the file reading and writing of `write_output` are I/O:
  - the decision names the checkpoint to save;
  - `stopped` records `quit()`;
  - the template file is a sequence of lines.
- Floating point becomes `real`: NaN and infinities in encoder outputs or scores, rounding, and the float cast of the verb indicator are not modelled.
- Masks are natural numbers. For a negative mask entry the total can be zero while tokens are selected, which yields an infinity rather than NaN. This case is not modelled.
- `GetMaskedMean` and `GetMaskedInput` take rectangular tensors, so a mismatch in batch size can only fail the size assertions. Tensor broadcasting of mismatched shapes, which could raise a runtime error in `masked_fill` or `torch.cat` before an assertion is reached, is not modelled.
- `IsSpace` covers whitespace up to code point 255.
- `ParseInt` does not accept digit-group underscores or non-ASCII digits, which Python's `int()` does.
- `TotalBatches` requires a positive batch size. A batch size of 0 is rejected by the data loader before line 132.
- `Training.Trainer.RunEpoch` assumes one score per batch is available. The scores stand in for `evaluate`.
- `Training.Trainer.Train` reuses one set of report points for all epochs. This holds because `total_batches` does not change from epoch to epoch.
- `PyText.ParseInt`'s own contract states only that a parsed string is non-empty after stripping. What it computes is stated by `PyText.ParseIntToString` and `PyText.NatToStringOfDigits`.

## Findings

| source | as written | input that shows it | evidently intended | confidence | as-written member | corrected member |
|---|---|---|---|---|---|---|
| predict.py:45 | every record is written without a line break, and `strip()` at line 26 has already removed the template's own break | any template of two or more lines whose instances are all stored | one record per line, as in the template | not executed | PredictOutput.AsWrittenGluesRecords | PredictOutput.OneRecordPerLine |
