# Verified model of vLLM's request state, caches and small schedulers

This project models, in Dafny, the stateful algorithms that vLLM keeps outside its kernels and proves
what they guarantee over every run:

- how a request's tokens and text are kept, replicated to a worker, streamed to a client, cut at stop
  strings, split into parallel samples and reassembled (`SequenceData`, `Replication`, `SamplingParams`,
  `Sequences`, `Streaming`, `StopStrings`, `ParallelSampling`, `GroupStreaming`, `FinishedFlag`,
  `SequenceGroups`);
- the pinned LRU cache (`LRUCache`) and the merge of asynchronous iterators (`MergeIterators`);
- the alignment of hidden states with sequence ids (`HiddenStates`);
- the build-time sweep line (`BuildTime`), the bad-word mask (`BadWords`), the CUDA-graph padding table
  (`CudaGraph`), and the ids and greatest values of scalar types (`ScalarTypes`).

`Wrappers`, `OrderedKeys` and `Bits` hold shared definitions: options and results, sequences of distinct
keys, powers of two and bitwise OR.

An object that the code updates in place is a class whose methods are proved equal to functions on a value
(`View()`); the theorems about whole runs are lemmas about those functions. Floating-point numbers are
reals, and logits are reals with minus infinity. Exceptions and failed assertions are `Result`, `Option` or
a returned flag. Tokenizer, detokenizer, sampler and network are parameters or steps of an environment.
`dafny verify dfyconfig.toml` checks everything.

## What turned out not to hold

Each of these promises fails for some inputs; the code is modelled as it is, and the exact condition under
which the promise holds is proved.

- Hold-back for stop strings. The stop checker searches one character further back than the hold-back
  reserves. Text already returned can therefore be taken back when `min_tokens` is at least 2, unless every
  longest stop string ends with an earlier listed shorter one (`StopStrings.NeverRetractsIff`). The same
  condition decides whether delta mode adds up to cumulative mode (`StopStrings.DeltasAddUpIff`) and whether
  a group of any number of samples keeps the texts it has returned (`GroupStreaming.GroupNeverRetractsIff`).
- "The returned output will not contain the stop strings" (vllm/sampling_params.py:128-129) holds on all
  runs if and only if `min_tokens` is at most 1 and the first stop string is part of every other one
  (`StopStrings.NeverContainsStopIff`). In these equivalences the failing direction builds a run from a
  character that occurs in no stop string; the other direction does not use it.
- `best_of` with `n <= 0` is accepted, because `n` is validated after it has been overwritten; the number of
  sequences returned is the number requested if and only if `n >= 1`
  (`ParallelSampling.BestOfReturnsRequestedIff`).
- In streaming parallel sampling the finished flag can be raised by several outputs, up to one per sample
  (`FinishedFlag.FinishedByEveryCall`). It is raised by exactly one if and only if the last call of the run
  is for the member that was first among the remaining ones when the last member finished
  (`FinishedFlag.FinishedOnceIff`). No token is lost or repeated all the same.
- The greatest finite value is wrong exactly for IEEE types with a one-bit exponent
  (`ScalarTypes.FloatingPointMaxIsGreatestIff`).
- The build report fails with a missing key exactly when some target ends before it starts. The first start
  it reports is right exactly when no start is negative or the last entry starts first, and the last end
  exactly when some end is not negative (`BuildTime.SummarizeEntries`).

A remark on a rule the engine keeps: a full snapshot does not clear the list of pending tokens, so a delta
sent after it leaves the copies equal if and only if nothing was pending
(`Replication.SnapshotNeedsNothingPending`). Sampling in the decode stage only keeps the list empty then, and
`Replication.AppendDuringPrefillDuplicates` shows what that rule prevents.

## Model

| member | source | states |
|---|---|---|
| `SequenceData.SequenceData.AppendTokenId` | vllm/sequence.py:283-287 | the token goes to output, pending list and cached list and the log-probability is added; the cached list stays prompt ++ output |
| `SequenceData.SequenceData.UpdateNumComputedTokens` | vllm/sequence.py:316-323 | the count grows by the given number, it succeeds exactly when no more is computed than exists, and the stage becomes decode exactly when nothing is left |
| `SequenceData.SequenceData.ResetStateForRecompute` | vllm/sequence.py:333-340 | computed count, stage and pending list are reset, output and cached tokens are kept |
| `SequenceData.SequenceData.GetDeltaAndReset` | vllm/sequence.py:360-366 | the delta carries the pending tokens and current counters, and the pending list is emptied |
| `SequenceData.SequenceData.ApplyDelta` | vllm/sequence.py:368-373 | tokens are appended to both lists, counters are overwritten, the cached list stays prompt ++ output |
| `SequenceData.SequenceData.GetLastTokenId` | vllm/sequence.py:349-352 | the last token is the last cached one; there is none exactly without prompt and output |
| `SequenceData.ProgressKept` | vllm/sequence.py:283-347 | every run keeps: prefill means something is uncomputed, decode means at most one token is, computed <= length |
| `SequenceData.ScheduledIsUncomputed` | vllm/sequence.py:589-598 | over every run from a non-empty prompt, with chunked prefill and preemption, the number of tokens to schedule is the number of uncomputed tokens whenever work remains |
| `SequenceData.RunSummary` | vllm/sequence.py:283-347 | the state after every run is told by its events alone: the output is what was appended whatever was preempted, the computed count is the sum since the last preemption, and the stage is decode if and only if that sum has reached the length since then |
| `SequenceData.AppendKeepsCountIff` | vllm/sequence.py:589-598 | in the decode stage the two counts agree after an append if and only if everything was computed before it |
| `SequenceData.KeyJoinsToPrefix` | vllm/sequence.py:301-310 | the parts of a prefix key join to exactly the first n tokens, or to all when there are fewer; an output part is present exactly when the prefix is longer than the prompt |
| `SequenceData.KeyCoversBlocks` | vllm/sequence.py:544-545 | the key of a block covers exactly the blocks from the first through that one |
| `SequenceData.KeysEqualIff` | vllm/sequence.py:521-545 | equal keys mean equal token prefixes whatever the prompt/output split; the converse holds exactly when the prefix ends inside both prompts, or outside both and they are equally long |
| `Replication.DrainSnoc` | vllm/worker/worker.py:396-428 | a message sent last is received last: draining the longer queue is receiving it after draining the rest |
| `Replication.DrainRejectsIff` | vllm/worker/worker.py:396-428 | the worker rejects the messages exactly when a delta comes before any snapshot |
| `Replication.StepInv` | vllm/core/scheduler.py:1346-1402 | every enabled engine step succeeds, the worker rejects nothing, and the agreement invariant is kept |
| `Replication.ReplicaAgreement` | vllm/sequence.py:360-373 | in every schedule with arbitrary delays, the drained replica is the driver as last sent and, with the pending tokens, makes up the driver's output; a drained replica equals the driver as last sent |
| `Replication.SendResynchronises` | vllm/core/scheduler.py:1369-1402 | from every reachable state, preempted ones included, one more send makes the drained replica equal to the driver in all fields read; it is a full snapshot exactly when nothing is computed |
| `Replication.DrainDeltas` | vllm/sequence.py:368-373 | with only deltas under way, the drained output is the replica's output followed by the queued tokens |
| `Replication.SnapshotNeedsNothingPending` | vllm/core/scheduler.py:1369-1402 | a delta after a snapshot leaves the copies equal if and only if nothing was pending |
| `Replication.AppendDuringPrefillDuplicates` | vllm/core/scheduler.py:1346-1402 | without the rule that sampling happens in the decode stage, the replica holds a token twice |
| `SamplingParams.LongestStop` | vllm/sampling_params.py:337-337 | the greatest length among the stop strings |
| `SamplingParams.Parameters.Initialise` | vllm/sampling_params.py:285-348 | the parameters are rewritten and then verified; a fresh request is accepted exactly when it meets the conditions as given, and otherwise the first fault is reported |
| `SamplingParams.AcceptedIff` | vllm/sampling_params.py:285-413 | a fresh request is accepted if and only if an explicit condition on it as given holds; the error is the first fault in the order of the checks |
| `SamplingParams.Accepted` | vllm/sampling_params.py:292-337 | an accepted request samples `best_of` sequences and remembers the requested number, or samples `n`; a small positive temperature becomes 0.01; the hold-back is set and nothing else changes |
| `SamplingParams.HoldBackIsLongest` | vllm/sampling_params.py:334-337 | the hold-back is the length of the longest stop string minus one, or zero without stop strings to remove |
| `Sequences.Find` | vllm/engine/output_processor/stop_checker.py:115-117 | the least occurrence not before the start, or none at all |
| `Sequences.CheckStopStrings` | vllm/engine/output_processor/stop_checker.py:93-131 | the loop finds the first listed stop string with an occurrence in its search range, and none means no occurrence there |
| `Sequences.FirstMatchDecides` | vllm/engine/output_processor/stop_checker.py:112-130 | the match is the first place, near the new characters, of the first listed stop string that has one |
| `Sequences.MaybeStopOutcome` | vllm/engine/output_processor/stop_checker.py:30-91 | before the minimum length nothing changes; after it the sequence is stopped if and only if an unignored end token, a stop token or a stop string near the new characters came, else capped if and only if a limit is met; the text is cut accordingly in each case |
| `Sequences.CutMeetsStop` | vllm/engine/output_processor/stop_checker.py:119-129 | a text cut by an included stop string ends with it; otherwise the stop string follows the text that is left |
| `Sequences.Sequence.MaybeStopSequence` | vllm/engine/output_processor/stop_checker.py:30-91 | the object changes as in the value model, and the outcome is the one stated by `MaybeStopOutcome` |
| `Sequences.ReturnedText` | vllm/sequence.py:478-495 | all of a finished text, all but the held-back characters of an unfinished one; a delta is what is missing from the part returned before |
| `Sequences.Sequence.GetOutputTextToReturn` | vllm/sequence.py:478-495 | cumulative text up to the hold-back, or the text between the last offset and it, advancing the offset |
| `Sequences.NewestIsDelta` | vllm/sequence.py:510-519 | the last cached ids, including the single-id shortcut, are exactly the output tokens since the offset |
| `Sequences.Sequence.GetOutputTokenIdsToReturn` | vllm/sequence.py:497-519 | all output tokens, or those since the last call, advancing the offset; a bare id exactly for one new token |
| `Sequences.MatchFacts` | vllm/engine/output_processor/stop_checker.py:112-130 | the match is that of the first listed string found in its range; all earlier ones are absent from theirs |
| `Streaming.CutAfterReturned` | vllm/sequence.py:478-495 | under the safety condition a cut never falls before text that could have been returned |
| `Streaming.ReadInSync` | vllm/outputs.py:167-185 | a read keeps the client equal to the text and tokens before the offsets and brings it to the cumulative output |
| `Streaming.TokenInSync` | vllm/engine/output_processor/single_step.py:115-137 | a token, its characters and the stop check keep the client's text part of the sequence's text |
| `Streaming.RunInSync` | vllm/sequence.py:478-519 | over every run of tokens and reads the client holds exactly the part before the offsets |
| `Streaming.DeltasAddUpToCumulative` | vllm/outputs.py:238-298 | with a safe hold-back, after every read the deltas added up are the cumulative output of that moment in text, tokens and finished flag; for a finished sequence the whole text |
| `Streaming.TokensAddUp` | vllm/sequence.py:497-519 | token deltas add up to the output after every read, whatever the stop rules |
| `StopStrings.NeverRetractsIff` | vllm/sampling_params.py:334-337 | over all runs, prompts and limits, returned text is never taken back if and only if there are no stop strings, or they are included, or `min_tokens <= 1`, or every longest one is shadowed |
| `StopStrings.DeltasAddUpIff` | vllm/outputs.py:238-298 | over all runs, prompts and limits, the deltas add up to the cumulative output after every read if and only if the same condition holds |
| `StopStrings.RetractingRun` | vllm/engine/output_processor/stop_checker.py:112-117 | otherwise a run returns a character and is then cut to the empty text, whatever the limit on tokens |
| `StopStrings.RunStopFree` | vllm/engine/output_processor/stop_checker.py:112-130 | with every token checked and the first stop string part of all others, no run ever holds a stop string |
| `StopStrings.NeverContainsStopIff` | vllm/sampling_params.py:128-129 | finished output is free of stop strings on all runs if and only if `min_tokens <= 1` and the first stop string is part of every other |
| `StopStrings.UncheckedStopSurvives` | vllm/engine/output_processor/stop_checker.py:43-46 | with `min_tokens >= 2` a stop string can remain in the finished output |
| `StopStrings.EarlierStopSurvives` | vllm/engine/output_processor/stop_checker.py:112-130 | if the first stop string is not part of another, that other one can remain in the finished output |
| `ParallelSampling.ChosenAreBest` | vllm/sequence.py:1467-1477 | without `best_of` all members in order; with it the wanted number, ranked by log-probability and then by place, each preferred to every member left out |
| `ParallelSampling.BestOfReturnsRequestedIff` | vllm/sampling_params.py:292-299 | with `best_of`, the requested number is returned if and only if it is at least 1; 0 returns all |
| `ParallelSampling.ReadSync` | vllm/outputs.py:238-255 | reading a delta keeps the tokens collected equal to the part before the offset, and completes a finished member |
| `ParallelSampling.AskFirstAnswers` | vllm/sequence.py:1446-1456 | the call for the first remaining member delivers a delta of every member, in an output marked finished exactly when all members are finished |
| `ParallelSampling.AskRecords` | vllm/outputs.py:188-205 | in every mode a call moves a finished member from one dictionary to the other, and changes no text, token or status |
| `ParallelSampling.RunStreamInv` | vllm/sequence.py:1446-1456 | every order of progress and calls keeps each member's collected tokens in step with its offset, whatever the stop check does to the texts |
| `ParallelSampling.StreamingConserves` | vllm/sequence.py:1388-1456 | streaming loses and repeats no token in any run; every member is in exactly one dictionary; when none remains all tokens are delivered and the last output is marked finished |
| `ParallelSampling.RunAnswerInv` | vllm/sequence.py:1458-1480 | every order keeps: produced exactly when none remains, and then one output that is the answer |
| `ParallelSampling.AnswersExactlyOnce` | vllm/sequence.py:1458-1480 | for every accepted request and every run: no output while a member remains, exactly one afterwards, marked finished, with the full outputs of all `n` members in order, or with `best_of` of the requested number of best ones |
| `GroupStreaming.TokenStepEvolves` | vllm/engine/output_processor/single_step.py:115-137 | a sampled token followed by the stop check is a permitted evolution of an unfinished member |
| `GroupStreaming.AnsweredTextInv` | vllm/outputs.py:238-298 | an answered call brings the client to the cumulative output of every member at once |
| `GroupStreaming.RunTextInv` | vllm/sequence.py:1446-1456 | with a safe hold-back, every run of sampled tokens and calls keeps each member's collected text and tokens equal to the part before its offsets |
| `GroupStreaming.TextConserved` | vllm/sequence.py:1388-1456 | with a safe hold-back, in every run of sampled tokens and calls the texts and tokens collected are prefixes of the members' own, and all of them once none remains |
| `GroupStreaming.GroupFollows` | vllm/outputs.py:188-255 | every stream of a single sequence, up to the event that finishes it, can happen to a member of a group |
| `GroupStreaming.GroupNeverRetractsIff` | vllm/sampling_params.py:334-337 | for any number of samples, the group never takes back returned text if and only if the hold-back is safe |
| `FinishedFlag.AskEffect` | vllm/outputs.py:188-205 | a call raises the finished flag exactly when it is for the first remaining member and all members are finished |
| `FinishedFlag.NotFinishedEarly` | vllm/sequence.py:1449-1456 | in no run is an output marked finished before all members are finished |
| `FinishedFlag.RaisedOnceIff` | vllm/sequence.py:1449-1456 | of the calls that record the finished members, exactly one is for the first of its moment if and only if the last one is for the first of all |
| `FinishedFlag.FinishedOnceIff` | vllm/sequence.py:1449-1456 | a complete run marks exactly one output finished if and only if its last call is for the member that was first when the last member finished; it marks at least one |
| `FinishedFlag.FinishedByEveryCall` | vllm/sequence.py:1449-1456 | for every number of samples a run of sampled tokens from the start marks that many outputs finished |
| `SequenceGroups.ReadShown` | vllm/outputs.py:238-298 | the loop reads every sequence shown once and advances exactly their offsets |
| `SequenceGroups.ParallelSampleSequenceGroup.constructor` | vllm/sequence.py:1404-1444 | `n` fresh sequences, all of them to be finished and all in the assembled group |
| `SequenceGroups.ParallelSampleSequenceGroup.MaybeAssembleGroup` | vllm/sequence.py:1446-1480 | streaming: for the first remaining member; otherwise once, for the finished last one, with all members in order or the best ones selected |
| `SequenceGroups.ParallelSampleSequenceGroup.FinishSeq` | vllm/sequence.py:1388-1392 | the member moves from one dictionary to the other |
| `SequenceGroups.ParallelSampleSequenceGroup.FromSeqGroup` | vllm/outputs.py:188-337 | the objects change, and the output arises, exactly as in the value model used by the run theorems |
| `SequenceGroups.RequestOutput.AddNext` | vllm/outputs.py:167-185 | text and tokens are appended, the finished flag is or-ed, the added output is unchanged |
| `LRUCache.OldestUnpinned` | vllm/utils.py:287-294 | the oldest key that is not pinned, all older ones being pinned; none exactly when all are pinned |
| `LRUCache.PutNeverStuck` | vllm/utils.py:263-301 | over capacity there is always an unpinned key to evict, and `put` keeps capacity, pins and the other values |
| `LRUCache.PutEvictsOldestUnpinned` | vllm/utils.py:283-301 | the evicted key is the oldest unpinned one and the rest keeps its order |
| `LRUCache.LRU.Get` | vllm/utils.py:250-261 | a hit refreshes the key and is counted; a miss returns the default |
| `LRUCache.LRU.TouchKey` | vllm/utils.py:247-248 | a present key becomes the most recent, an absent one is an error and changes nothing |
| `LRUCache.LRU.Pin` | vllm/utils.py:268-275 | only cached keys can be pinned |
| `LRUCache.LRU.Pop` | vllm/utils.py:303-311 | the key leaves order, values and pins together, and its value or the default is returned |
| `LRUCache.LRU.RemoveOldest` | vllm/utils.py:283-297 | fails exactly when all items are pinned; otherwise the oldest (unpinned) key goes |
| `LRUCache.LRU.PutKey` | vllm/utils.py:263-301 | the eviction loop ends without an exception in the state of the specification |
| `LRUCache.LRU.Clear` | vllm/utils.py:313-316 | everything goes, pinned keys included |
| `LRUCache.PinSafety` | vllm/utils.py:263-316 | after every history of operations the pinned keys are cached, the capacity holds, and a further `put` never fails nor drops a pinned key |
| `LRUCache.StackInclusion` | vllm/utils.py:250-301 | on every history of puts and gets, a larger cache keeps all keys of a smaller one, in the same order and with the same values |
| `LRUCache.CachedValueIsLastPut` | vllm/utils.py:263-266 | a cached value is the one last put |
| `LRUCache.RunIsNewest` | vllm/utils.py:250-301 | the order is that of the most recently accessed distinct keys, up to the capacity |
| `LRUCache.CachedIffRecent` | vllm/utils.py:250-301 | a key is cached if and only if fewer than `capacity` distinct keys were accessed since its own last access |
| `MergeIterators.HandleInv` | vllm/utils.py:420-428 | handling a completed task yields the iterator's next item or retires the iterator, keeping one task per live iterator |
| `MergeIterators.StepDecreases` | vllm/utils.py:417-428 | a measure made of the remaining items and the live iterators decreases with every step, so every run ends |
| `MergeIterators.MergeCorrect` | vllm/utils.py:403-428 | in every interleaving the items of each iterator are yielded in order as a prefix, once; bounded length, no deadlock, complete when finished |
| `MergeIterators.Merge` | vllm/utils.py:403-428 | the loops under an arbitrary scheduler end and yield every item of every iterator exactly once |
| `HiddenStates.FlattenSingletons` | vllm/sequence.py:1172-1177 | with one sequence per group, the ids are as many as the groups and in their order |
| `HiddenStates.FlattenConcat` | vllm/sequence.py:1172-1177 | the ids of the groups are listed group after group |
| `HiddenStates.HiddenStates.UpdateRows` | vllm/sequence.py:1224-1241 | ids and rows are appended, with zero rows where the second-last ones are missing |
| `HiddenStates.HiddenStates.PruneTo` | vllm/sequence.py:1243-1259 | fails exactly for an absent id; otherwise the rows are gathered in the requested order |
| `HiddenStates.HiddenStates.ExpandWithBonusTokens` | vllm/sequence.py:1261-1277 | each id has its rows as many places further on as there are bonus ids before it: second-last then last row with a bonus token, only the last row otherwise, and no other rows |
| `HiddenStates.ExpandedByPosition` | vllm/sequence.py:1269-1277 | the same law for the expansion as a function |
| `HiddenStates.AlignmentPreserved` | vllm/sequence.py:1224-1259 | after every run the ids are those last kept followed by those that entered since, in order; each row belongs to its id and holds what came with that id when it last entered |
| `BuildTime.SortEvents` | tools/report_build_time_ninja.py:222-222 | sorted by time with starts before stops, the same records |
| `BuildTime.SliceUniform` | tools/report_build_time_ninja.py:198-204 | the running targets do not change between consecutive records, so slices measure time exactly |
| `BuildTime.SharesSumToBusy` | tools/report_build_time_ninja.py:236-253 | the shares of all targets sum exactly to the time during which at least one runs |
| `BuildTime.FairShareBounded` | tools/report_build_time_ninja.py:73-88 | a weighted duration is non-negative and at most the duration |
| `BuildTime.BusyIsElapsedIffNoGap` | tools/report_build_time_ninja.py:256-260 | the busy time is the elapsed time if and only if some target runs at every instant |
| `BuildTime.IndependentOfInstants` | tools/report_build_time_ninja.py:198-204 | busy time and fair shares are the same whichever ascending instants cut the time, as long as all starts and ends are among them |
| `BuildTime.TotalIsWork` | tools/report_build_time_ninja.py:216-216 | the summed durations are the number of running targets summed over time |
| `BuildTime.StopFindsStart` | tools/report_build_time_ninja.py:223-227 | a stop record follows its start record exactly when the target does not end before it starts |
| `BuildTime.ScanRecords` | tools/report_build_time_ninja.py:236-254 | the scan fails exactly when some target ends before it starts; otherwise every lookup succeeds, each target gets its share and the total is their sum |
| `BuildTime.CollectRecords` | tools/report_build_time_ninja.py:207-218 | one start and one stop record per target and the summed durations; the first start is found exactly when no start is negative or the last entry has it, the last end exactly when some end is not negative |
| `BuildTime.SummarizeEntries` | tools/report_build_time_ninja.py:196-260 | fails exactly for an empty log or a target ending before it starts; weighted durations are fair shares within the durations, their total is the busy time and the CPU time is the running targets summed over time, all independent of the instants; the reported extent is right exactly under the condition above, and then the busy time is the length exactly when there is no idle gap |
| `BadWords.NoBadWordsProcessor.OutOfBounds` | vllm/logits_process.py:107-113 | the ids outside the vocabulary are reported, in the order of the bad words and with repetitions; none exactly when all are in the vocabulary |
| `BadWords.NoBadWordsProcessor.InitWordBias` | vllm/logits_process.py:90-105 | the bias masks exactly the one-token bad words, and is set exactly when all ids are in the vocabulary |
| `BadWords.NoBadWordsProcessor.LastTokenBias` | vllm/logits_process.py:66-84 | masks exactly the tokens that complete a longer bad word; fails exactly on an empty one |
| `BadWords.NoBadWordsProcessor.Call` | vllm/logits_process.py:58-88 | masks exactly the tokens that would end the output with a bad word and returns all other logits unchanged |
| `BadWords.PermittedIffClean` | vllm/logits_process.py:58-88 | an output is built from permitted tokens only if and only if it contains no bad word as a contiguous block |
| `BadWords.GenerationSafe` | vllm/logits_process.py:58-88 | a sampler that avoids masked tokens never produces a bad word |
| `CudaGraph.CompilationConfig.InitWithCudagraphSizes` | vllm/config.py:2995-3042 | configured sizes, each once, override the given ones; the table holds for every batch size up to the largest the least graph size not below it |
| `CudaGraph.CompilationConfig.PadForCudagraph` | vllm/config.py:3166-3171 | answers exactly up to the largest captured size, with the least graph size not below the batch size |
| `CudaGraph.PadMonotoneIdempotent` | vllm/config.py:3166-3171 | padding is monotone, and padding a padded size changes nothing |
| `CudaGraph.V0Members` | vllm/config.py:3330-3354 | the default list is every allowed size up to the first one not below `max_num_seqs`, or up to 8192 |
| `CudaGraph.V0Covers` | vllm/config.py:3330-3354 | for every limit, exactly the batches up to the largest default size can be padded, the limit itself among them if and only if it is at most 8192, and no padding wastes more than 7 |
| `CudaGraph.V1Covers` | vllm/config.py:3355-3359 | exactly the batches up to 512 can be padded, with waste at most 7 |
| `CudaGraph.EagerCapturesNothing` | vllm/config.py:3330-3359 | in eager mode both lists are empty and only the empty batch has a padding |
| `ScalarTypes.PackIsSum` | vllm/scalar_type.py:144-149 | the fields occupy disjoint bit ranges, so OR-ing is adding and the value stays below the total width |
| `ScalarTypes.ExtractField` | vllm/scalar_type.py:144-149 | any field of any layout is read back as the member reduced to its width |
| `ScalarTypes.Id` | vllm/scalar_type.py:134-161 | the loop computes the packed fields in 58 bits, within the asserted 64 |
| `ScalarTypes.IdIsSum` | vllm/scalar_type.py:144-156 | the id spelt out as a number: which member occupies which bits |
| `ScalarTypes.IdRoundTrip` | csrc/core/scalar_type.hpp:142-157 | the C++ decoder recovers every type whose members fit, with a signed bias |
| `ScalarTypes.IdsEqualIff` | vllm/scalar_type.py:134-161 | ids are equal if and only if the members agree modulo their widths; for members that fit, if and only if the types are equal |
| `ScalarTypes.MaxBitsUnits` | vllm/scalar_type.py:74-102 | what the constructed bits decode to |
| `ScalarTypes.MaxIsGreatest` | vllm/scalar_type.py:69-102 | for any width of the target mantissa, the value is that of a finite code and no finite code exceeds it, with one exception |
| `ScalarTypes.FloatingPointMaxIsGreatestIff` | vllm/scalar_type.py:69-106 | a result exists exactly for mantissas up to 52 bits and exponents up to 11, or 10 outside the IEEE mode; it is the greatest finite value of the type if and only if that is not an IEEE type with a one-bit exponent |

## Left out

- Scheduler, block manager, detokenizer, tokenizer and sampler: environment steps with the stated rules.
- Output caching in `from_seq_group` (`use_cache`), log-probability lists, prompts, finish and stop reasons,
  metrics: not part of the conserved data.
- The exact request id strings of parallel samples: members are named by their index.
- `fork`, encoder-decoder groups, pooling outputs, multi-modal data, LoRA and prompt adapters.
- The `output_token_ids` setter of `SequenceData`: it leaves the pending list alone.
- Most arguments of `SamplingParams._verify_args`: independent range checks.
- Replication.ReplicaAgreement: a snapshot is taken as a copy, as serialisation to another process makes it;
  in one process the code shares the object.
- A negative capacity of the LRU cache: `put` would then never end, since removing from an empty cache does
  nothing; the capacity is a natural number here.
- SequenceGroups.ParallelSampleSequenceGroup.FromSeqGroup: excludes calls for a member already recorded as
  finished, a KeyError in the code that the engine never provokes.
- The removal hook, `__getitem__` and the statistics tuple of the LRU cache: easy members.
- Exceptions and cancellation inside `merge_async_iterators`: only runs consumed to the end and their prefixes.
- `get_bad_words_logits_processors`: depends on the tokenizer.
- Negative capture sizes and negative batch sizes (Python would index from the end), and `compile_sizes`.
- Printing, grouping by extension and parsing of the build report.
- The minimum, the names and the NaN predicates of scalar types; for the no-NaN mode only finite codes exist.
- Rounding of floating-point sums in log-probabilities and build times.
