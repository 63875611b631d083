# Verified model of the speech SDK demo and stress clients

The clients under `demo/Linux` drive a speech SDK: worker threads create requests, feed them audio or
text, wait for callbacks of SDK threads, keep statistics and release the requests.  This project
models that logic in Dafny and proves what it guarantees.  The SDK itself is an environment: its
calls return what they like, its callbacks come when they like, and what the clients need it to
promise is an explicit parameter, so that the theorems say which promises are needed.

## Parts

- `TranscriberProtocol`, `TranscriberTheorems`: the workers of the transcriber demo and the callbacks
  of their requests, as interleaved atomic steps around a mutex and a condition variable without a
  predicate.  Any number of workers share `global_run` and the counters.  Theorems hold in every run.
- `TranscriberWorker`: the worker loop as an imperative program whose every pass follows a run.
- `RecognizerMonkey`, `SynthesizerMonkey`, `RequestStatus`: the monkey tests, where worker and
  callbacks write one `status` without a lock.  Each comparison is a read of its own.
- `Splitter`, `Utf8`, `TextSender`: the multi-delimiter splitter on bytes, its reading on characters
  (RFC 3629), and the loop that sends the sentences of a text as C strings.
- `AudioSender`, `Pacing`: `std::ifstream` reads (section 27.7.2.3 of ISO/IEC 14882:2011), the chunk
  sender with its looping-file mode, packet durations, and the paced loop against a virtual clock.
- `Latency`, `SynthesisStats`: wrap-around elapsed times, running and merged statistics, latency
  buckets, connection types.
- `FileTransfer`: the map that the main thread and the callbacks of asynchronous file transfers share.
- `Basics`, `DivMod`: shared types, sequences and division facts.

## What the proofs found

The model does what the code does; where that differs from what its comments promise, the exact
condition is proved.

- In asynchronous mode a request can be released before its Closed event after two waits without
  timeout, exactly when wakeups can be spurious or a callback can outlive its request (`ReleasesAfterClosedExactly`).
- A round that times out skips the test of `loop_count`, so `loop_count` bounds the starts exactly
  when `g_sync_timeout` is positive (`LoopCountExactly`).  Otherwise the bound `loop_count` plus late
  timeouts holds and is reached (`StartBound`, `StartBoundReached`).
- `run_cancel` is the only outcome counter that is not reset between scan passes, so
  the outcomes add up to `run_cnt` exactly when no earlier pass cancelled (`SharedBalance`).
- The recognizer monkey test accepts Started while the status is RequestStop, yet such a callback
  leaves a status that ChannelClosed then reports (`StartedAfterStop`).
- `splitString` also ends for some lists with an empty delimiter (`TerminatesExactly`).
- `sendText` gets C strings, so a NUL drops the rest of its sentence (`NulLosesText`).
- In looping mode `audioFileDataUsedBytes` is the position in the current pass, except for files whose
  length is a multiple of the frame: there it is never reset (`UsedIsCurrentPassExactly`).  The
  looping sender never ends on an empty file, and on another one only if stopped (`SendAudioLoop`).
- The recorded minimum uses 0 for "none yet": a zero sample or a thread without events resets it
  (`MinExactly`, `MergedMinIsPooledExactly`), and it can exceed the average
  (`MergedMinBelowAveExactly`).
- Data before any started event makes `firstConsumed` run ahead of `startedConsumed`
  (`FirstPacketExactly`).
- A file-transfer task gets its id after `applyFileTrans` has returned, so main may insert a copy under
  the empty key.  A terminal copy there makes `waitComplete` leave early or never
  (`LeavesOnlyWhenDoneExactly`, `LeavesWhenCalledBackExactly`).  A terminal copy under the right key lets
  it leave before the callback, which then writes to a map that main drops
  (`LeavesOnlyAfterCallbacksExactly`).

## Model

| member | source | states |
|---|---|---|
| TranscriberTheorems.WokenRoundExactly | demo/Linux/funAsrTranscriberDemo.cpp:1179-1432 | in every run of well-behaved callbacks a round ends in a stop wait that a signal ended if and only if Started woke the start wait and Closed woke the stop wait: two waits consumed two distinct signals |
| TranscriberTheorems.ReleasesAfterClosedExactly | demo/Linux/funAsrTranscriberDemo.cpp:1423-1432 | in asynchronous mode release only after Closed holds over all interleavings if and only if there are no spurious wakeups and no callback outlives its request |
| TranscriberTheorems.SpuriousWitness | demo/Linux/funAsrTranscriberDemo.cpp:1183-1392 | with spurious wakeups a run releases a request for which no signal was ever sent |
| TranscriberTheorems.LateWitness | demo/Linux/funAsrTranscriberDemo.cpp:1191-1432 | when callbacks outlive their request, a run releases the next request before its Closed signal |
| TranscriberTheorems.LostStartTimesOut | demo/Linux/funAsrTranscriberDemo.cpp:1179-1205 | if Started is signalled before the start wait, no continuation ends that round in an un-timed-out stop wait |
| TranscriberTheorems.FateStays | demo/Linux/funAsrTranscriberDemo.cpp:349-352 | within a round a lost or consumed Started signal stays so over every continuation of the run |
| TranscriberTheorems.MutexOnlyInWait | demo/Linux/funAsrTranscriberDemo.cpp:1182-1412 | in every reachable state the worker holds the mutex exactly between its lock and unlock outside the wait, and never at the head of a round |
| TranscriberTheorems.ExactlyOnce | demo/Linux/funAsrTranscriberDemo.cpp:1024-1446 | over every run with any mix of failures and timeouts each created request is created once and released once, unless it is the live one; none is live at the head of a round or at exit |
| TranscriberTheorems.LegalCalls | demo/Linux/funAsrTranscriberDemo.cpp:1024-1446 | the calls of every worker in every run replay legally and end with the live request of the worker |
| TranscriberTheorems.NothingAfterRelease | demo/Linux/funAsrTranscriberDemo.cpp:1431-1432 | in a legal sequence of calls nothing is called on a request after its release |
| TranscriberTheorems.ReleasedBetween | demo/Linux/funAsrTranscriberDemo.cpp:1033-1432 | between two creations the first request is released: at most one is live per worker |
| TranscriberTheorems.LogCounts | demo/Linux/funAsrTranscriberDemo.cpp:1024-1446 | a legal sequence of calls creates each id below the count exactly once and releases it exactly once unless it is live |
| TranscriberTheorems.LogIds | demo/Linux/funAsrTranscriberDemo.cpp:1024-1446 | a legal sequence of calls only ever concerns created requests |
| TranscriberTheorems.WorkerBalance | demo/Linux/funAsrTranscriberDemo.cpp:1025-1352 | at each loop head and exit starts = start failures + cancels + stops, and `requestConsumed` is starts plus one for a NULL request |
| TranscriberTheorems.SharedBalance | demo/Linux/funAsrTranscriberDemo.cpp:2740-2750 | when all workers have exited, `run_cnt` plus the cancels of earlier passes is `run_start_failed + run_cancel + Σ stops`; without that term if and only if earlier passes left none |
| TranscriberTheorems.CountersExactly | demo/Linux/funAsrTranscriberDemo.cpp:1025-1352 | in every run each counter of a worker is the number of its steps of that kind: requests asked for, starts, failed starts, cancels, stops, and timeouts |
| TranscriberTheorems.StartBound | demo/Linux/funAsrTranscriberDemo.cpp:1435-1446 | in every run a worker makes at most `loop_count` starts plus its rounds that time out at the limit, hence plus all its timed-out rounds |
| TranscriberTheorems.StartBoundReached | demo/Linux/funAsrTranscriberDemo.cpp:1199-1203 | in asynchronous mode, for every number of late timeouts some run reaches the bound, so no smaller one holds |
| TranscriberTheorems.LoopCountExactly | demo/Linux/funAsrTranscriberDemo.cpp:1435-1446 | `loop_count` bounds the starts of every worker in every run if and only if `g_sync_timeout` is positive |
| TranscriberTheorems.TimedOutRound | demo/Linux/funAsrTranscriberDemo.cpp:1183-1203 | a whole round whose start wait times out comes back to the head of the loop with one more start, whatever `loop_count` is |
| TranscriberTheorems.NoDeadlock | demo/Linux/funAsrTranscriberDemo.cpp:1182-1446 | in every reachable state a worker that has not exited, or its callback, can take a step |
| TranscriberProtocol.RunInv | demo/Linux/funAsrTranscriberDemo.cpp:1024-1446 | every run of any number of workers keeps the mutex, lifecycle, counter, bound and signal invariants and the shared sums |
| TranscriberProtocol.SystemInvStep | demo/Linux/funAsrTranscriberDemo.cpp:1150-1192 | one step of one worker keeps the invariants of all workers, although `global_run` and the counters are shared |
| TranscriberProtocol.SignalCallbackStep | demo/Linux/funAsrTranscriberDemo.cpp:854-857 | a signal wakes at most one wait and is lost when nobody waits: callbacks keep the accounting of wakeups |
| TranscriberProtocol.SignalWorkerStep | demo/Linux/funAsrTranscriberDemo.cpp:1182-1412 | worker steps keep the accounting: each wait that ended without timeout is paid for by one signal of the round |
| TranscriberProtocol.BoundWorkerStep | demo/Linux/funAsrTranscriberDemo.cpp:1199-1446 | worker steps keep the start bound at every program point, also on the timeout paths that skip the count test |
| TranscriberWorker.WorkerThread.PthreadFunction | demo/Linux/funAsrTranscriberDemo.cpp:1024-1446 | the loop as a program: for all outcomes of its calls it goes on exactly until a round gets no request, fails to start, or finds `global_run` reset, by an interruption or by the limit, and at least once; its calls are exactly those of the rounds it met, in order, with one `sendAudio` per frame on the request of the round; the counters balance, every created request is released exactly once, and the starts are at most `loop_count` plus the rounds that timed out |
| TranscriberWorker.RoundCallsExactly | demo/Linux/funAsrTranscriberDemo.cpp:1149-1432 | the calls of a round one by one, for a failed start, a start timeout, and a served request |
| TranscriberWorker.LoopSends | demo/Linux/funAsrTranscriberDemo.cpp:1226-1322 | in the calls of any rounds each request is sent as many frames as its round has, and none if it did not start |
| TranscriberWorker.EndsLoopExactly | demo/Linux/funAsrTranscriberDemo.cpp:1199-1446 | when a round ends the loop, in terms of what it meets: the limit does not count behind a timeout |
| TranscriberWorker.WorkerThread.Pass | demo/Linux/funAsrTranscriberDemo.cpp:1024-1446 | one pass makes the calls of its round on the next request and leaves the loop exactly if `global_run` was reset before or its outcome ends the loop |
| TranscriberWorker.WorkerThread.Continue | demo/Linux/funAsrTranscriberDemo.cpp:1149-1446 | a round makes exactly the calls its outcome asks for, counts one start and one of failure, cancel or stop, leaves no live request, sets `global_run` as its outcome asks for, and leaves the loop exactly after a start failure or a timeout with `global_run` reset |
| TranscriberWorker.WorkerThread.CreateRequest | demo/Linux/funAsrTranscriberDemo.cpp:1025-1040 | counts the request, creates the next one or exits on NULL, and changes nothing else |
| TranscriberWorker.WorkerThread.StartRequest | demo/Linux/funAsrTranscriberDemo.cpp:1149-1166 | counts the start and its failure, and goes to release, to the start wait or, in synchronous mode, to sending |
| TranscriberWorker.WorkerThread.OpenRequest | demo/Linux/funAsrTranscriberDemo.cpp:1149-1205 | start and start wait: exactly the requests whose start neither failed nor timed out go on to sending; failures and cancels are counted |
| TranscriberWorker.WorkerThread.Wait | demo/Linux/funAsrTranscriberDemo.cpp:1182-1205 | a wait section follows the protocol: cancel or release after a timeout, send or release otherwise, and calls nothing but `getTaskId` |
| TranscriberWorker.WorkerThread.SendFrames | demo/Linux/funAsrTranscriberDemo.cpp:1226-1322 | appends exactly one `sendAudio` per frame on the request of the round, and no other call |
| TranscriberWorker.WorkerThread.StopRequest | demo/Linux/funAsrTranscriberDemo.cpp:1349-1412 | one `stop`, counted, then release or, in asynchronous mode after success, the stop wait |
| TranscriberWorker.WorkerThread.ServeRequest | demo/Linux/funAsrTranscriberDemo.cpp:1226-1412 | the frames, one counted stop, and the stop wait: the request is to be released for the reason of the outcome |
| TranscriberWorker.WorkerThread.CancelRequest | demo/Linux/funAsrTranscriberDemo.cpp:1191-1192 | cancels once, counts the cancel, and goes to release |
| TranscriberWorker.WorkerThread.ReleaseRequest | demo/Linux/funAsrTranscriberDemo.cpp:1427-1432 | releases the live request and goes where its reason leads: out, to the timeout test, or to the count test |
| TranscriberWorker.WorkerThread.CloseRequest | demo/Linux/funAsrTranscriberDemo.cpp:1427-1446 | the release and what follows: `global_run` survives exactly without interruption and, behind the count test, below the limit; out of the loop exactly after a start failure, or after a timeout with `global_run` reset |
| TranscriberWorker.WorkerThread.AfterTimeout | demo/Linux/funAsrTranscriberDemo.cpp:1199-1203 | leaves if and only if `global_run` is reset, and goes on past the count test otherwise |
| TranscriberWorker.WorkerThread.CountRounds | demo/Linux/funAsrTranscriberDemo.cpp:1435-1446 | `global_run` stays set exactly when it was set, nothing interrupts and the limit is not reached |
| RecognizerMonkey.LegalExactly | demo/Linux/speechRecognizerMonkeyTest.cpp:190-332 | no callback finds its status out of place in any interleaving if and only if all ten clauses about the order of events hold |
| RecognizerMonkey.CallbacksSilent | demo/Linux/speechRecognizerMonkeyTest.cpp:196-330 | under the ten clauses every run keeps the status one the running callback still compares with, so nothing is reported |
| RecognizerMonkey.Breaks | demo/Linux/speechRecognizerMonkeyTest.cpp:196-330 | for each clause that is dropped, whatever the others, some run reports a status |
| RecognizerMonkey.StartedAfterStop | demo/Linux/speechRecognizerMonkeyTest.cpp:196-202 | Started after RequestStop passes its own check and makes ChannelClosed report |
| RecognizerMonkey.LegalHeadExactly | demo/Linux/speechRecognizerMonkeyTest.cpp:390-396 | every round begins on Invalid or Released in all interleavings if and only if no callback outlives the release |
| RecognizerMonkey.HeadSilent | demo/Linux/speechRecognizerMonkeyTest.cpp:390-602 | when releases wait for callbacks, every run keeps the status Invalid or Released between rounds |
| RecognizerMonkey.LoopHeadBalanced | demo/Linux/speechRecognizerMonkeyTest.cpp:406-602 | at every loop head and at exit creates equal releases, under any order of events |
| RecognizerMonkey.WholeCallback | demo/Linux/speechRecognizerMonkeyTest.cpp:190-332 | a whole callback leaves RequestStarted, RequestRunning only over RequestStarted, RequestFailed or RequestClosed, adds one message for exactly the statuses it does not accept, and changes nothing else |
| RecognizerMonkey.CoursesExactly | demo/Linux/speechRecognizerMonkeyTest.cpp:390-610 | between rounds a worker has made exactly one of six sequences of calls and assignments, with each request the statuses Created, Start, Stop as far as it came and Released at the end, and each sequence can occur |
| RecognizerMonkey.RoundsOnCourse | demo/Linux/speechRecognizerMonkeyTest.cpp:390-610 | in every run and under any order of events the worker is on one of these courses |
| RecognizerMonkey.HeadCheck | demo/Linux/speechRecognizerMonkeyTest.cpp:390-396 | the check at the head of a round reports exactly the statuses other than Invalid and Released, once |
| RecognizerMonkey.QuietBeforeStart | demo/Linux/speechRecognizerMonkeyTest.cpp:413-499 | no callback begins before `start()` of the request is called |
| RecognizerMonkey.RoundCallbackStep | demo/Linux/speechRecognizerMonkeyTest.cpp:190-332 | each read and write of a callback keeps the invariant between status and what the round has seen |
| RecognizerMonkey.RoundWorkerStep | demo/Linux/speechRecognizerMonkeyTest.cpp:499-602 | each step of the worker keeps that invariant while a callback is between two of its reads |
| SynthesizerMonkey.LegalExactly | demo/Linux/flowingSynthesizerMonkeyTest.cpp:195-355 | no callback finds a wrong status if and only if callbacks come only after RequestStart and, with `special_type` 1, none survives `cancel()`, otherwise none survives the release |
| SynthesizerMonkey.CallbacksSilent | demo/Linux/flowingSynthesizerMonkeyTest.cpp:211-350 | under that contract every run keeps the status right while a callback compares |
| SynthesizerMonkey.WholeCallback | demo/Linux/flowingSynthesizerMonkeyTest.cpp:195-355 | from every reachable state a whole callback leaves RequestFailed after TaskFailed, RequestClosed after ChannelClosed and RequestRunning after the others, with one message for exactly the four wrong statuses, and changes nothing else |
| SynthesizerMonkey.LegalHeadExactly | demo/Linux/flowingSynthesizerMonkeyTest.cpp:419-424 | every round begins on Invalid or Released if and only if no callback survives the release, or every started round is cancelled and no callback comes early or survives `cancel()` |
| SynthesizerMonkey.HeadSilent | demo/Linux/flowingSynthesizerMonkeyTest.cpp:419-684 | under that condition every run has status Invalid or Released between rounds, over early release, start failure, cancel, sendText failure and normal exits |
| SynthesizerMonkey.LoopHeadBalanced | demo/Linux/flowingSynthesizerMonkeyTest.cpp:434-677 | at every loop head and at exit creates equal releases, whichever exits the rounds took |
| SynthesizerMonkey.CoursesExactly | demo/Linux/flowingSynthesizerMonkeyTest.cpp:419-684 | between rounds a worker has made exactly one of the possible sequences of calls and assignments, over early release, start failure, cancel with RequestCancelled, sendText failure, stop and cancel, and each can occur |
| SynthesizerMonkey.RoundsOnCourse | demo/Linux/flowingSynthesizerMonkeyTest.cpp:419-684 | in every run the worker is on one of these courses |
| SynthesizerMonkey.HeadCheck | demo/Linux/flowingSynthesizerMonkeyTest.cpp:420-424 | the check at the head of a round reports exactly the statuses other than Invalid and Released, once |
| SynthesizerMonkey.QuietBeforeStart | demo/Linux/flowingSynthesizerMonkeyTest.cpp:439-521 | no callback begins before `start()` of the request is called |
| SynthesizerMonkey.EarlyCallback | demo/Linux/flowingSynthesizerMonkeyTest.cpp:521-538 | a callback between the return of `start()` and the assignment of RequestStart reports |
| SynthesizerMonkey.CallbackAfterCancel | demo/Linux/flowingSynthesizerMonkeyTest.cpp:546-564 | a callback after the assignment of RequestCancelled reports |
| SynthesizerMonkey.Compares | demo/Linux/flowingSynthesizerMonkeyTest.cpp:276-285 | the four comparisons report exactly the four wrong statuses |
| Splitter.SplitString | demo/Linux/demo_utils.cpp:109-142 | for every input on which the loop ends the result is the pieces between the leftmost matches, ties to the earliest-listed delimiter |
| Splitter.TerminatesExactly | demo/Linux/demo_utils.cpp:115-139 | the loop ends if and only if no delimiter is empty or the text is tiled by the delimiters listed before the first empty one |
| Splitter.SplitUnique | demo/Linux/demo_utils.cpp:115-139 | a list of tokens cuts the text at every leftmost match, as stated without the algorithm, if and only if it is the one computed |
| Splitter.SplitIsTokenization | demo/Linux/demo_utils.cpp:121-133 | the tokens cut the text at every leftmost match and nowhere else |
| Splitter.JoinRebuilds | demo/Linux/demo_utils.cpp:131-137 | pieces alternated with the matched delimiters rebuild the input |
| Splitter.OnlyLastUndelimited | demo/Linux/demo_utils.cpp:134-138 | only the last piece can lack a delimiter, and then it is not empty |
| Splitter.PiecesDelimiterFree | demo/Linux/demo_utils.cpp:119-133 | no piece contains any delimiter |
| Splitter.ScanStep | demo/Linux/demo_utils.cpp:121-127 | one more delimiter in the inner loop keeps the earliest position and the earliest-listed tie |
| Splitter.ScanFindsLeftmost | demo/Linux/demo_utils.cpp:119-128 | the inner loop finds the leftmost cut of what is left of the text |
| Splitter.FirstListedIsEarliest | demo/Linux/demo_utils.cpp:119-128 | of the delimiters that match at a position the one cut at has the smallest index |
| Splitter.ScanIgnoresEmpty | demo/Linux/demo_utils.cpp:119-133 | on an input where the loop ends no empty delimiter is ever the one cut at |
| Utf8.DecodeEncode | demo/Linux/flowingSynthesizerDemo.cpp:1014-1016 | encoding characters gives valid UTF-8 that decodes to them |
| Utf8.EncodeDecode | demo/Linux/flowingSynthesizerDemo.cpp:1014-1016 | valid UTF-8 is the encoding of its characters |
| Utf8.RfcExamples | demo/Linux/flowingSynthesizerDemo.cpp:1015-1016 | the encoding agrees with the examples of RFC 3629 for one to four octets |
| Utf8.MatchAtBoundary | demo/Linux/demo_utils.cpp:121 | in encoded text an encoded delimiter matches at character boundaries only, and matches there as characters |
| Utf8.ByteSplitIsCharacterSplit | demo/Linux/demo_utils.cpp:109-142 | for valid UTF-8 text and delimiters splitting bytes is splitting characters, token by token |
| Utf8.PiecesValidExactly | demo/Linux/demo_utils.cpp:132-136 | all pieces are valid UTF-8 if and only if the text is |
| TextSender.DelimiterFacts | demo/Linux/flowingSynthesizerDemo.cpp:1015-1017 | the five delimiters are not empty and are the UTF-8 encodings of their characters |
| TextSender.EndsSentenceExactly | demo/Linux/flowingSynthesizerDemo.cpp:1015-1017 | the five delimiters byte by byte |
| TextSender.SentencesOfCharacters | demo/Linux/flowingSynthesizerDemo.cpp:1015-1018 | cutting the bytes of a valid text at the five delimiters is cutting its characters |
| TextSender.IsNotEmptyAndNotSpace | demo/Linux/demo_utils.cpp:93-107 | true if and only if the pointer is not NULL and before the first NUL there is a byte other than 9 to 13 and 32 |
| TextSender.SendPieces | demo/Linux/flowingSynthesizerDemo.cpp:1020-1039 | the run ends at the first refused sentence or behind the first sentence after which `global_run` is reset, having sent exactly the non-blank sentences before; otherwise it sends all of them |
| TextSender.SendableExactly | demo/Linux/flowingSynthesizerDemo.cpp:1020-1027 | what there is to send, piece by piece: the bytes before the first NUL of each piece with such a byte, and nothing of the others |
| TextSender.InkExactly | demo/Linux/demo_utils.cpp:101-104 | ink is what remains of a string without the bytes 9 to 13 and 32 |
| TextSender.SendSentences | demo/Linux/flowingSynthesizerDemo.cpp:1014-1051 | the same for a text, and a negative result if and only if a sentence was refused |
| TextSender.UndisturbedSendsAll | demo/Linux/flowingSynthesizerDemo.cpp:1020-1039 | if no send fails and nothing interrupts, exactly the non-blank sentences are sent, in order |
| TextSender.UntruncatedExactly | demo/Linux/flowingSynthesizerDemo.cpp:1024 | every sentence reaches the SDK whole if and only if the text has no NUL |
| TextSender.NothingLost | demo/Linux/flowingSynthesizerDemo.cpp:1018-1039 | exactly the non-blank sentences are sent if and only if the text has no NUL, and then no byte that is not white space is lost from them |
| TextSender.SentIsValid | demo/Linux/flowingSynthesizerDemo.cpp:1024 | everything sent of a valid text is valid UTF-8, also when a NUL cuts it short |
| TextSender.SentDelimiterFree | demo/Linux/flowingSynthesizerDemo.cpp:1018-1024 | nothing that is sent contains a delimiter |
| TextSender.NulLosesText | demo/Linux/flowingSynthesizerDemo.cpp:1024 | a concrete text with a NUL of which the rest is not sent |
| AudioSender.Ifstream.Read | demo/Linux/funAsrTranscriberDemo.cpp:1230-1231 | a read returns what is left up to the frame, sets both bits when short, and does nothing on a bad stream |
| AudioSender.ChunksPartition | demo/Linux/funAsrTranscriberDemo.cpp:1226-1231 | the frames partition the file, ceil(len/frame) in number, all but the last full |
| AudioSender.SendAudioLoop | demo/Linux/funAsrTranscriberDemo.cpp:1226-1324 | the accepted chunks are a prefix of the frames, all of them on a clean finish; in looping mode they and their bytes are a prefix of the infinite repetition; the byte counter is exact in both modes; the looping sender accepts a chunk at least every other read and ends if and only if the file is not empty and some send fails or `global_run` is reset |
| AudioSender.LoopedPrefixAt | demo/Linux/funAsrTranscriberDemo.cpp:1314-1318 | byte i of a looped prefix is byte i mod len of the file |
| AudioSender.LoopedPrefixFrom | demo/Linux/funAsrTranscriberDemo.cpp:1314-1318 | the converse: these bytes make a looped prefix |
| AudioSender.UsedIsCurrentPassExactly | demo/Linux/funAsrTranscriberDemo.cpp:1314-1318 | in looping mode `audioFileDataUsedBytes` is the position in the current pass if and only if the length is not a multiple of the frame or the first pass is not over |
| AudioSender.PassWrap | demo/Linux/funAsrTranscriberDemo.cpp:1232-1239 | rewinding at the end of the file starts the next pass of the repetition |
| Pacing.TimeDefinedExactly | demo/Linux/demo_utils.cpp:175-192 | the duration of a packet is defined, without division by zero or overflow, if and only if the sample rate is at least 500 in absolute value and fits |
| Pacing.TruncDivExactly | demo/Linux/demo_utils.cpp:189 | the quotient drops its fraction towards zero |
| Pacing.BytesPerMsExactly | demo/Linux/demo_utils.cpp:177-186 | a millisecond is two bytes a sample: the sample rate over 500 |
| Pacing.TimeIsMs | demo/Linux/demo_utils.cpp:182-191 | for every supported rate the duration is the size over a 500th of the sample rate, in whole milliseconds |
| Pacing.DriftExactly | demo/Linux/demo_utils.cpp:189 | timing packets one by one loses exactly the bytes that each packet rounds away |
| Pacing.DriftBounds | demo/Linux/demo_utils.cpp:189 | Σ ms(pᵢ) ≤ ms(Σ pᵢ) ≤ Σ ms(pᵢ) + k − 1 for any split into k packets |
| Pacing.WholeFramesLoseNothing | demo/Linux/speechRecognizerDemo.cpp:1011 | frames of whole milliseconds play exactly as long as the file |
| Pacing.FramesExactly | demo/Linux/speechRecognizerDemo.cpp:1011 | the frames play as long as the file if and only if full frames and the last one together round away less than a millisecond, in terms of the two lengths only |
| Pacing.FramesRemainderIs | demo/Linux/speechRecognizerDemo.cpp:1011 | what the frames of a file round away, from the two lengths |
| Pacing.PacedSendLoop | demo/Linux/speechRecognizerDemo.cpp:951-1020 | sends exactly the frames of the file before the first refusal; the clock is exactly the sum over the packets, so at least 1000·Σ ms(chunkᵢ) µs, and at least the duration of the file for frames of whole milliseconds |
| Pacing.PaceOne | demo/Linux/speechRecognizerDemo.cpp:985-1018 | a packet takes its playing time or its sending time, whichever is longer, and the overhead |
| Pacing.SendAudioSleepTime | demo/Linux/demo_utils.cpp:206-212 | the pause is the playing time of the packet |
| Pacing.PaceableExactly | demo/Linux/speechRecognizerDemo.cpp:1011-1018 | a packet can be paced if and only if neither its size nor its pause in microseconds overflows an `int` |
| Pacing.NoFasterThanPlaying | demo/Linux/speechRecognizerDemo.cpp:951-1020 | the paced clock is at least the playing time of all packets and at least the time of all calls |
| Latency.ElapsedModulo | demo/Linux/flowingSynthesizerDemo.cpp:267-276 | the branching computation with wrap-around and the direct one both are the difference modulo 2^64, for all times |
| Latency.ElapsedExactly | demo/Linux/flowingSynthesizerDemo.cpp:335-339 | they give the elapsed whole milliseconds if and only if the clock has not gone back and the difference in microseconds fits 64 bits |
| Latency.ObserveIsMetric | demo/Linux/funAsrTranscriberDemo.cpp:309-326 | the running update keeps count, sum, maximum, floor mean and the minimum after the last zero sample |
| Latency.MeanMeans | demo/Linux/funAsrTranscriberDemo.cpp:321-326 | the fields in numbers: the count, the sum as long as it fits 64 bits, and the average times the count at most the sum and less than one count below it |
| Latency.ExtremesMean | demo/Linux/funAsrTranscriberDemo.cpp:309-320 | the maximum is the largest sample, and the minimum the smallest as long as no sample is zero |
| Latency.MinExactly | demo/Linux/funAsrTranscriberDemo.cpp:313-320 | the recorded minimum is the minimum if and only if no sample is zero or the last one is |
| Latency.MergeStepIsMerged | demo/Linux/flowingSynthesizerDemo.cpp:2080-2094 | one more thread in the merge keeps pooled count and maximum, sum of means, and the minimum after the last zero |
| Latency.MergedMinExactly | demo/Linux/flowingSynthesizerDemo.cpp:2086-2092 | for all samples and threads the merged minimum is that of the samples after the last zero, of the threads after the last one that is empty or ends in zero; 0 if there are none |
| Latency.MergedMinIsPooledExactly | demo/Linux/flowingSynthesizerDemo.cpp:2086-2092 | the merged minimum is the pooled minimum if and only if, with a zero sample anywhere, the last thread is empty or ends in zero, and without one, the smallest sample comes after the last empty thread |
| Latency.MergedMinIsPooled | demo/Linux/flowingSynthesizerDemo.cpp:2086-2092 | it is the pooled minimum when no thread is empty |
| Latency.EmptyThreadHidesMin | demo/Linux/flowingSynthesizerDemo.cpp:2086-2092 | a concrete case where an empty last thread hides it |
| Latency.MergedAveBelowMax | demo/Linux/flowingSynthesizerDemo.cpp:2151-2154 | merged average ≤ merged maximum for all samples and threads, wrapped totals included |
| Latency.MergedMinBelowAve | demo/Linux/flowingSynthesizerDemo.cpp:2151-2154 | merged minimum ≤ merged average for positive samples, no empty thread and totals that fit 64 bits |
| Latency.MergedMinBelowAveExactly | demo/Linux/flowingSynthesizerDemo.cpp:2086-2154 | for given places of zero samples, merged minimum ≤ merged average whatever the other samples are if and only if the last thread is empty or ends in zero, or all samples are positive and no thread is empty |
| Latency.OnesAboveAve | demo/Linux/flowingSynthesizerDemo.cpp:2086-2154 | otherwise the same zeros with every other sample 1 give a merged minimum above the merged average |
| Latency.MinAboveAve | demo/Linux/flowingSynthesizerDemo.cpp:2086-2154 | two concrete such inputs: an empty thread, and a zero sample in front of another one |
| SynthesisStats.FindConnectType | demo/Linux/demo_utils.cpp:74-91 | the text between the first key and the next quote, and empty exactly when there is none or it is empty |
| SynthesisStats.ConnectTypeOf | demo/Linux/demo_utils.cpp:75-87 | letter by letter: what stands between the first `"connect_type":"` and the next quote |
| SynthesisStats.ParamStruct.OnSynthesisStarted | demo/Linux/flowingSynthesizerDemo.cpp:250-300 | after the callback all fields are the statistics of the events with this one added |
| SynthesisStats.ParamStruct.OnSynthesisCompleted | demo/Linux/flowingSynthesizerDemo.cpp:314-376 | the same for a completed event, with the direct time formula and the average audio duration |
| SynthesisStats.AudioAveMeans | demo/Linux/flowingSynthesizerDemo.cpp:368-372 | behind a completed event the average duration times the number of completed events is the total duration, less than one such number off |
| SynthesisStats.ParamStruct.OnSynthesisTaskFailed | demo/Linux/flowingSynthesizerDemo.cpp:383-412 | the same for a failed event |
| SynthesisStats.ParamStruct.OnSynthesisChannelClosed | demo/Linux/flowingSynthesizerDemo.cpp:423-490 | the same for a closed event, connection type included |
| SynthesisStats.ParamStruct.OnBinaryDataRecved | demo/Linux/flowingSynthesizerDemo.cpp:536-592 | the same for a data packet: its duration is added, and only the first packet after each started event is measured |
| SynthesisStats.AudioDrift | demo/Linux/flowingSynthesizerDemo.cpp:536-537 | the summed durations of k packets are at most the duration of all their bytes and fall short of it by at most k − 1 milliseconds |
| SynthesisStats.ParamStruct.CountRequest | demo/Linux/flowingSynthesizerDemo.cpp:821 | one more request, nothing else changes |
| SynthesisStats.ParamStruct.CountStart | demo/Linux/flowingSynthesizerDemo.cpp:942 | the time of a `start()` is added, nothing else changes |
| SynthesisStats.ParamStruct.CountStop | demo/Linux/flowingSynthesizerDemo.cpp:1061-1063 | the time of a `stop()` is added and the stop counted, nothing else changes |
| SynthesisStats.ParamStruct.CountLatency | demo/Linux/flowingSynthesizerDemo.cpp:574-591 | exactly the one bucket that the latency belongs to goes up |
| SynthesisStats.ParamStruct.CountConnection | demo/Linux/flowingSynthesizerDemo.cpp:467-482 | exactly the counter of the connection type goes up, none for an unknown type |
| SynthesisStats.TypesByName | demo/Linux/flowingSynthesizerDemo.cpp:469-481 | which counter goes up for each of the six names |
| SynthesisStats.BucketsAddUp | demo/Linux/flowingSynthesizerDemo.cpp:574-591 | the eight buckets add up to the number of measured packets |
| SynthesisStats.OneBucket | demo/Linux/flowingSynthesizerDemo.cpp:574-591 | no latency belongs to two buckets |
| SynthesisStats.BucketLimits | demo/Linux/flowingSynthesizerDemo.cpp:574-591 | the bounds of the eight buckets in milliseconds |
| SynthesisStats.EventSamples | demo/Linux/flowingSynthesizerDemo.cpp:264-541 | which sample each event contributes to which metric: the whole milliseconds since `start()` |
| SynthesisStats.PacketSeenExactly | demo/Linux/flowingSynthesizerDemo.cpp:298-541 | a packet counts as seen if and only if data has arrived and no started event after it |
| SynthesisStats.ConnectAddUp | demo/Linux/flowingSynthesizerDemo.cpp:467-482 | the six counters add up to the closed events with a known type, hence to at most `closeConsumed` |
| SynthesisStats.FirstPacketBound | demo/Linux/flowingSynthesizerDemo.cpp:539-541 | `firstConsumed` ≤ `startedConsumed` + 1 over every sequence of events |
| SynthesisStats.FirstPacketPerStart | demo/Linux/flowingSynthesizerDemo.cpp:298-541 | `firstConsumed` ≤ `startedConsumed` if a started event precedes all data |
| SynthesisStats.FirstPacketExactly | demo/Linux/flowingSynthesizerDemo.cpp:298-541 | `firstConsumed` ≤ `startedConsumed` at all times if and only if a started event precedes all data |
| SynthesisStats.StrayFirstPacket | demo/Linux/flowingSynthesizerDemo.cpp:539-541 | the larger bound is reached when data comes first |
| SynthesisStats.MergeAll | demo/Linux/flowingSynthesizerDemo.cpp:2069-2155 | the merge over all workers gives pooled counts, maxima, buckets, failures and connection counters, the sum of the averages divided by the number of workers, the minima of the late samples, and the sum of each API count; no average exceeds its maximum |
| SynthesisStats.MeanOfMeans | demo/Linux/flowingSynthesizerDemo.cpp:2095-2154 | when all threads have equally many samples the merged average is the pooled mean or one less |
| FileTransfer.SharedRequests.Callback | demo/Linux/fileTransferDemo.cpp:130-158 | the entry under the id of the result becomes that result, every other entry stays |
| FileTransfer.SharedRequests.InsertStarted | demo/Linux/fileTransferDemo.cpp:260-261 | with an entry under the key nothing changes; otherwise exactly the copy is added under it |
| FileTransfer.CountEvents | demo/Linux/fileTransferDemo.cpp:178-189 | the recount counts the completed and the failed entries |
| FileTransfer.WaitComplete | demo/Linux/fileTransferDemo.cpp:169-201 | leaves at the first recount that finds as many terminal entries as started tasks, and without one if none was started |
| FileTransfer.TerminalMap | demo/Linux/fileTransferDemo.cpp:147-263 | whatever the order, when all have called back the map holds each started task's result under its id and nothing else, except perhaps an entry under the empty key, which needs an id set late |
| FileTransfer.Confluent | demo/Linux/fileTransferDemo.cpp:147-263 | two orders in which the tasks end the same give the same map but for the empty key, and the same map if ids are set first |
| FileTransfer.NeverOverwritten | demo/Linux/fileTransferDemo.cpp:149-153 | over every continuation of a run a terminal entry stays as it is |
| FileTransfer.ResultIsAsEnded | nlsCppSdk/token/src/FileTrans.cpp:151-220 | in every run a task that has ended has its own id, and the event and text it ended with |
| FileTransfer.MapIsAsEnded | demo/Linux/fileTransferDemo.cpp:147-153 | when a task has called back, the map has under its id the event and text it ended with |
| FileTransfer.LeavesExactly | demo/Linux/fileTransferDemo.cpp:177-189 | when all started tasks have called back the next recount is the last if and only if there is no terminal entry under the empty key |
| FileTransfer.LeavesOnlyWhenDoneExactly | demo/Linux/fileTransferDemo.cpp:169-201 | `waitComplete` leaves only when every started task has its result, in all orders, if and only if ids are set before main reads them, or main copies before there is a result, or there is at most one task |
| FileTransfer.LeavesOnlyAfterCallbacksExactly | demo/Linux/fileTransferDemo.cpp:169-201 | it leaves only after the callbacks of all started tasks, in all orders, if and only if main copies before there is a result or there is no task |
| FileTransfer.LeavesWhenCalledBackExactly | demo/Linux/fileTransferDemo.cpp:169-201 | after all callbacks the next recount is the last, in all orders, if and only if ids are set before main reads them, or main copies before there is a result, or there is no task |
| FileTransfer.RunInv | nlsCppSdk/token/src/FileTrans.cpp:134-347 | every interleaving of main and task threads keeps each entry a copy of its task's request, of now or earlier, and counts the started tasks |

## Left out

- AudioSender.SendAudioLoop: the parameter `iterations` bounds how much of a run is observed, because the looping sender need not end; every prefix of every run is covered.
- Pacing.PacedSendLoop: takes sample rates from 500 on and chunks for which `sleepMs * 1000` fits an `int`, outside of which the arithmetic of the source is undefined or the durations are negative; `TimeDefinedExactly` says where the division is defined.
- TranscriberWorker.WorkerThread.PthreadFunction: the program does not interleave with callbacks by itself; for waits that end without timeout it follows the run in which the awaited signal arrives. What holds in all interleavings is proved of the protocol.
- FileTransfer.WaitComplete: a recount sees one state of the map; insertions that race with the iteration over `std::map` are undefined in the source.
- SynthesisStats.MergeAll: the averages of API times and everything printed afterwards.
- The SDK behind the calls (connections, tokens, encoders, pools, event threads): calls return any result, and callbacks follow the stated contracts only. A worker has one callback under way at a time, of whichever of its requests, so that in the transcriber a late callback holds up those of the next request; in the monkey tests callbacks do not come before `start()` is called.
- Data races on counters, flags and maps: increments, reads, writes and map operations are atomic steps.
- The width of plain counters and of merged sums: `uint64_t` and `uint32_t` counts and the sums over workers are natural numbers. Elapsed times, the totals behind the averages and the audio durations do wrap around at 64 bits.
- `loop_count` and `global_run` in the monkey tests: the loop test reads either value.
- `pthreadLongConnectionFunction`: one request for all rounds instead of one per round.
- The `onMessage` mode of the transcriber: it sends the same two signals from one callback.
- Waiting between rounds, `timedwait_flag` and the delay before the callback parameters are freed.
- `std::isspace` in locales other than "C"; delimiters are the UTF-8 bytes of the source file.
- Console output, logs, dumped audio, signal handlers as such, profiling, argument parsing, wav-file listing, random choices (all choices are allowed).
- `paraformerTranscriberDemo.cpp`, the Android demos and the exits of the synthesizer demo's worker: variants with different release handling.
