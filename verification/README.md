# Proofs about rocket's core components

The project models seven components of the repository's `rocket/libs` and proves what they
promise. Each module follows one component; `SeqFacts` holds the slice laws the proofs call by
name.

* **Worker pool** (`TaskPool`, `TaskHistory`, `TaskProgress`, `TaskHazards`, `ThreadQueue`). Any
  number of `queue_worker` loops and outside pushers over one `thread_queue`, as a state machine
  whose steps are the sections that run uninterrupted: the unlocked test at the top of `wait_data`, the locked
  test, the wake-up, `empty()`, `top()`, `safe_pop`, the task's core, and the push of a ring task's
  successor. A run is any sequence of enabled steps; `notify_one` may wake any sleeper. `TaskQueue`
  is the shared object, updated in place, each method one step that keeps the guarantees.
  `wait_data` waits under `if`, so a notified worker that finds the queue drained exits for good.
  Still, without spurious wake-ups some worker stays, work never lies in front of sleepers only,
  runs without endless tasks end with all work done, and fair endless runs pop every task. All
  workers but one can indeed be lost, and a single spurious wake-up can take the last.
* **UTF-8, UTF-16, UTF-32** (`Utf8Core`, `Utf8Checked`, `Utf8Repair`, `Utf16`, `Utf8Unchecked`).
  An octet is a `bv8`, a UTF-16 word a `bv16`, a `uint32_t` a `bv32`, so shifts, masks and
  wrap-around are those of the source. The references are sections 3 and 4 of RFC 3629 and
  sections 2.1 and 2.2 of RFC 2781, written down independently of the code. An output iterator is
  a sequence growing at its end; an exception is an out-parameter.
* **MD5** (`Md5Spec`, `Md5`, `Md5Known`). The streaming object with its state, two-word bit counter, 64-byte
  buffer and padding through `update`, against sections 3.1 to 3.5 of RFC 1321. `final` restores
  the state and the counter but not the buffer, so `digest()` keeps the message exactly when the
  padding does not wrap around the buffer (or the overwritten tail happens to equal what was
  written over it). `_finished` never stays true, because `final` calls `update`.
* **LRU with ageing** (`LruSpec`, `LruCells`, `Lru`, `LruEmptyKey`). A linked list of keys and
  blanks with a map of list positions, against the unbounded most-recently-used stack of its whole
  history. A node carries its identity, which is what a list iterator denotes. `uniq_method` is its
  client. The empty key is the blank marker; what caching it does is proved for every history.
* **Chunked HTTP bodies** (`Chunked`, `ChunkedSize`, `ChunkedTransfer`, `ChunkedClient`). The resumable parser, the
  response it fills and decodes, and the read-more loop around it, against section 4.1 of RFC 7230. The terminator is
  recognised only directly behind a chunk, whatever memory stands there; `parsed_length()` adds
  absolute offsets. The theorems say exactly when framing, resuming, `right(parsed_length())` and a
  transfer in many reads work.
* **Rigger traversal** (`Rigger`, `RiggerOrder`). Configuration objects with parents, children and default
  arguments; a call visits them in positive or reverse order. A journal is the record of one call:
  an invocation enters it only with that call's order and command name. An acyclic graph is given
  by its set of objects and a rank that falls along every edge.
* **Base64 and the hex-complement cipher** (`Base64`, `EncryptStr`), as composed at
  `village/doctor/bus.cpp:324`. Encoding is stated bit by bit as in section 4 of RFC 4648. Decoding
  never strips padding, since it compares a char with a multi-character literal.

Where a promise is false of the code, the lemma named `...Iff` gives the exact condition.
`Md5Spec.DigestDamagesMessage` and the last lemmas of `ChunkedTransfer` are concrete inputs on the
failing side.

## Model

| member | source | states |
|---|---|---|
| TaskPool.StepKeepsStaffed | rocket/libs/task/task_queue.h:33-46 | Every step but a spurious wake-up keeps the invariant: an empty queue leaves a live worker that is not notified, a non-empty one a live worker that is not asleep. |
| TaskPool.RunKeepsStaffed | rocket/libs/task/task_queue.cpp:8-19 | The invariant holds after every interleaving without spurious wake-ups, for any number of workers and pushers. |
| TaskPool.PoolNeverDiesOrSleepsOnWork | rocket/libs/task/task_queue.h:33-86 | From a start with at least one worker, at every moment some worker is live, and some live worker is not asleep whenever there is work. |
| TaskPool.ExitIsForever | rocket/libs/task/task_queue.cpp:10 | In an endless run an exited worker stays exited. |
| TaskPool.SomeWorkerNeverExits | rocket/libs/task/task_queue.cpp:8-53 | In every endless run one and the same worker never exits, and the number of workers stays what it was. |
| TaskPool.AwakeWorkerPops | rocket/libs/task/task_queue.cpp:10-19 | A worker that is not asleep takes the head of a non-empty queue in exactly as many of its own steps as its place in the loop says, six at most. |
| TaskPool.HeadCanAlwaysBePopped | rocket/libs/task/task_queue.cpp:8-19 | In every reachable state with work some worker can take the head by itself, in at most six steps. |
| TaskHistory.EveryRunIsFifo | rocket/libs/task/task_queue.h:71-86 | In every interleaving what was pushed is what was popped, in order, followed by the queue, and a worker works on what it popped last. |
| TaskHistory.PushedIsPoppedThenQueued | rocket/libs/task/task_queue.cpp:13-28 | Each pushed task is popped by one worker, in push order, although several workers may have read the same head outside the lock. |
| TaskHistory.RunKeepsBalance | rocket/libs/task/task.cpp:58-69 | Conservation: in every run, for a core that no endless ring task carries, runs done plus runs still owed by queue and workers equal the runs handed in. |
| TaskHistory.RingRunsExactlyTimes | rocket/libs/task/task.cpp:58-69 | At every moment of every run, with any number of workers: the ring tasks of a core, n times in all and none of them endless, have run it at most n times, and exactly n times if and only if neither queue nor workers hold any more runs of it. |
| TaskHistory.RotatedAt | rocket/libs/task/task.cpp:65-67 | The queue after j turns of taking the head and putting it back holds at i what stood at (i + j) mod k. |
| TaskHistory.EndlessRingsRotate | rocket/libs/task/task.cpp:58-69 | One worker and k endless ring tasks: turn j runs task j mod k in every run, a turn comes round every six steps exactly, and the worker never sleeps or exits. |
| TaskProgress.StepKeepsCount | rocket/libs/task/task.cpp:58-69 | Conservation of pops: pops done plus pops that queue and workers still stand for equal those handed in, n + 1 for a ring task of n times. |
| TaskProgress.StepIsPaid | rocket/libs/task/task_queue.cpp:8-19 | No step of any worker is free: each uses up effort that only a pop or a push gives back. |
| TaskProgress.EveryRunEnds | rocket/libs/task/task_queue.cpp:8-53 | Without endless tasks and spurious wake-ups every run of W workers, with any joins, has at most (5W + 11) steps for every pop handed in, and 4W more. |
| TaskProgress.EveryRunEndsWithAllDone | rocket/libs/task/task.cpp:58-69 | Where such a run can go no further the queue is empty, some worker waits for more work, and every core has run exactly as often as its tasks say. |
| TaskProgress.SoloRunEndsWithAllDone | rocket/libs/task/task.cpp:58-69 | One worker and nobody joining: a run ends after exactly six steps for every pop and two to fall asleep, and only then; then a ring task of n times has run its core exactly n times and left the queue. |
| TaskProgress.SoloRingRun | rocket/libs/task/task.cpp:58-69 | One worker and one ring task of n times: the run ends after exactly 6n + 8 steps, with n + 1 pops and n runs of the core. |
| TaskProgress.EveryPushIsPopped | rocket/libs/task/task_queue.cpp:8-53 | Liveness: in every endless run that is fair to its workers, with any number of workers and joins, the k-th pushed task is popped at last, as the k-th. |
| TaskProgress.SomebodyPops | rocket/libs/task/task_queue.cpp:10-19 | In such a run a non-empty queue with an awake worker sees one more pop. |
| TaskHazards.OneMoreExits | rocket/libs/task/task_queue.h:40-44 | As long as two workers are left, some run without spurious wake-ups lets a notified worker find the queue drained and exit. |
| TaskHazards.AllButOneMayExit | rocket/libs/task/task_queue.h:40-44 | For every pool size and every k below it some run without spurious wake-ups loses k workers, so the bound of one is exact. |
| TaskHazards.PoolDiesIffSpurious | rocket/libs/task/task_queue.h:40-44 | A pool of any size can lose all its workers with at most j spurious wake-ups if and only if j is one or more, since the wait stands under an if. |
| TaskHazards.OneSpuriousWakeUpKills | rocket/libs/task/task_queue.h:40-44 | The run that does it, for every pool size: all workers but one are lost without spurious wake-ups, and one such wake-up takes the last. |
| TaskHazards.TopOfEmptyIffSeveralWorkers | rocket/libs/task/task_queue.h:62-65 | The unlocked top() meets an empty queue in some run if and only if there are two workers or more. |
| TaskHazards.SoloRunIsSafe | rocket/libs/task/task_queue.cpp:13-19 | With one worker no run ever reads top() of an empty queue. |
| TaskHazards.TwoWorkersRace | rocket/libs/task/task_queue.cpp:13-19 | With two workers or more there is a run that does. |
| ThreadQueue.TaskQueue.constructor | rocket/libs/task/thread_task.cpp:24-38 | The started pool: every worker at its loop head over an empty queue, with all guarantees in force. |
| ThreadQueue.TaskQueue.SafePush | rocket/libs/task/task_queue.h:81-86 | The task goes to the back and at most one sleeper is notified, one exactly when there is one. |
| ThreadQueue.TaskQueue.JoinTask | rocket/libs/task/thread_task.cpp:58-61 | A push from outside. Keeps first-in-first-out, some worker for the work, and the tally of runs and pops. |
| ThreadQueue.TaskQueue.WaitDataUnlocked | rocket/libs/task/task_queue.h:35-38 | The unlocked test of wait_data. Keeps first-in-first-out, some worker for the work, and the tally of runs and pops. |
| ThreadQueue.TaskQueue.WaitDataLocked | rocket/libs/task/task_queue.h:39-43 | The locked test, falling asleep on an empty queue. Keeps first-in-first-out, some worker for the work, and the tally of runs and pops. |
| ThreadQueue.TaskQueue.WaitDataResumed | rocket/libs/task/task_queue.h:42-44 | After the wait the queue is looked at once, and finding it empty ends the worker. Keeps first-in-first-out, some worker for the work, and the tally of runs and pops. |
| ThreadQueue.TaskQueue.TestEmpty | rocket/libs/task/task_queue.cpp:13-14 | The loop's own test for an empty queue. Keeps first-in-first-out, some worker for the work, and the tally of runs and pops. |
| ThreadQueue.TaskQueue.Top | rocket/libs/task/task_queue.h:62-65 | The unlocked read of the head, any value on an empty queue. Keeps first-in-first-out, some worker for the work, and the tally of runs and pops. |
| ThreadQueue.TaskQueue.Pop | rocket/libs/task/task_queue.h:71-80 | Pops under the mutex what is the head now, not what top() saw, and says whether there was anything. Keeps first-in-first-out, some worker for the work, and the tally of runs and pops. |
| ThreadQueue.TaskQueue.Execute | rocket/libs/task/task.cpp:58-62 | Runs the core unless the ring task's count is used up. Keeps first-in-first-out, some worker for the work, and the tally of runs and pops. |
| ThreadQueue.TaskQueue.CreateNextRing | rocket/libs/task/task.cpp:63-67 | Counts a positive count down and pushes the successor ring task. Keeps first-in-first-out, some worker for the work, and the tally of runs and pops. |
| ThreadQueue.TaskQueue.WorkAlone | rocket/libs/task/task_queue.cpp:8-53 | The worker loop of a single undisturbed worker ends asleep over an empty queue, with everything pushed popped in order and every core run exactly as often as its tasks say. |
| Utf8Core.ScanMatchesRfc | rocket/libs/text/utf8/core.h:222-272 | Decoding succeeds if and only if a character of section 4 of RFC 3629 stands in front; what it decodes re-encodes to exactly the octets consumed. |
| Utf8Core.ScanErrors | rocket/libs/text/utf8/core.h:137-272 | Exactly when each of the five errors is reported, stated without the order of the checks; overlong means that the code point has a shorter encoding. |
| Utf8Core.EncodeMatchesRfc | rocket/libs/text/utf8/checked.h:78-94 | The encoder writes a well-formed character of RFC 3629 whose payload bits are the code point. |
| Utf8Core.EncodeShape | rocket/libs/text/utf8/core.h:98-132 | An encoding's lead octet announces its length, only trail octets follow and it is not overlong. |
| Utf8Core.EncodeAssembles | rocket/libs/text/utf8/core.h:152-218 | The decoder's arithmetic undoes the encoder's for every valid code point. |
| Utf8Core.AcceptedIsUtf8Char | rocket/libs/text/utf8/core.h:253-267 | After the right trail octets, validity and the overlong test together accept exactly the grammar of RFC 3629. |
| Utf8Core.LeadRanges | rocket/libs/text/utf8/core.h:98-113 | The length a lead octet announces, by the octet ranges 00-7F, C0-DF, E0-EF and F0-F7; the trail octets are 80-BF. |
| Utf8Core.AssembleIsRfcNumber | rocket/libs/text/utf8/core.h:152-218 | The decoder's shifts and sums are the number in the payload bits of section 3 of RFC 3629, for any octets. |
| Utf8Core.RfcNumberOfEncode | rocket/libs/text/utf8/unchecked.h:37-58 | Up to 0x1FFFFF, surrogates and numbers beyond the last code point included, the octets written carry the number. |
| Utf8Core.ScanOfEncode | rocket/libs/text/utf8/core.h:222-272 | Every valid code point decodes back from its encoding, whatever octets follow. |
| Utf8Core.CheckTrailsMeaning | rocket/libs/text/utf8/core.h:137-147 | The chain of increase_safely calls runs out of room, or meets a non-trail octet, exactly when one comes first. |
| Utf8Core.IncreaseSafely | rocket/libs/text/utf8/core.h:137-147 | Moves one octet on and says whether that was the end, a non-trail octet or a trail octet. |
| Utf8Core.GetSequence1 | rocket/libs/text/utf8/core.h:152-161 | Reads a one-octet sequence. |
| Utf8Core.GetSequence2 | rocket/libs/text/utf8/core.h:163-176 | Reads a two-octet sequence, or reports the first thing wrong with its trail octets. |
| Utf8Core.GetSequence3 | rocket/libs/text/utf8/core.h:178-195 | The same for three octets. |
| Utf8Core.GetSequence4 | rocket/libs/text/utf8/core.h:197-218 | The same for four octets. |
| Utf8Core.ValidateNext | rocket/libs/text/utf8/core.h:222-272 | UTF8_OK if and only if a well-formed character stands there; otherwise the iterator and the caller's code point are left alone. |
| Utf8Core.FindInvalid | rocket/libs/text/utf8/core.h:287-297 | Returns the end of the longest valid front part: what comes before is valid and nothing well-formed starts there. |
| Utf8Core.DecodeEncodeAll | rocket/libs/text/utf8/checked.h:248-264 | Decoding the encodings of any list of valid code points gives the list back. |
| Utf8Core.EncodeDecodeAll | rocket/libs/text/utf8/checked.h:248-264 | Encoding the decoded code points of any valid string gives the string back. |
| Utf8Core.ValidIffEncoded | rocket/libs/text/utf8/core.h:287-303 | The valid strings are exactly the encodings of lists of valid code points. |
| Utf8Core.ValidPrefixIsValid | rocket/libs/text/utf8/core.h:287-297 | What a scan consumes before its first error is valid, and nothing well-formed starts where it stops. |
| Utf8Checked.Append | rocket/libs/text/utf8/checked.h:72-96 | Appends the RFC 3629 encoding of a valid code point, or throws with the code point and appends nothing. |
| Utf8Checked.Next | rocket/libs/text/utf8/checked.h:136-154 | Reads the character that stands there; throws not_enough_room exactly when the range ends in trail octets before the announced length, invalid_utf8 with the lead octet for a bad lead, a non-trail octet or an overlong form, invalid_code_point otherwise; and does not move when it throws. |
| Utf8Checked.ExceptionByOctets | rocket/libs/text/utf8/checked.h:136-154 | Each exception of next if and only if a condition on the octets of the range holds, without the order of the checks. |
| Utf8Checked.WalkExceptionByOctets | rocket/libs/text/utf8/checked.h:196-204 | A forward walk ends with the exception that the octets behind the longest valid front part cause, under the same conditions. |
| Utf8Checked.Prior | rocket/libs/text/utf8/checked.h:162-175 | Steps back to the last non-trail octet and reads there; throws when there is none. |
| Utf8Checked.PriorFindsLast | rocket/libs/text/utf8/checked.h:162-175 | Self-synchronisation: behind an encoded code point the backward step stops at its start and reads it, whatever stands before. |
| Utf8Checked.BackwardsOfEncoded | rocket/libs/text/utf8/checked.h:162-175 | Repeated backward steps over encoded code points list them in reverse. |
| Utf8Checked.PriorListsBackwards | rocket/libs/text/utf8/checked.h:162-175 | On every valid string the backward walk lists the forward walk's code points in reverse. |
| Utf8Checked.WalkThrows | rocket/libs/text/utf8/checked.h:257-264 | A forward walk ends without an exception if and only if the string is valid. |
| Utf8Checked.Utf8To32 | rocket/libs/text/utf8/checked.h:257-264 | Writes the code points before the first error and throws if and only if the range is not valid. |
| Utf8Checked.Utf32To8 | rocket/libs/text/utf8/checked.h:248-255 | Writes all encodings, or those before the first invalid code point, which it throws. |
| Utf8Checked.Distance | rocket/libs/text/utf8/checked.h:196-204 | Counts the code points, with the exception of a walk that meets an error. |
| Utf8Repair.RepairLaws | rocket/libs/text/utf8/checked.h:98-127 | With a valid replacement the repair is valid UTF-8, unchanged by a second repair and the input itself when that was valid. |
| Utf8Repair.RepairStopsIffTruncated | rocket/libs/text/utf8/checked.h:109-110 | The repair runs out of room if and only if the input ends in a lead octet that promises more than is left, with only trail octets behind it. |
| Utf8Repair.RepairAfterValid | rocket/libs/text/utf8/checked.h:105-108 | A valid front part is copied through and the rest repaired by itself. |
| Utf8Repair.RepairDefect | rocket/libs/text/utf8/checked.h:111-123 | Each maximal ill-formed run becomes exactly one mark. |
| Utf8Repair.TruncatedEnd | rocket/libs/text/utf8/checked.h:109-110 | A truncated end writes neither a mark nor the octets that are there. |
| Utf8Repair.ThrowOnDefectByOctets | rocket/libs/text/utf8/checked.h:109-123 | With a replacement that is no code point: nothing is thrown for valid input, not_enough_room when the first thing wrong is a truncated end, and the replacement otherwise. |
| Utf8Repair.StepKeepsTruncation | rocket/libs/text/utf8/checked.h:101-124 | No turn of the loop creates or removes a truncated end. |
| Utf8Repair.ReplaceInvalid | rocket/libs/text/utf8/checked.h:98-127 | Terminates on every input and writes the repair; throws on a truncated end, or at the first defect when the replacement is no code point. |
| Utf8Repair.CopyOctets | rocket/libs/text/utf8/checked.h:106-107 | Copies the consumed character. |
| Utf8Repair.SkipTrails | rocket/libs/text/utf8/checked.h:121-122 | Skips exactly the trail octets behind a defect's first octet. |
| Utf16.JoinMatchesRfc | rocket/libs/text/utf8/checked.h:216 | The wrapping surrogate sum is section 2.2 of RFC 2781, and encoding the result gives the pair back. |
| Utf16.Encode16MatchesRfc | rocket/libs/text/utf8/checked.h:238-243 | The words written for a code point are those of section 2.1 of RFC 2781. |
| Utf16.ThrowsIffUnpaired | rocket/libs/text/utf8/checked.h:211-226 | utf16to8 throws if and only if some surrogate stands without its partner. |
| Utf16.ThrowPlace | rocket/libs/text/utf8/checked.h:209-229 | Everything before the place where utf16to8 throws is well formed and converted; a lead surrogate throws the word behind it, or itself at the end, and a lone trail surrogate itself. |
| Utf16.Scan16Facts | rocket/libs/text/utf8/checked.h:210-226 | What one turn takes off the input re-encodes to it, and leaves the well-formedness of the rest what it was. |
| Utf16.EncodeDecode16 | rocket/libs/text/utf8/checked.h:206-246 | Re-encoding the code points of any well-formed UTF-16 string gives the string back. |
| Utf16.DecodeEncode16 | rocket/libs/text/utf8/checked.h:206-246 | Decoding the UTF-16 encoding of any list of valid code points gives the list back and does not throw. |
| Utf16.Utf16RoundTrip | rocket/libs/text/utf8/checked.h:206-246 | UTF-16 to UTF-8 to UTF-16 is the identity on every well-formed UTF-16 string. |
| Utf16.Utf8RoundTrip | rocket/libs/text/utf8/checked.h:206-246 | UTF-8 to UTF-16 to UTF-8 is the identity on every valid UTF-8 string. |
| Utf16.TakeCodePoint | rocket/libs/text/utf8/checked.h:210-226 | Joins a pair, passes a single word, and throws the word that has no partner. |
| Utf16.Utf16To8 | rocket/libs/text/utf8/checked.h:206-231 | Writes the conversion of what comes before the first unpaired surrogate and throws if and only if there is one. |
| Utf16.Utf8To16 | rocket/libs/text/utf8/checked.h:233-246 | Writes the conversion of what comes before the first error and throws if and only if the input is not valid. |
| Utf8Unchecked.UncheckedRefinesScan | rocket/libs/text/utf8/unchecked.h:60-89 | At a well-formed character the unchecked reading and its length are the checked ones. |
| Utf8Unchecked.Append | rocket/libs/text/utf8/unchecked.h:37-58 | Writes what the checked append writes, without the validity test. |
| Utf8Unchecked.Next | rocket/libs/text/utf8/unchecked.h:60-89 | For every range in which a well-formed character starts here, same position and code point as the checked next. |
| Utf8Unchecked.Prior | rocket/libs/text/utf8/unchecked.h:97-103 | Same position and code point as the checked prior whenever that one succeeds. |
| Utf8Unchecked.Utf8To32 | rocket/libs/text/utf8/unchecked.h:168-175 | On valid input the same result as the checked conversion. |
| Utf8Unchecked.Utf8To16 | rocket/libs/text/utf8/unchecked.h:144-157 | On valid input the same result as the checked conversion. |
| Utf8Unchecked.Utf16To8 | rocket/libs/text/utf8/unchecked.h:129-142 | On well-formed input the same result as the checked conversion. |
| Utf8Unchecked.TakeCodePoint | rocket/libs/text/utf8/unchecked.h:133-138 | Joins whatever word follows a lead surrogate without looking at it. |
| Md5Spec.DecodeEncodeWord | rocket/libs/md5.cpp:309-328 | decode reads back the word encode wrote, low-order byte first. |
| Md5Spec.CountAdds | rocket/libs/md5.cpp:162-165 | The two-word counter with its carry test is eight times the length modulo 2^64. |
| Md5Spec.CountIndex | rocket/libs/md5.cpp:160 | The buffer fill read off the counter is the length modulo 64 although the counter has wrapped. |
| Md5Spec.FoldBlock | rocket/libs/md5.cpp:173-176 | One more whole block is one more transform. |
| Md5Spec.RoomForPadding | rocket/libs/md5.cpp:201-210 | When the tail is below 56 bytes, padding and length leave it in the buffer. |
| Md5Spec.PaddingWraps | rocket/libs/md5.cpp:201-210 | Otherwise the buffer ends up as zeros and the length. |
| Md5Spec.FourOperations | rocket/libs/md5.cpp:227-298 | Four operations in place, each on the next register, are four of the 64 operations of section 3.4 of RFC 1321 with the registers back in their roles. |
| Md5.BlockLoopStopsIff | rocket/libs/md5.cpp:175 | The 32-bit loop test ends the block loop in time if and only if buffer fill and input together stay below 2^32. |
| Md5Spec.DigestDamagesMessage | rocket/libs/md5.cpp:215-217 | A concrete message, 56 bytes of one, that digest() turns into zeros. |
| Md5.Hasher.constructor | rocket/libs/md5.cpp:110-120 | A new object holds the empty message. |
| Md5.Hasher.Reset | rocket/libs/md5.cpp:110-120 | Starts over with the empty message and the initial state of RFC 1321. |
| Md5.Hasher.Transform | rocket/libs/md5.cpp:221-304 | The 64 in-place operations and the additions give the block function of section 3.4 of RFC 1321, defined operation by operation with rotating registers. |
| Md5.Hasher.Decode | rocket/libs/md5.cpp:322-328 | Reads a block as sixteen words, low-order byte first. |
| Md5.Hasher.AddCount | rocket/libs/md5.cpp:162-165 | Adds eight times the length to the two-word counter, modulo 2^64. |
| Md5.Hasher.TransformBlocks | rocket/libs/md5.cpp:169-177 | Folds the filled buffer and then every whole block of the input, and stops less than a block before its end. |
| Md5.Hasher.CopyToBuffer | rocket/libs/md5.cpp:184 | Overwrites just that part of the buffer. |
| Md5.Hasher.Update | rocket/libs/md5.cpp:153-185 | The object now holds the message with the input appended: state is the fold over whole blocks, counter the bit length, buffer front the tail. Taken for exactly the inputs on which the block loop ends in time. |
| Md5.Hasher.Encode | rocket/libs/md5.cpp:309-317 | Writes words as bytes, low-order byte first. |
| Md5.Hasher.AppendPadding | rocket/libs/md5.cpp:201-210 | The two updates inside final make the state the fold over the padded message. |
| Md5.Hasher.Finalize | rocket/libs/md5.cpp:190-218 | The digest is that of section 3 of RFC 1321; afterwards the object holds the message that the unrestored buffer stands for. |
| Md5.Hasher.DigestBytes | rocket/libs/md5.cpp:100-107 | Every call recomputes the digest of the message held, since the finished flag never stays set; it leaves the message intact if and only if its tail is below 56 bytes or equals what the padding wrote over it. |
| Md5.HashParts | rocket/libs/md5.cpp:153-218 | However a message is split into updates, the digest is that of the whole. |
| Md5Known.DigestOfAbc | rocket/libs/md5.cpp:190-304 | The digest of "abc" is the one in section A.5 of RFC 1321, which fixes constants, shifts, word order and padding. |
| LruSpec.WindowOfStep | rocket/libs/lru.cpp:36-89 | Forgetting what lies beyond the capacity never changes what the bounded list shows. |
| LruSpec.StackHasNoDuplicates | rocket/libs/lru.cpp:57-61 | No history makes a key appear twice. |
| LruSpec.StackDistance | rocket/libs/lru.cpp:36-73 | What lies in front of a key touched and then left alone is one entry for every blank and every other distinct key. |
| LruSpec.RememberedIff | rocket/libs/lru.cpp:36-89 | A key is remembered if and only if fewer blanks and other distinct keys than the capacity came in since its last touch. |
| LruSpec.ExpireIsCeiling | rocket/libs/lru.cpp:21-23 | One call of time_expire pushes maxsize / maxsec blanks, rounded up. |
| LruSpec.AgedOut | rocket/libs/lru.cpp:24-28 | A key not touched while as many blanks come in as maxsec calls of time_expire push is forgotten, whatever else is cached in between. |
| LruSpec.AgedOutAfterCalls | rocket/libs/lru.cpp:19-31 | The ageing bound in calls: a key not touched during maxsec calls of time_expire is forgotten, whatever is cached before, between and after them. |
| LruSpec.EmittedAgainIff | rocket/libs/method.cpp:160-169 | uniq_method lets a key through again if and only if enough blanks and other keys came in between. |
| Lru.LruImpl.constructor | rocket/libs/lru.cpp:18 | An empty cache, for any size and a positive number of seconds. |
| Lru.LruImpl.Cache | rocket/libs/lru.cpp:36-66 | For every key whose map iterator is still good, the empty one included: list and map become what the branch taken makes of them. From a valid cache and a non-empty key, the list stays the window of the whole history's stack and shorter than maxsize, the map stays exact, and the answer says whether the key was in it with enough hits. |
| Lru.LruImpl.InsertNew | rocket/libs/lru.cpp:42-50 | The not-found branch pushes, remembers the position and evicts. |
| Lru.LruImpl.MoveToFront | rocket/libs/lru.cpp:54-63 | The found branch erases at the remembered position, pushes to the front and counts the hit. |
| Lru.LruImpl.RemoveTail | rocket/libs/lru.cpp:74-89 | Drops the last entry when the size has reached maxsize, and its map entry when it is no blank. |
| Lru.LruImpl.PushFront | rocket/libs/lru.cpp:43 | A fresh node at the front. |
| Lru.LruImpl.AgeOnce | rocket/libs/lru.cpp:26-27 | One blank in and the tail out; a valid cache stays the window of its history. |
| Lru.LruImpl.TimeExpire | rocket/libs/lru.cpp:19-31 | A whole call is ceil(maxsize / maxsec) blanks, on any cells; a valid cache stays the window of its history. |
| Lru.CacheStandsFor | rocket/libs/lru.cpp:36-66 | One touch keeps list, map and hit counts exact, and a key is in the map exactly when it is in the window. |
| Lru.AgeStandsFor | rocket/libs/lru.cpp:67-89 | One blank does too. |
| Lru.InMapIff | rocket/libs/lru.cpp:36-89 | In a valid cache a key touched and then left alone is in the map if and only if blanks plus other distinct keys since then plus one stay below maxsize. |
| Lru.SizeStaysBelow | rocket/libs/lru.cpp:74-79 | The list of a valid cache is shorter than maxsize, and empty when maxsize is zero. |
| Lru.UnknownIsNotInMap | rocket/libs/lru.cpp:39-42 | A key that was never touched is not in the map. |
| Lru.HitsAreTouches | rocket/libs/lru.cpp:44-63 | The hit count is one for the insertion and one more for every touch since, as long as the key stays remembered. |
| LruCells.MapIsContent | rocket/libs/lru.cpp:39-40 | Finding a key in the map is finding it in the list. |
| LruCells.MoveKeeps | rocket/libs/lru.cpp:56-61 | Moving a key to the front keeps every map entry pointing at its own node and takes exactly that entry out of its old place. |
| LruCells.InsertKeeps | rocket/libs/lru.cpp:43-48 | A new entry does too, and the list shows the front of what was pushed. |
| LruCells.PushAndTrim | rocket/libs/lru.cpp:74-89 | A push followed by the eviction shows the first maxsize - 1 entries. |
| LruEmptyKey.EmptyKeyDanglesIff | rocket/libs/lru.cpp:84-87 | After any history that ends in a safe cache("") and any operations without another one, the empty key's map entry points at no list node if and only if at least as many blanks and other distinct keys as the capacity have come in. |
| LruEmptyKey.StepKeepsOrder | rocket/libs/lru.cpp:36-89 | Every operation keeps list and map in order, cache("") included as long as its iterator is good. |
| LruEmptyKey.OnlyEmptyKeyDangles | rocket/libs/lru.cpp:56-57 | No other key's iterator ever goes bad. |
| Lru.UniqMethod.constructor | rocket/libs/method.cpp:154-159 | A new method has aged its empty cache once. |
| Lru.UniqMethod.Proc | rocket/libs/method.cpp:160-169 | An event goes on if and only if its key is not in the map; from a valid state and a non-empty key, if and only if it is not remembered. |
| Lru.UniqMethod.TimeDo | rocket/libs/method.cpp:175-182 | A timer tick ages the cache by one call. |
| Chunked.HeaderOfFrame | rocket/libs/http/grammar.cpp:33 | A hexadecimal size in any case with any leading zeros, and CRLF, reads back as the size, whatever follows. |
| Chunked.HeaderStable | rocket/libs/http/grammar.cpp:33 | A header stays the same header when more data follows. |
| ChunkedSize.HexReadsBack | rocket/libs/http/grammar.cpp:33 | A number printed in base sixteen with "0123456789abcdef", or with capitals, reads back as the number. |
| ChunkedSize.OnlyHexDigits | rocket/libs/http/grammar.cpp:33 | The digits are those sixteen in either case, each with the value of its place, and no other character is one. |
| ChunkedSize.PlainIsPrinted | rocket/libs/http/grammar.cpp:33 | Whatever digits are read, printing their value gives them back in lower case without leading zeros. |
| ChunkedSize.PrintedFrameParses | rocket/libs/http/parser.cpp:72-120 | Every payload shorter than 0xfffffffe, framed with its printed size in either case and the terminator, parses to END and that payload. |
| ChunkedSize.LargerSizeIsBad | rocket/libs/http/parser.cpp:84-98 | A printed size from 0xfffffffe on is BAD, whatever follows. |
| ChunkedSize.NoHeaderIsBad | rocket/libs/http/parser.cpp:86-91 | Data that starts with no digit, or with digits that no CRLF follows, is BAD and appends no chunk. |
| ChunkedSize.WrongClosingIsBad | rocket/libs/http/parser.cpp:100-105 | A payload closed by two other bytes than CRLF is BAD and appends no chunk. |
| Chunked.WalkFrame | rocket/libs/http/parser.cpp:77-117 | At a frame the parser takes its payload, moves behind it and adds the offset it has reached; what stands there decides whether it ends. |
| Chunked.WalkOfBody | rocket/libs/http/parser.cpp:72-120 | A framed body, with any trailer behind it, parses to END with the payloads up to the first later frame that looks like the terminator. |
| Chunked.FramedBodyParsesIff | rocket/libs/http/parser.cpp:72-120 | Whatever follows the terminator, the trailer part and last CRLF of RFC 7230 included, the parser gives END and exactly the framed payloads if and only if there is a frame and no later frame writes its size as a single zero. |
| Chunked.NonEmptyPayloadsAreZeroFree | rocket/libs/http/parser.cpp:113 | Non-empty payloads always meet that condition. |
| Chunked.BodyAtLast | rocket/libs/http/parser.cpp:113 | What is left of a body looks like the terminator if and only if it is, or the next size is a single zero. |
| Chunked.LoneTerminator | rocket/libs/http/parser.cpp:79-99 | A terminator with no chunk before it is read as an empty chunk that lacks its CRLF. |
| Chunked.ChunkStable | rocket/libs/http/parser.cpp:84-110 | A complete chunk is the same chunk when more data has arrived. |
| Chunked.Resume | rocket/libs/http/parser.cpp:72-120 | After LACK, a second parse from the end of the last completed chunk with more data finds what one parse of everything finds after that point. |
| Chunked.TerminatorAtBoundary | rocket/libs/http/parser.cpp:112-116 | When the cut is the end of the data and the terminator follows, one parse ends there. |
| Chunked.ResumeIff | rocket/libs/http/parser.cpp:72-120 | Resuming gives the status and chunks of one parse if and only if the cut is inside the data, or no chunk came before it, or the new data does not start with the terminator. |
| Chunked.EndStable | rocket/libs/http/parser.cpp:112-116 | A terminator that was seen is seen again, behind the same chunks, when more data follows. |
| Chunked.ParsedLengthIsCutIff | rocket/libs/http/utls.cpp:76-93 | On LACK parsed_length() is the end of the last completed chunk if and only if at most one chunk completed; on END it exceeds what was consumed. |
| ChunkedTransfer.RightKeepsUnparsedIff | rocket/libs/http/utls.cpp:12-17 | right(parsed_length()) keeps exactly the unparsed data if and only if at most one chunk completed or nothing was left over. |
| ChunkedTransfer.FeedIsOneParse | rocket/libs/http/http_perf.cpp:43-56 | For any data, framed or not: when every call keeps what it should and resumes where it may, the client's loop collects what one parse of everything collects. |
| ChunkedTransfer.CallOverCut | rocket/libs/http/parser.cpp:72-120 | What one call makes of a buffer that ends anywhere in a framed body: the frames that ended, END, LACK or neither by where the end lies, and the exact parsed and lacking lengths. |
| ChunkedTransfer.FramedTransferIff | rocket/libs/http/http_perf.cpp:43-58 | As long as no buffer holds two frame ends and the start of another frame, the client collects END and exactly the framed payloads if and only if every read ends before a frame or behind its header, and none directly before or inside the terminator unless memory completes it. |
| ChunkedTransfer.FramedTransferArrives | rocket/libs/http/http_perf.cpp:43-58 | Framed payloads arrive as they were over every such run of reads, with any trailer behind the terminator. |
| ChunkedTransfer.WellCutIsSmooth | rocket/libs/http/http_perf.cpp:43-56 | Such a run of reads meets the conditions under which the loop is one parse. |
| ChunkedTransfer.ResumeMissesTerminator | rocket/libs/http/parser.cpp:112-116 | A chunk in the first call and the terminator in the second: LACK, where one parse gives END. |
| ChunkedTransfer.CutBeforeTerminator | rocket/libs/http/http_perf.cpp:43-56 | So a transfer cut there never ends for the client. |
| ChunkedTransfer.ParsedLengthOvershoots | rocket/libs/http/parser.cpp:111 | Two chunks and a third header in one buffer: parsed_length() is 18 where 12 bytes are parsed, and right() drops the header. |
| ChunkedTransfer.SkipLosesChunk | rocket/libs/http/http_perf.cpp:49-51 | So that transfer turns BAD and loses its third chunk, where one parse gives END and all three. |
| ChunkedTransfer.SkipByLuck | rocket/libs/http/http_perf.cpp:49-51 | The same skip does no harm when it drops leading zeros of a size, so skipping transfers have no condition on their read boundaries alone. |
| ChunkedClient.Result.constructor | rocket/include/http/http.h:104 | A new result is BAD with nothing parsed and nothing lacking. |
| ChunkedClient.Result.CheckLack | rocket/libs/http/utls.cpp:54-63 | LACK with the missing length if and only if more is needed than there is. |
| ChunkedClient.Result.ToEnd | rocket/libs/http/utls.cpp:76-80 | END, the parsed length added to. |
| ChunkedClient.Result.ToLack | rocket/libs/http/utls.cpp:81-85 | LACK, the lacking length added to. |
| ChunkedClient.Result.ToBad | rocket/libs/http/utls.cpp:86-89 | BAD, both lengths kept. |
| ChunkedClient.Result.Parsed | rocket/libs/http/utls.cpp:90-93 | The parsed length added to, the status kept. |
| ChunkedClient.Response.constructor | rocket/libs/http/http.cpp:36-39 | No chunks and a total of zero. |
| ChunkedClient.Response.AppendChunk | rocket/libs/http/http.cpp:41-45 | One more chunk at the end, and the total stays the length of them all. |
| ChunkedClient.Response.Decode | rocket/libs/http/http.cpp:152-170 | The body becomes the concatenation of the chunks, exactly as long as the total, when chunked and not content-encoded; otherwise it is kept. |
| ChunkedClient.ParseChunk | rocket/libs/http/parser.cpp:72-120 | Status, parsed length, lacking length and appended chunks are those of the walk the theorems are about. |
| ChunkedClient.Receive | rocket/libs/http/http_perf.cpp:41-60 | The client loop over any reads collects what the transfer function says and decodes it on END. |
| Rigger.Merge | rocket/libs/text/rigger_base.cpp:38-44 | The union of both maps in which the other map's values win. |
| Rigger.ReverseIsReversed | rocket/libs/text/rigger_conf.cpp:67-90 | On every acyclic graph the reverse call visits the positive call's trace backwards, same names, commands and arguments. |
| RiggerOrder.CallListsPaths | rocket/libs/text/rigger_conf.cpp:67-90 | The positive trace lists all paths to commands, each once, in strictly rising order: parents before children, lower positions first, everything below an object before the object. |
| RiggerOrder.EarlierPathFirst | rocket/libs/text/rigger_conf.cpp:71-78 | What an earlier path leads to is visited before what a later path leads to. |
| Rigger.VisitsAreThePaths | rocket/libs/text/rigger_impl.h:97-126 | A command is visited with given arguments if and only if some path of parent and child edges leads to it and gathers them. |
| Rigger.CallerWins | rocket/libs/text/rigger_impl.h:106-108 | Every command sees the caller's value for every key the caller gave, over all defaults on the way. |
| Rigger.PathCarries | rocket/libs/text/rigger_impl.h:106-108 | The same along one path of the graph, whatever defaults are met on it. |
| Rigger.OuterDefaultsWin | rocket/libs/text/rigger_impl.h:106-108 | A default of a child stepped down to, for a key the caller did not give, is what every command below it sees, over deeper defaults. |
| Rigger.ConfObject.Call | rocket/libs/text/rigger_conf.cpp:67-90 | Invokes the bound commands in exactly the trace's order, which RiggerOrder.CallListsPaths gives path by path, each with the call's order and command name. |
| Rigger.ConfObject.CallParents | rocket/libs/text/rigger_conf.cpp:71-87 | The loops over the parents, forwards or backwards, with the caller's arguments as they are. |
| Rigger.ConfObject.CallKids | rocket/libs/text/rigger_impl.h:97-126 | The loops over the children, forwards or backwards, skipping plain values and merging defaults under the caller's arguments. |
| Rigger.ConfObject.constructor | rocket/libs/text/rigger_conf.cpp:95 | A new object has no parents, children, defaults or command. |
| Rigger.ConfObject.Inherit | rocket/libs/text/rigger_conf.cpp:46-49 | One more parent at the end. |
| Rigger.ConfObject.BindCmd | rocket/libs/text/rigger_conf.cpp:41-44 | The command is bound, everything else kept. |
| Rigger.ConfObject.SetDefaultArgs | rocket/libs/text/rigger_impl.h:51-54 | The defaults are replaced, everything else kept. |
| Rigger.ConfObject.Append | rocket/libs/text/rigger_impl.h:43-49 | One more child at the end; the dictionary stays the last child of each name. |
| Rigger.ConfObject.GetSub | rocket/libs/text/rigger_impl.h:60-70 | Finds the last child of that name, if any. |
| Rigger.ConfObject.XPath | rocket/libs/text/rigger_impl.h:72-95 | Follows a path name by name through objects; the empty path finds nothing. |
| Rigger.FoundIffLast | rocket/libs/text/rigger_impl.h:43-70 | A lookup finds a child if and only if it is the last one appended under that name. |
| Rigger.FindInStages | rocket/libs/text/rigger_impl.h:72-95 | Following a path is following its first part and then the rest from there. |
| Rigger.FindOne | rocket/libs/text/rigger_impl.h:60-95 | A path of one name finds the last child appended under it, and nothing below a plain value. |
| Base64.SextetsOfGroup | rocket/libs/text/base64.cpp:109-123 | The shifts of the group encoder leave the four six-bit groups of the three bytes' bit string. |
| Base64.LetterIsTable1 | rocket/libs/text/base64.cpp:125-147 | The 64 letters are those of Table 1 of RFC 4648, place by place. |
| Base64.GroupIsEncoded | rocket/libs/text/base64.cpp:33-66 | The four characters of a group, with padding where a byte is missing, are those of RFC 4648. |
| Base64.EncodeGroup | rocket/libs/text/base64.cpp:109-148 | Turns three bytes into the four letters of their six-bit groups, in place. |
| Base64.SplitGroup | rocket/libs/text/base64.cpp:111-123 | The first loop of the group encoder. |
| Base64.EnBase64 | rocket/libs/text/base64.cpp:25-69 | Writes the encoding of section 4 of RFC 4648, character by character, with its padding. |
| Base64.ValueOfLetter | rocket/libs/text/base64.cpp:155-169 | The decoder's mapping undoes the alphabet. |
| Base64.ValueOfOthers | rocket/libs/text/base64.cpp:155-169 | The padding character becomes zero, every other character that is no letter keeps its own value. |
| Base64.JoinBits | rocket/libs/text/base64.cpp:171-177 | What the shifts make of any four values, letters or not, bit by bit. |
| Base64.JoinSplit | rocket/libs/text/base64.cpp:171-177 | The decoder's shifts undo the encoder's. |
| Base64.DecodeGroup | rocket/libs/text/base64.cpp:150-178 | Turns four characters into three bytes, characters outside the alphabet kept as their own value. |
| Base64.MapGroup | rocket/libs/text/base64.cpp:155-169 | The first loop of the group decoder. |
| Base64.JoinGroup | rocket/libs/text/base64.cpp:171-177 | The second loop of the group decoder. |
| Base64.NeverPadding | rocket/libs/text/base64.cpp:97-104 | The padding test never succeeds. |
| Base64.DeBase64Help | rocket/libs/text/base64.cpp:71-107 | Three bytes for every group of four characters; nothing for a length that is no multiple of four. |
| Base64.DeBase64 | rocket/libs/text/base64.cpp:10-23 | The same as a string. |
| Base64.DecodeEncode | rocket/libs/text/base64.cpp:25-107 | Decoding an encoding gives the input followed by (3 - n mod 3) mod 3 zero bytes. |
| Base64.DecodeEncodeIff | rocket/libs/text/base64.cpp:25-107 | The round trip is exact if and only if the length is a multiple of three. |
| EncryptStr.HexStrToInt | rocket/libs/encrypt_str.cpp:4-24 | The value of the hex digits before the first other character. |
| EncryptStr.DigitsRead | rocket/libs/encrypt_str.cpp:11-18 | Digits, capital and small letters have the value of their place in "0123456789abcdef" and "ABCDEF". |
| EncryptStr.HexFromStops | rocket/libs/encrypt_str.cpp:20-23 | Reading stops before the first other character. |
| EncryptStr.HexFromSnoc | rocket/libs/encrypt_str.cpp:13-18 | One more digit is sixteen times the number so far and the digit, in 32 bits. |
| EncryptStr.Encrypt | rocket/libs/encrypt_str.cpp:27-42 | Every byte complemented and printed in hex without a leading zero. |
| EncryptStr.EncryptedByte | rocket/libs/encrypt_str.cpp:34-38 | A byte from 0xF0 up is written as the one digit of its complement, every other as the two digits of its complement, high one first. |
| EncryptStr.PrintedDigit | rocket/libs/encrypt_str.cpp:36 | A digit is printed as the character of "0123456789abcdef" at its place. |
| EncryptStr.EncryptedConcat | rocket/libs/encrypt_str.cpp:32-40 | A text is encrypted byte by byte. |
| EncryptStr.CipherIsLowerHex | rocket/libs/encrypt_str.cpp:27-42 | The cipher text consists of digits and small letters a to f. |
| EncryptStr.Decrypt | rocket/libs/encrypt_str.cpp:44-60 | Pairs of characters read back, complemented, NULs dropped, an odd last character ignored. |
| EncryptStr.DecryptEncryptDropsNuls | rocket/libs/encrypt_str.cpp:27-60 | Without bytes from 0xF0 up only the NULs are lost. |
| EncryptStr.DecryptEncryptIff | rocket/libs/encrypt_str.cpp:27-60 | decrypt(encrypt(t)) is t if and only if every byte is in 0x01..0xEF. |
| EncryptStr.PipelineRoundTrip | village/doctor/bus.cpp:324 | Encoding, encrypting, decrypting and decoding gives the input back with a zero byte for every padding character. |

## Left out

- Pool shutdown: `stop`, `wait_idel`, `reset` and joining the threads; `_need_run` is written without the queue lock, so the code guarantees nothing there.
- Pool data races: the unlocked reads of `std::queue` are undefined behaviour in C++; each is modelled as one atomic read, and `top()` on an empty queue as returning any value.
- Pool fairness: that a runnable worker is scheduled at last is the operating system's; it is the premise of TaskProgress.EveryPushIsPopped, and that a core returns is part of it.
- Task details: exceptions and cancellation inside a task, `stop_execute`, wait tasks, `join_ring_task` (three calls of `join_task`), `thread_priority_queue` and the timed unit, whose `safe_pop` does not return what it popped.
- Utf8Repair.ReplaceInvalid: the iterator that `append` returns is dropped at checked.h:112, so the model's output iterators append, as `back_inserter` does; a plain pointer would be overwritten.
- Utf8Unchecked.Next: demands the octets its lead octet announces, and Utf8Unchecked.Prior a non-trail octet before it, because the source reads them without looking at the end.
- UTF iterators: `peek_next`, `advance`, `previous`, the iterator classes and the byte order mark only wrap what is proved.
- Md5.Hasher.Update: takes inputs that stay below 2^32 together with the buffer fill, the ones on which the source's 32-bit loop test ends the loop in time (Md5.BlockLoopStopsIff), and so does Md5.HashParts; beyond them the source reads past its input. `ulong` has 32 bits, as the `memcpy` sizes 16 and 8 assume.
- MD5 strength: no theorem about the hash function itself; the 64 steps follow the source, with its constants in tables, and Md5Known.DigestOfAbc is the one known answer.
- MD5 files and text: `update(ifstream&)`, `bytesToHexString` and `toString`.
- Lru.LruImpl.Cache: not defined on a key whose map iterator no longer points into the list, where the source's `erase` is undefined; only the empty key can get there (LruEmptyKey.OnlyEmptyKeyDangles), and LruEmptyKey.EmptyKeyDanglesIff says when. The window of the history is claimed only while no empty key has been cached. `ratio` is float arithmetic and its two counters are not modelled.
- LRU widths: `int expire`, `size_t` counters and the list size do not overflow in the model; `remove_tail` and `empty_head` have their default count of one, the only one used.
- Lru.UniqMethod.TimeDo: the timer's re-arming and `_stoped` are left out; a tick is a call. Lru.UniqMethod.Proc has the precondition of Lru.LruImpl.Cache.
- ChunkedSize.LargerSizeIsBad: sizes of 2^32 and more do not fit the source's `uint` and fail its parse; for 2^32 - 2 and 2^32 - 1 its 32-bit `data_len + 2` wraps to 0 and 1, so it answers LACK where nothing follows the header of the second, and otherwise compares memory 4 GiB further on. The model answers BAD for both.
- ChunkedClient.ParseChunk: a chunk size of 2^32 - 2 or more is taken as a malformed header, as just said; reading past the allocated memory counts as a mismatch. `qi::hex` is a maximal run of hexadecimal digits.
- ChunkedClient.Response.AppendChunk: chunks are kept as values; in the source they point into the parsed buffer, so what a later write to that buffer would do to them is not captured. Buffer pools are left out.
- ChunkedClient.Receive: `extend_buffer` and `copy` are a concatenation, without the capacity of the new buffer, so a read may deliver more than was lacking; header parsing and `Content-Length` bodies are left out.
- ChunkedTransfer.FramedTransferIff: transfers in which a buffer holds two frame ends and the start of another frame are left to ChunkedTransfer.FeedIsOneParse's side; ChunkedTransfer.SkipLosesChunk and ChunkedTransfer.SkipByLuck show that both outcomes occur with the same boundaries but for leading zeros.
- HTTP, JSON and configuration grammars: their meaning lives in Boost.Spirit.
- Rigger.ConfObject.XPath: the region parameter stands for the objects that can be reached; modules, `conf_system`, `module_space`, `clear` and printing are left out, and a child that is no object is a plain value.
- Rigger.ConfObject.Call: on a cyclic graph the source recurses without end; only acyclic graphs are modelled. The logger is left out.
- EncryptStr.HexStrToInt: the 32-bit signed overflow of long strings wraps in the model; the callers pass two characters. The unused key and its index are left out.
- Windows, COM, logging, curl, shared memory, Python bindings, the superseded `conf*.cpp` files and `text.cpp` wrappers.
