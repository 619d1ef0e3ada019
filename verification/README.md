# Verified models of v8engine

This project models three parts of the repository and proves what they promise. Every main result is a statement
over all inputs, all runs or all reachable states.

1. **The worker pool** of `v8engine.cpp`: `PushTask` routes a task to queue `index % tasks_.size()`; worker `i` alone
   serves queue `i`; all workers wait on one condition variable; `CloseVM` stops and joins them and `Create` may start
   new ones over the same queues.
2. **The base64 codec** of `base64.cpp`: encoder, liberal decoder, and the PEM and MIME line breakers.
3. **The handle registry** of `include/cppgc/cross-thread-persistent.h`: a handle's pointer, its node and the region's
   node must agree while the collector may clear the handle at any moment.

## How the models are built

`Pool.dfy` is a state machine for any number of workers, one controlling thread and any number of pushing threads.
One action is one indivisible step of one thread. Three places that are not atomic in the code are split: the wait
predicate and the block (116-118), `shutdown_ = true` and `notify_all`, which `CloseVM` runs without `m_mutex`
(288-289), and the test and the decrement of `statTaskNum_` (159). Because `CloseVM` takes no lock, the test of
`shutdown_` and the pop of a worker (119-127) are also two steps. The JS call returns any text or throws; spurious
wakeups may happen; a worker may leave before it reaches the loop. Item numbers, the push log, the failed set, the
list of everything handed out, the texts that calls returned, the workers missed by a notification and the statistics
counters are history: no branch reads them. `Engine.dfy` is the class itself, with its fields and methods. `Valid()` says that some run of the engine's
threads leads to its present state; the constructor establishes it, every method is proved to be a step of the state
machine and keeps it, and the class restates the main laws about its own fields (`ShardOrder`, `OnePlace`,
`AnswerTexts`, `BroadcastsSurvive`, `CountBound`, `NoTaskSleeps`, `DrainedWhenStuck`).

- `PoolSafety.dfy` has the locking and wakeup invariants and a concrete run that loses `CloseVM`'s notification.
- `PoolDelivery.dfy` has order and conservation over any run with any number of shutdowns, reboots and pushes between.
- `PoolAnswers.dfy` says what the answers carry: the text that the JS call returned, or the task's own text for the three
  that never reach the script.
- `PoolStatistics.dfy` bounds the count and the number of "all task done" lines, and says exactly when a second line is
  printed.
- `PoolProgress.dfy` has a measure for a running pool, the end of a closed pool, and exactly when `CloseVM` returns.
- `Common.dfy` has the types that the models share.

`Base64.dfy` has the imperative encoder and decoder with the source's loops and branches, proved equal to two
reference functions on chunks; `Base64Laws.dfy` proves what these mean in terms of bit strings, which texts they
produce and accept, and how they compose. `Alphabets.dfy` ties the characters to the tables written out as literals and
restates the main laws over them. `Linebreaks.dfy` has the loop that inserts into the string it scans.

`HandleProtocol.dfy` is a state machine in which every branch-deciding read, field write, region change and lock
operation of `AssignUnsafe`, the raw-pointer constructor, the destructor and the collector's clear is its own step.
`HandleInvariant.dfy` proves the invariant for every interleaving, `HandleLaws.dfy` draws the conclusions, and
`HandleRuns.dfy` says what each operation and each visit of the collector has done when it is over.
`Handles.dfy` has the same operations as methods on objects that share one region, without interference, including
moves and aliasing (`other` may be `this`).

## Assumptions

- The first `Create` sets up the environment, happens once and has `threadNum >= 1`; later ones are reboots, as
  `v8engine.h:66` demands. `Create` is called when no worker exists. A reboot starts at most as many workers as there
  are queues, because it does not resize `tasks_`. It may start fewer; the queues above them then keep their tasks.
- `GetResult` is called with an empty list; it swaps, so a non-empty list would come back as results.
- `shutdown_` and `statTaskNum_` start with arbitrary values, because the class never initialises them.
- The script and every JS call end, with a value or with an exception, or the worker leaves before its loop. A call that
  never ends keeps `CloseVM` in its join loop for ever, whatever else holds.
- Steps are sequentially consistent.
- The collector finds handles through the live nodes of the regions and works on them while it holds the region lock
  (the comment at `cross-thread-persistent.h:47`). So a visited handle always points to an object (`GcVisitClears`); the
  other branch of `ClearFromGC` is in the method `Handles.CrossThreadPersistent.ClearFromGC`. A handle is used by one mutator thread at a time.

## What the code does not do

These properties are false of the code as it stands. Each has a run or an input that shows it and the exact condition
under which it holds.

- `CloseVM` need not return. A worker that found its predicate false may block after the notification has gone by;
  `LostNotification` is such a run. `CloseReturns` gives the exact condition: if and only if no worker was between its
  false predicate and its block when `notify_all` ran, every fair schedule ends the joins. At most one worker can be
  there (`AtMostOneMisses`).
- "all task done" need not be printed only once. `PrintsTwice` is a run with two workers that prints it twice after
  `StartStat(1)`. `SecondLine` gives the exact condition for every run: some worker saw a positive `statTaskNum_` that
  was at most the number of workers already past the test, or more than `target` workers were past it before
  `StartStat`. With one worker neither can happen.
- The encoder's counter, which is 32 bits wide, never reaches lengths of 2^32 bytes or more, so the loop does not end by
  its condition; it appends until memory is exhausted (`EncoderLoopEnds`).

The second emptiness test of the worker loop (123-125) is dead code: `PopFindsTask` proves that it never succeeds.

## Model

| member | source | states |
|---|---|---|
| PoolSafety.InvStep | v8engine.cpp:109-300 | every step of every thread keeps mutual exclusion, the wait protocol and the meaning of `shutdown_` |
| PoolSafety.ReachableInv | v8engine.cpp:109-300 | that invariant holds in every reachable state |
| PoolSafety.Wakeups | v8engine.cpp:114-118 | a blocked, un-notified worker has an empty queue; with `shutdown_` set it is about to be notified, or it was between its false predicate and its block when `CloseVM` notified |
| PoolSafety.AtMostOneMisses | v8engine.cpp:286-289 | at most one worker misses the notification, and it is the one holding `m_mutex` |
| PoolSafety.PopFindsTask | v8engine.cpp:119-127 | a worker that passed the wait and read `shutdown_` as false always finds a task, the front of its own queue |
| PoolSafety.MutualExclusion | v8engine.cpp:114-128 | no two workers are in the critical section together, and a worker there has a queue of its own |
| PoolSafety.LostNotification | v8engine.cpp:286-294 | a run from any initial state that ends with `CloseVM` joining a worker that sleeps although `shutdown_` is set |
| PoolDelivery.InvStep | v8engine.cpp:109-300 | every step keeps, for every shard, the push order of what is answered, in hand and queued |
| PoolDelivery.DeliveryOrder | v8engine.cpp:126-163 | in every reachable state and for every shard, everything handed out, then `results_`, then the task in hand, then the queue, is the push order with only failed tasks removed |
| PoolDelivery.SurvivingFail | v8engine.cpp:165-168 | a failed call removes exactly its own task from the shard's order |
| PoolDelivery.Routing | v8engine.cpp:224-226 | in every reachable state a queued task, and a task in hand, is at the queue or worker `index % N` |
| PoolDelivery.AnswersAreGenuine | v8engine.cpp:131-163 | every answer carries the callback of the task that produced it |
| PoolAnswers.SpecialTexts | v8engine.cpp:131-142 | exactly "", "showmem" and "gc" are answered without the script |
| PoolAnswers.ScriptDispatch | v8engine.cpp:131-168 | a worker that has taken one of these three can only answer it itself; with any other task it can only call the script, which may return any text or throw |
| PoolAnswers.InvStep | v8engine.cpp:126-163 | every step keeps the relation between texts returned, tasks in hand, answers and failures |
| PoolAnswers.AnswersCarryTexts | v8engine.cpp:131-163 | in every reachable state an answer has its task's callback and the text that the task's JS call returned, or the task's own text for "", "showmem" and "gc" |
| PoolAnswers.SpecialNeverFails | v8engine.cpp:131-147 | no "", "showmem" or "gc" task is ever dropped |
| PoolAnswers.CallIsAnswered | v8engine.cpp:155-163 | once a JS call has returned a text, its task is in every later state in hand or answered, exactly once, never dropped, and its answer is its callback with that very text |
| PoolDelivery.ExactlyOnePlace | v8engine.cpp:221-229 | conservation: each pushed task is in exactly one place, counting all queues, hands, results, handed-out lists and drops, and nothing that was not pushed is anywhere |
| PoolStatistics.InvStep | v8engine.cpp:159-161 | every step keeps the balance between calls, decrements, skipped tests and the workers in between |
| PoolStatistics.CountBoundedBelow | v8engine.cpp:159-161 | with `StartStat` arguments of at least 1, `statTaskNum_ >= -(N-1)` |
| PoolStatistics.AllDoneLines | v8engine.cpp:159-161 | the line is printed at most N times, never before the target number of calls has returned, and at least once when that many have completed their statistics step |
| PoolStatistics.PrintedTwice | v8engine.cpp:159-161 | the count tells how many lines have been printed: more than one if and only if it is below zero, one if and only if it is zero |
| PoolStatistics.SlackStep | v8engine.cpp:159-161 | of all steps but `StartStat`, only a test that sees a positive count lowers the count that is left once all workers past the test have decremented, and only by one |
| PoolStatistics.OverTestStep | v8engine.cpp:159 | that count stays negative once it is, and becomes negative exactly by a test with `0 < statTaskNum_ <=` the workers already past the test |
| PoolStatistics.SecondLine | v8engine.cpp:159-161 | over every run after `StartStat(target)`, a second line is printed, or will be by workers past the test, if and only if the run had such a test or more than `target` workers were past the test before; never with a single queue |
| PoolStatistics.PrintsTwice | v8engine.cpp:159-161 | a run of two workers from any initial state that prints the line twice after `StartStat(1)` |
| PoolProgress.WorkDecreases | v8engine.cpp:109-172 | every worker step except a spurious wakeup decreases a measure over queued tasks, tasks in hand and notifications |
| PoolProgress.SomeoneMoves | v8engine.cpp:109-172 | while some worker is neither asleep nor gone, some worker can step |
| PoolProgress.StuckMeansDrained | v8engine.cpp:109-172 | when no worker in the loop can step, all queues and hands are empty and every pushed task is answered or failed, in order |
| PoolProgress.Progress | v8engine.cpp:109-172 | over any run without push or shutdown, the worker steps are bounded by the work at the start plus four for each spurious wakeup, and a run that no worker can continue has drained every queue |
| PoolProgress.BoundedExit | v8engine.cpp:119-122 | after `notify_all`, a worker that is not asleep takes at most seven more steps of its own, pushes or not, and `CloseVM` keeps joining meanwhile |
| PoolProgress.PopsAfterShutdown | v8engine.cpp:119-127 | once `shutdown_` is set a worker pops at most one more task, and only if it had already read `shutdown_` as false |
| PoolProgress.ClosedPool | v8engine.cpp:290-293 | when the join loop ends no task is in flight and every queue holds its unprocessed tasks in push order behind everything answered |
| PoolProgress.LeaverServesNothing | v8engine.cpp:82-103 | a worker that returns before the loop takes no step and no task until it is joined |
| PoolProgress.EntrantStays | v8engine.cpp:105-173 | a worker that reaches the loop stays in it until `shutdown_` is set, whatever its tasks do |
| PoolProgress.CreateStarts | v8engine.cpp:189-206 | when `Create` has returned there are exactly `threadNum` workers, and as many queues the first time, or as many as before on a reboot |
| PoolProgress.JoinProgress | v8engine.cpp:286-294 | if no worker waits, then under every schedule, with pushes going on, the workers take a bounded number of steps, and until the joins can end one of these steps is possible |
| PoolProgress.RunUntilStuck | v8engine.cpp:109-173 | worker steps alone always lead to a state in which no worker can move |
| PoolProgress.JoinEnds | v8engine.cpp:290-293 | if no worker waits, there is a run without pushes and spurious wakeups that ends `CloseVM`; `JoinProgress` says that all fair ones do |
| PoolProgress.JoinHangs | v8engine.cpp:290-293 | if some worker waits, no such run does |
| PoolProgress.CloseReturns | v8engine.cpp:286-294 | after `notify_all`, every fair schedule ends `CloseVM` if and only if no worker was then between its false predicate and its block; otherwise no run without pushes and spurious wakeups ends it |
| Engine.V8Engine.constructor | v8engine.h:29 | a new engine is in an initial state, whatever its uninitialised fields hold, and so is valid |
| Engine.V8Engine.BeginCreate | v8engine.cpp:184-192 | the step that clears `shutdown_` and sizes the queues unless it is a reboot |
| Engine.V8Engine.StartThread | v8engine.cpp:194-206 | the step that starts the next worker, while those before it may already run |
| Engine.V8Engine.Create | v8engine.cpp:181-208 | those steps in sequence: `threadNum` workers that have just started, and on a reboot the queues as they were |
| Engine.V8Engine.StartStat | v8engine.cpp:231-235 | the step that sets the count |
| Engine.V8Engine.CloseVMSetFlag | v8engine.cpp:288 | the step that sets `shutdown_`, without a lock |
| Engine.V8Engine.CloseVMNotify | v8engine.cpp:289 | the step that notifies the workers blocked at that moment and no other |
| Engine.V8Engine.CloseVMJoin | v8engine.cpp:290-293 | the step that ends the join loop, once all workers have left |
| Engine.V8Engine.GetResult | v8engine.cpp:296-300 | swaps the caller's list with `results_`; with an empty list, the step that hands everything out |
| Engine.V8Engine.PushTask | v8engine.cpp:221-229 | the step that appends to queue `index % N` and notifies the blocked workers |
| Engine.V8Engine.GarbageCollect | v8engine.cpp:272-277 | pushes "gc" with the indices 1 to `workers_.size()`, in that order |
| Engine.V8Engine.PrintMemoryInfo | v8engine.cpp:279-284 | pushes "showmem" in the same way |
| Engine.V8Engine.Begin | v8engine.cpp:82-106 | the step by which a worker reaches the loop or leaves before it |
| Engine.V8Engine.WaitPredicate | v8engine.cpp:114-118 | the step that locks and evaluates the predicate |
| Engine.V8Engine.Sleep | v8engine.cpp:116-118 | the step that releases the lock and blocks |
| Engine.V8Engine.LeaveOnShutdown | v8engine.cpp:119-122 | the step that reads `shutdown_` and leaves the loop if it is set |
| Engine.V8Engine.TakeTask | v8engine.cpp:123-128 | the step that pops the front of the worker's own queue, which is never empty here |
| Engine.V8Engine.Execute | v8engine.cpp:129-168 | "", "showmem" and "gc" get their own text ready; any other task has the text that the call returned, or is dropped when the call throws |
| Engine.V8Engine.TestStatistics | v8engine.cpp:159 | the test of the count, as a step of its own |
| Engine.V8Engine.CountDown | v8engine.cpp:159-161 | the decrement, which prints when the new count is at most zero |
| Engine.V8Engine.AppendResult | v8engine.cpp:162-163 | appends to `results_` the task's callback with the text that the worker holds |
| Engine.V8Engine.ShardOrder | v8engine.cpp:126-163 | of every valid engine's own fields: handed out, `results_`, in hand, queue, in this order, are the shard's pushes less the failed ones |
| Engine.V8Engine.AnswerTexts | v8engine.cpp:131-163 | in every valid engine each answer has its task's callback, and the text that its call returned or, for "", "showmem" and "gc", its own |
| Engine.V8Engine.BroadcastsSurvive | v8engine.cpp:131-147 | in every valid engine no broadcast task has been dropped |
| Engine.V8Engine.OnePlace | v8engine.cpp:221-229 | in every valid engine each pushed task is in exactly one place |
| Engine.V8Engine.CountBound | v8engine.cpp:159-161 | in every valid engine `statTaskNum_ >= -(N-1)` after a `StartStat` of at least 1, and it tells the number of lines |
| Engine.V8Engine.NoTaskSleeps | v8engine.cpp:114-118 | in no valid engine does a blocked, un-notified worker have a queued task |
| Engine.V8Engine.DrainedWhenStuck | v8engine.cpp:109-172 | a valid engine with all workers in the loop and none able to step has answered or failed every pushed task |
| Engine.Broadcast | v8engine.cpp:272-284 | the k-th task of a broadcast has index k, counted from 1, and the broadcast's text |
| Engine.PushAllLog | v8engine.cpp:272-284 | pushing several tasks logs them in that order |
| Engine.HitsOnce | v8engine.cpp:272-277 | of the indices 1 to m, at most N of them, each queue gets at most one, and queue 0 gets the N-th |
| Engine.BroadcastQueues | v8engine.cpp:272-284 | a broadcast leaves each queue's old contents in front and adds as many tasks of its text as hit the queue |
| Engine.BroadcastReachesEachOnce | v8engine.cpp:272-284 | with a worker for every queue, a broadcast puts exactly one task of its text at the end of every queue |
| Engine.PushLog | v8engine.cpp:221-229 | over any run the push log grows by exactly the pushed tasks, in order, and the number of queues stays |
| Engine.BroadcastAmongOthers | v8engine.cpp:272-284 | however its pushes are interleaved with other steps, a broadcast gives every shard a new task of its text, which is in exactly one place |
| Base64.PosOfChar | base64.cpp:55-71 | an accepted character has a position below 64 and any other is the `std::runtime_error` |
| Base64.EncoderMasks | base64.cpp:134-153 | on all bytes, the encoder's mask and shift expressions are the quotients and remainders used in the model |
| Base64.DecoderMasks | base64.cpp:207-233 | on all positions, so are the decoder's |
| Base64.EncodeBytes | base64.cpp:111-160 | the loop with its 32-bit counter computes the reference encoding; all reads are in range |
| Base64.DecodeText | base64.cpp:180-240 | the loop computes the reference decoding, exceptions included; every byte expression fits a byte |
| Base64.Base64Decode | base64.cpp:162-178 | with `remove_linebreaks`, the decoding of the text without its newlines |
| Base64Laws.EncodeSpells | base64.cpp:111-160 | the encoding has length `(n+2)/3*4`, its characters spell the input's bits in order, zero-filled to whole sextets, and then only padding follows (section 4 of RFC 4648) |
| Alphabets.EncoderWritesTable | base64.cpp:44-53 | for the sextet i the encoder writes position i of the chosen table, both tables written out |
| Alphabets.DecoderReadsTables | base64.cpp:55-71 | `pos_of_char` gives i for exactly the characters at position i of one of the tables and throws for every character in neither |
| Alphabets.OtherCharacters | base64.cpp:115 | padding is '=' or, in the URL form, '.'; both are read as padding and nothing else is; a line break is the character 10 |
| Alphabets.EncodeMeans | base64.cpp:111-160 | the encoding's characters are the table's for the input's bits in order, zero-filled to whole sextets, then '=' or '.' up to `(n+2)/3*4` characters (section 4 of RFC 4648) |
| Alphabets.DecodeAccepts | base64.cpp:193-238 | the exact acceptance with tables and padding written out |
| Alphabets.Examples | base64.cpp:111-160 | "Man" is "TWFu" both ways, and the bytes 251, 240 are "+/A=" and "-_A." |
| Base64Laws.PositionBits | base64.cpp:134-153 | the sextets of a chunk are its bits and then zeros |
| Base64Laws.ChunkRoundTrip | base64.cpp:207-235 | a chunk decodes to its bytes however much of its padding is dropped |
| Base64Laws.RoundTrip | base64.cpp:111-240 | decoding undoes encoding for every byte string and both alphabets, with any part of the trailing padding dropped |
| Base64Laws.EncodeIsCanonical | base64.cpp:133-156 | encodings are whole chunks over the chosen alphabet, padded only at the end, with zero unused bits (section 3.5 of RFC 4648) |
| Base64Laws.EncoderImage | base64.cpp:133-156 | a text is canonical if and only if it is the encoding of something |
| Base64Laws.CanonicalRoundTrip | base64.cpp:193-238 | on canonical text, encoding undoes decoding |
| Base64Laws.ExactAcceptance | base64.cpp:193-238 | decoding returns normally if and only if every chunk has two accepted characters and each later one is accepted, absent, padding, or behind padding in third place; the length is the sum over chunks |
| Base64Laws.OutputBound | base64.cpp:189 | text of whole chunks yields at most the reserved `length/4*3` bytes |
| Base64Laws.ErrorKind | base64.cpp:207 | `std::out_of_range` is thrown if and only if a single character is left behind accepted whole chunks |
| Base64Laws.DecodeChunkBits | base64.cpp:212-233 | a chunk's bytes are the leading 8, 16 or 24 bits of its sextets |
| Base64Laws.EncodeConcatenation | base64.cpp:133-156 | whole groups of three bytes are encoded independently of what follows |
| Base64Laws.DecodeConcatenation | base64.cpp:193-238 | whole chunks are decoded independently of what follows, even when they end in padding, and the first rejected one decides |
| Base64Laws.AlphabetIndependence | base64.cpp:63-64 | exchanging `+` and `-`, `/` and `_`, or `=` and `.` anywhere never changes the decoding |
| Base64Laws.CounterExact | base64.cpp:131-155 | the 32-bit counter does not wrap while three times the iteration number fits |
| Base64Laws.EncoderLoopEnds | base64.cpp:133-156 | the encoder's loop ends if and only if the length is below 2^32, and then after exactly `(n+2)/3` iterations |
| Linebreaks.InsertLinebreaks | base64.cpp:73-89 | inserting while scanning ends, and gives the text with a newline after every full line that something follows |
| Linebreaks.EncodeWithLineBreaks | base64.cpp:91-94 | the wrapped standard encoding |
| Linebreaks.EncodePem | base64.cpp:96-99 | the standard encoding in lines of 64 characters, the last of 1 to 64, without a newline at the end; it decodes to the input |
| Linebreaks.EncodeMime | base64.cpp:101-104 | the same with lines of 76 characters |
| Linebreaks.WrapIsLined | base64.cpp:73-104 | for every line length, wrapping gives lines of that shape, the empty text for the empty input, and decodes to the input |
| Linebreaks.LinesAtNewline | base64.cpp:84 | lines end at the character 10 and nowhere else |
| Linebreaks.RemovesNewlines | base64.cpp:173-175 | `remove_linebreaks` drops the characters 10 and nothing else, and keeps the order |
| Linebreaks.Unwrap | base64.cpp:171-178 | removing newlines undoes wrapping |
| Linebreaks.WrappedRoundTrip | base64.cpp:91-104 | decoding PEM or MIME output with `remove_linebreaks` returns the input |
| Linebreaks.LineShape | base64.cpp:81-88 | every line but the last has exactly the line length, the last has one to that many characters, no newline ends the text, and the lines joined are the text (section 2 of RFC 7468, section 6.8 of RFC 2045) |
| HandleInvariant.InvStep | include/cppgc/cross-thread-persistent.h:79-412 | every step of every mutator and of the collector keeps the invariant between pointers, nodes, regions and the lock |
| HandleInvariant.ReachableInv | include/cppgc/cross-thread-persistent.h:79-412 | it holds in every reachable state |
| HandleInvariant.SafeAssignOwn | include/cppgc/cross-thread-persistent.h:386-404 | a locked assignment leaves the value assigned and one live node exactly when the value is an object |
| HandleInvariant.MoveInOwn | include/cppgc/cross-thread-persistent.h:207-219 | a move into a cleared handle hands over value and ownership and leaves the other handle without a node |
| HandleLaws.HandleAgrees | include/cppgc/cross-thread-persistent.h:79-147 | a handle between operations, whatever the other handles do, has a node if and only if it points to an object, and that node is live in the object's region and the only one that names the handle |
| HandleLaws.RegistryAgrees | include/cppgc/cross-thread-persistent.h:79-147 | every live node names a handle that still exists, idle handles share no node, and when all are idle every live node is the node of the handle it names |
| HandleLaws.FreesAreSafe | include/cppgc/cross-thread-persistent.h:397 | every `FreeNode`, in the destructor, `AssignUnsafe`, `AssignSafe` and the collector, gets a live node of the right region that names the handle |
| HandleLaws.NodeCheckNeverFails | include/cppgc/cross-thread-persistent.h:97 | the check `!GetNode()` of the destructor and of `AssignUnsafe` never fails |
| HandleLaws.MoveHandsOver | include/cppgc/cross-thread-persistent.h:210-218 | `UpdateOwner` is called on a live node of the other handle; the move allocates and frees nothing, and value and node change hands |
| HandleLaws.MoveAssigns | include/cppgc/cross-thread-persistent.h:207-219 | a whole move assignment, with anything between its two locked sections: the second one is possible once the lock is free, and the target gets the other's value unless the collector cleared it, and a node exactly when it is an object |
| HandleLaws.ReleaseClears | include/cppgc/cross-thread-persistent.h:293-297 | `Release`, with anything between its read and its clear: the handle ends empty, and the collector has cleared at most the value returned, before the clear |
| HandleRuns.DestructorDestroys | include/cppgc/cross-thread-persistent.h:79-103 | under every interleaving, from the start of the destructor on, the handle is never idle again, no value is assigned to it, it is cleared at most once, and when its thread is in no operation any more it is gone, with no node; the node that it owned was freed exactly once and none allocated |
| HandleRuns.FastPaths | include/cppgc/cross-thread-persistent.h:85 | without a node the destructor is over at once, and between values that are no objects an assignment is one write, without the lock |
| HandleLaws.DestroyedForGood | include/cppgc/cross-thread-persistent.h:79-103 | after the destructor no live node names the handle, the collector is not on it, and exactly as many of its nodes were freed as were allocated for it or received in moves, less those given away |
| HandleLaws.DestroyedUntouched | include/cppgc/cross-thread-persistent.h:79-103 | no later step of anyone touches a destroyed handle |
| HandleLaws.AssignUnsafeRefines | include/cppgc/cross-thread-persistent.h:358-384 | under every interleaving, `AssignUnsafe` has taken effect exactly once when it returns, with any collector clear wholly before or wholly after, and one live node names the handle if and only if its value is an object |
| HandleRuns.AssignUnsafeNodes | include/cppgc/cross-thread-persistent.h:366-382 | under every interleaving, the node is kept if both values are objects of one region and no clear comes before the write; otherwise one is allocated exactly if the value is an object; what is no longer owned has been freed |
| HandleRuns.ConstructTakes | include/cppgc/cross-thread-persistent.h:117-125 | under every interleaving, a constructed handle ends idle with the given value, cleared at most once afterwards, and with one node exactly if its value is an object |
| HandleRuns.GcVisitClears | include/cppgc/cross-thread-persistent.h:406-412 | whatever mutators do meanwhile, a visit of the collector adds exactly one clear to the handle's history, frees its node exactly once, leaves it without a node, and null unless its own thread has written since |
| HandleLaws.SafeAssignTakes | include/cppgc/cross-thread-persistent.h:386-404 | a locked assignment takes effect in the same way and is never refused; on the regions it does what the method `AssignSafe` promises |
| HandleLaws.ValuesStep | include/cppgc/cross-thread-persistent.h:358-412 | who may change which value: the collector nulls an object; a mutator writes what it assigns; a move passes the value on |
| HandleLaws.OperationsAreBounded | include/cppgc/cross-thread-persistent.h:79-103 | over any run, an operation takes at most eleven steps of its own thread, whatever others do |
| HandleLaws.CollectorStep | include/cppgc/cross-thread-persistent.h:406-412 | the collector releases the lock at most five of its steps after a visit |
| HandleLaws.CollectorGoesOn | include/cppgc/cross-thread-persistent.h:406-412 | the collector never stands still with the lock and can visit every handle that a live node names |
| HandleLaws.SomeoneSteps | include/cppgc/cross-thread-persistent.h:358-384 | while an operation is under way, some mutator can take a step of its operation, or the collector holds the lock and can take a step towards releasing it |
| Handles.Regions.AllocateNode | include/cppgc/internal/persistent-node.h:190-196 | a node of the region that was not in use, with the given owner |
| Handles.Regions.FreeNode | include/cppgc/internal/persistent-node.h:198-201 | removes exactly the given node, which must be in use |
| Handles.NoSharing | include/cppgc/cross-thread-persistent.h:71-147 | no two handles share a node |
| Handles.CrossThreadPersistent.constructor | include/cppgc/cross-thread-persistent.h:105-125 | holds the value, and one new node exactly when it is an object |
| Handles.CrossThreadPersistent.AssignSafe | include/cppgc/cross-thread-persistent.h:386-404 | the value is assigned, the old node is gone unless the region stays the same, and no other handle's node is touched |
| Handles.CrossThreadPersistent.AssignUnsafe | include/cppgc/cross-thread-persistent.h:358-384 | without interference, the same contract as `AssignSafe` |
| Handles.CrossThreadPersistent.Clear | include/cppgc/cross-thread-persistent.h:281-284 | null, no node, the old node freed |
| Handles.CrossThreadPersistent.Release | include/cppgc/cross-thread-persistent.h:293-297 | returns the old value and clears |
| Handles.CrossThreadPersistent.CopyFrom | include/cppgc/cross-thread-persistent.h:188-193 | the value is copied, the other handle keeps value and node, also when it is the same handle |
| Handles.CrossThreadPersistent.MoveFrom | include/cppgc/cross-thread-persistent.h:207-219 | value and node change hands, the old node is freed, the other handle is left null or with its sentinel; a self-move does nothing |
| Handles.CrossThreadPersistent.Destroy | include/cppgc/cross-thread-persistent.h:79-103 | the node is freed and the remaining handles agree with the regions |
| Handles.CrossThreadPersistent.ClearFromGC | include/cppgc/cross-thread-persistent.h:406-412 | an object becomes null and its node is freed; null and the sentinel stay |

## Left out

- Engine.V8Engine.Create: is stated for the case that no worker steps before it returns; the state machine, and
  `BeginCreate` and `StartThread`, let the first workers run while later ones are started.
- Engine.V8Engine.GetResult: is the state machine's step only for an empty list; for others it states the swap.
- Engine.V8Engine.GarbageCollect: is stated without other steps between its pushes; `BroadcastAmongOthers` has them.
- Engine.V8Engine.PrintMemoryInfo: the same.
- Engine.V8Engine.CloseVMJoin: the joins are one step, possible once all workers have left. Joining them in turn comes
  to the same, because a worker that has left stays so while `CloseVM` joins (`BoundedExit`).
- Base64.EncodeBytes: requires a length below 2^32, because the source does not end otherwise (`EncoderLoopEnds`).
- Linebreaks.InsertLinebreaks: requires a positive distance; the source only passes 64 and 76, and does not end on
  non-empty text for 0.
- Handles.CrossThreadPersistent.AssignUnsafe: is stated without interference; `AssignUnsafeRefines` has it.
- Handles.CrossThreadPersistent.MoveFrom: is stated without interference; `MoveAssigns` has it.
- Handles.CrossThreadPersistent.Release: is stated without interference; `ReleaseClears` has it.
- Handles.CrossThreadPersistent.Destroy: is stated without interference; `NodeCheckNeverFails`, `FreesAreSafe` and
  `DestroyedForGood` have it.
- PoolStatistics.CountBoundedBelow: the count is an unbounded integer, so a wrap of `int` after a `StartStat` with
  a negative argument is not modelled.
- The thread function's `while (true)` is not a loop of a method: its iterations are the worker actions of the state
  machine, because other threads act between them.
- V8 itself: compiling, running, isolates, heap statistics and the collection that "gc" starts. One nondeterministic
  outcome of the JS call stands for it.
- `InitEnv`, `Release` of the engine, console output other than the "all task done" line, clock reads and
  `CheckHeapSize`, which nothing calls.
- The callback of a broadcast does nothing; here it is one fixed callback.
- The `string_view` overloads, `reserve` and the wrap of `size_t` on texts near its limit.
- The free list inside `PersistentRegion`: allocation picks any node that is not in use.
- `CheckPointer`, source locations, conversions between handle types, `To` and `Lock`.
- C++ memory orders and the undefined behaviour of data races.
- `tt.cpp` and the rest of `include/`: demonstration code, declarations and casts.
