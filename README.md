# cppthreadflow, modelled in Dafny

cppthreadflow is a C++17 threading library with a Conan recipe. It provides:

- a sharded concurrent hash map;
- a blocking FIFO queue with a stop flag;
- a per-worker work-stealing deque and a work-stealing thread pool;
- a count-down latch, a counting semaphore and a cyclic barrier;
- a timer scheduler;
- a task graph that runs nodes once their predecessors have finished.

The recipe reads the package name, version and description out of `CMakeLists.txt` with one regular expression. It also applies a few option and setting rules.

This project models the logic each primitive runs while it holds its lock. Each primitive becomes a sequential object: a Dafny `class` whose methods update its fields in place. A blocking wait becomes either a precondition or a query that says whether the wait would end now. The rest is modelled on values:

- the recipe's text parser, as functions over strings;
- the pool's routing rules, as functions over the sequence of deques;
- the scheduler's bookkeeping, as functions over the queue of entries;
- the graph's counting, as functions over the node list.

Each method is proved against those functions. Lemmas state the properties the library promises, for example:

- FIFO and LIFO order;
- a one-shot latch;
- k·n arrivals completing k barrier generations;
- periodic firings;
- a steal failing only when every other queue is empty;
- task conservation in a worker round;
- a graph run that completes exactly when the graph is acyclic;
- the first project declaration winning in the parser.

Files, one module each: `wrappers.dfy` (Option, Result), `project_metadata.dfy`, `recipe.dfy`, `concurrent_hash_map.dfy`, `concurrent_queue.dfy`, `work_stealing_queue.dfy`, `work_stealing_pool.dfy`, `latch.dfy`, `semaphore.dfy`, `barrier.dfy`, `scheduler.dfy`, `task_flow.dfy`.

Several things outside the model become parameters:

- the clock reading `now`;
- the hash function;
- the random first victim of a steal;
- the thread-local worker index;
- the number of worker rounds before the stop flag is seen.

Tasks and node work are plain numbers. Running one means recording its number.

## Model

| member | source | states |
|---|---|---|
| ProjectMetadata.Lower | conanfile.py:24 | the name is lower-cased character by character (ASCII letters move down by 32, everything else is kept), the length is kept and no upper-case letter remains |
| ProjectMetadata.SkipWhile | conanfile.py:19 | a greedy `\s`, `\S` or `[^\s)]` repetition consumes a prefix entirely in the class and stops at the first character outside it |
| ProjectMetadata.SkipWhileIsSuffix | conanfile.py:19 | what a greedy repetition leaves is a suffix of its input |
| ProjectMetadata.MatchTail | conanfile.py:19 | after the version token the pattern matches exactly when a ')' follows; the description is the optional group's text when it is kept, else the default |
| ProjectMetadata.QuotedAt | conanfile.py:19 | the quoted description is kept only when it is non-empty, quote-free and a ')' follows its closing quote |
| ProjectMetadata.DescriptionAt | conanfile.py:19 | the optional `DESCRIPTION "<text>"` group yields only non-empty quote-free text followed by a ')' |
| ProjectMetadata.SkipSplit | conanfile.py:19 | a run of a character class and the rest after it make up the whole text |
| ProjectMetadata.QuotedShape | conanfile.py:19 | a quoted text that is found is the text of a `"<text>"` prefix followed by a ')' |
| ProjectMetadata.QuoteJoin | conanfile.py:19 | an opening quote, the quote-free text and a rest starting with the closing quote make `"<text>"<rest>` |
| ProjectMetadata.DescriptionAtNone | conanfile.py:19 | without DESCRIPTION after the spaces there is no description, so the default one applies |
| ProjectMetadata.ClauseWitness | conanfile.py:19 | spaces, the keyword, spaces and a kept quoted text form a whole description clause |
| ProjectMetadata.DescriptionAtShape | conanfile.py:19 | a description found is always the text of a whole `DESCRIPTION "<text>"` clause with non-empty spaces around the keyword and a ')' after it |
| ProjectMetadata.MatchVersion | conanfile.py:19 | a match from the version keyword on yields well-formed metadata with the captured name |
| ProjectMetadata.MatchName | conanfile.py:19 | a match from the name token on yields well-formed metadata |
| ProjectMetadata.Match | conanfile.py:19 | a match anchored at the front of a text starts with `project` and yields a non-empty lower-case name, a non-empty version token and a non-empty description |
| ProjectMetadata.Search | conanfile.py:19 | re.search: the leftmost matching position, with every earlier position failing, or none when no position matches |
| ProjectMetadata.Extract | conanfile.py:19-27 | success exactly when some position matches; the result is the match at a position; it is well-formed; a text without the keyword `project` gives PatternNotFound |
| ProjectMetadata.SkipOver | conanfile.py:19 | a greedy repetition takes exactly a whole segment of its class that is followed by a character outside it |
| ProjectMetadata.OpeningMatches | conanfile.py:19 | `project`, optional white space, `(` and optional white space lead straight to the name token |
| ProjectMetadata.NameMatches | conanfile.py:19-24 | the whole non-space name token is captured and lower-cased |
| ProjectMetadata.VersionMatches | conanfile.py:19-25 | the whole version token, up to white space or ')', is captured verbatim |
| ProjectMetadata.HeadMatches | conanfile.py:19 | at a well-formed declaration head, across any white space or line breaks, the match is the tail match with the lower-cased name and verbatim version |
| ProjectMetadata.ClauseReachesQuote | conanfile.py:19 | white space, `DESCRIPTION` and white space lead to the opening quote |
| ProjectMetadata.QuotedKept | conanfile.py:19-26 | non-empty quoted text followed by a ')' is the description |
| ProjectMetadata.QuotedUnclosed | conanfile.py:19 | quoted text with no ')' after it is not kept |
| ProjectMetadata.QuotedEmpty | conanfile.py:19-26 | empty quotes are not kept |
| ProjectMetadata.DescribedTail | conanfile.py:19-26 | a full description clause with non-empty text and a later ')' yields that text |
| ProjectMetadata.EmptyQuotesTail | conanfile.py:19-26 | with `DESCRIPTION ""` the group is skipped, so the default description is used |
| ProjectMetadata.UnclosedAfterDescriptionTail | conanfile.py:19 | when no ')' follows the description, the matcher backtracks past it and the description is dropped |
| ProjectMetadata.FirstOccurrenceWins | conanfile.py:19 | when the first `project` keyword matches, extraction returns that match |
| ProjectMetadata.MatchNeedsParenthesis | conanfile.py:19 | a match needs a ')' after the keyword |
| ProjectMetadata.NoClosingParenthesis | conanfile.py:19-21 | a text without any ')' raises the extraction error and returns no partial metadata |
| ProjectMetadata.ExtractFirstDeclaration | conanfile.py:19-27 | for any text whose first `project` opens a well-formed declaration closed by ')', extraction gives the lower-cased name, the verbatim version, and the description or the default one |
| Recipe.OptionsFor | conanfile.py:78-80 | fPIC is removed exactly on Windows; every other option keeps its value |
| Recipe.ConfiguredStd | conanfile.py:82-84 | an unset standard becomes 17; a set one is kept |
| Recipe.ValidateAsWritten | conanfile.py:86-89 | the check as written: accepted exactly when the standard is unset or its level is at least 14, else InvalidConfiguration with the recipe's message |
| Recipe.StandardYear | conanfile.py:88 | a two-digit level names a year ending in those digits; 9x are the years before 2000 |
| Recipe.Validate | conanfile.py:86-89 | the check as intended: accepted exactly when the standard is unset or its year is not before C++14's; otherwise the recipe's message |
| Recipe.ConanRecipe.constructor | conanfile.py:50-51 | a recipe starts with shared = False and fPIC = True |
| Recipe.ConanRecipe.ConfigOptions | conanfile.py:78-80 | config_options removes fPIC on Windows and changes nothing else |
| Recipe.ConanRecipe.Configure | conanfile.py:82-84 | configure fills in the default standard and leaves the options alone |
| Recipe.DefaultOptionsAfterConfig | conanfile.py:78-80 | off Windows the defaults stand; on Windows only shared = False is left |
| Recipe.ConfigureIdempotent | conanfile.py:82-84 | configure is idempotent and keeps a user-set standard |
| Recipe.ConfiguredDefaultIsValid | conanfile.py:84-89 | the default standard passes validation; among two-digit levels, exactly 14 to 89 pass |
| Recipe.AsWrittenAcceptsCpp98 | conanfile.py:88 | the check as written accepts 98, which names an older standard than 14; the intended check rejects it |
| Recipe.ChecksAgreeAfter2000 | conanfile.py:86-89 | the two checks agree on an unset standard and on every level below 90 |
| ShardedHashMap.ShardCount | benchmarks/ThreadLib/concurrent_hash_map.hpp:42-44 | a concurrency level of 0 gives one shard; any other gives that many |
| ShardedHashMap.KeysOfPlaced | benchmarks/ThreadLib/concurrent_hash_map.hpp:138-144 | with every key in the shard its hash selects, a key is stored exactly when it is in that shard |
| ShardedHashMap.SumSizesCountsKeys | benchmarks/ThreadLib/concurrent_hash_map.hpp:123-130 | the sum of the shard sizes is the number of distinct keys |
| ShardedHashMap.PlacedReplace | benchmarks/ThreadLib/concurrent_hash_map.hpp:138-144 | replacing a shard by one whose keys hash to it keeps every key in its own shard |
| ShardedHashMap.FlattenOutside | benchmarks/ThreadLib/concurrent_hash_map.hpp:58-62 | changing one shard changes no key that hashes elsewhere |
| ShardedHashMap.UpdateInShard | benchmarks/ThreadLib/concurrent_hash_map.hpp:58-62 | an update in the key's shard is an update of the whole map at that key |
| ShardedHashMap.RemoveFromShard | benchmarks/ThreadLib/concurrent_hash_map.hpp:98-104 | a removal from the key's shard removes exactly that key from the whole map |
| ShardedHashMap.ConcurrentHashMap.constructor | benchmarks/ThreadLib/concurrent_hash_map.hpp:39-47 | ShardCount(level) empty shards |
| ShardedHashMap.ConcurrentHashMap.ShardOf | benchmarks/ThreadLib/concurrent_hash_map.hpp:138-144 | get_shard is hash modulo the shard count; a key is in the map exactly when it is in that shard |
| ShardedHashMap.ConcurrentHashMap.Insert | benchmarks/ThreadLib/concurrent_hash_map.hpp:58-73 | insert-or-update: the content becomes the old content with the key mapped to the new value |
| ShardedHashMap.ConcurrentHashMap.Find | benchmarks/ThreadLib/concurrent_hash_map.hpp:81-91 | true with the stored value exactly when the key is present; otherwise false with the caller's value untouched; the map is not changed |
| ShardedHashMap.ConcurrentHashMap.Erase | benchmarks/ThreadLib/concurrent_hash_map.hpp:98-104 | true exactly when the key was present; afterwards the content is the old one without the key |
| ShardedHashMap.ConcurrentHashMap.Clear | benchmarks/ThreadLib/concurrent_hash_map.hpp:110-115 | every shard is emptied: the content is empty |
| ShardedHashMap.ConcurrentHashMap.Size | benchmarks/ThreadLib/concurrent_hash_map.hpp:123-130 | the summed shard sizes equal the number of keys in the map |
| BlockingQueue.ConcurrentQueue.constructor | src/ThreadLib/concurrent_queue.hpp:83-86 | empty and not stopped |
| BlockingQueue.ConcurrentQueue.Push | src/ThreadLib/concurrent_queue.hpp:28-34 | appends at the back, stopped or not |
| BlockingQueue.ConcurrentQueue.Pop | src/ThreadLib/concurrent_queue.hpp:42-55 | once woken: none exactly when the queue is stopped and empty; otherwise the front element, which is removed |
| BlockingQueue.ConcurrentQueue.TryPop | src/ThreadLib/concurrent_queue.hpp:73-81 | none and no change on an empty queue; otherwise exactly the front element is removed and returned |
| BlockingQueue.ConcurrentQueue.Stop | src/ThreadLib/concurrent_queue.hpp:61-67 | sets the flag and keeps every element, so it is idempotent |
| BlockingQueue.StopThenPop | src/ThreadLib/concurrent_queue.hpp:45-66 | after stop, pop still returns the queued front element |
| BlockingQueue.PushAllAppends | src/ThreadLib/concurrent_queue.hpp:28-34 | pushing a sequence appends it |
| BlockingQueue.PopAllTakesFront | src/ThreadLib/concurrent_queue.hpp:52-53 | successive pops return a prefix of the queue |
| BlockingQueue.FifoOrder | src/ThreadLib/concurrent_queue.hpp:28-53 | elements come out in the order they were pushed |
| StealingDeque.WorkStealingQueue.constructor | src/ThreadLib/work_stealing_queue.hpp:63-64 | empty |
| StealingDeque.WorkStealingQueue.Push | src/ThreadLib/work_stealing_queue.hpp:27-30 | the task goes to the front |
| StealingDeque.WorkStealingQueue.Pop | src/ThreadLib/work_stealing_queue.hpp:35-43 | none and no change on an empty deque; otherwise the front task, and only it, is removed |
| StealingDeque.WorkStealingQueue.Steal | src/ThreadLib/work_stealing_queue.hpp:48-56 | none and no change on an empty deque; otherwise the back task, and only it, is removed |
| StealingDeque.WorkStealingQueue.PushThenPop | src/ThreadLib/work_stealing_queue.hpp:29-41 | a push followed by a pop returns the same task and restores the deque |
| StealingDeque.WorkStealingQueue.IsEmpty | src/ThreadLib/work_stealing_queue.hpp:58-61 | true exactly when the deque has length 0 |
| StealingDeque.Reverse | src/ThreadLib/work_stealing_queue.hpp:27-30 | reversal keeps the length |
| StealingDeque.PushAllPrepends | src/ThreadLib/work_stealing_queue.hpp:27-30 | pushing a sequence puts it, reversed, in front |
| StealingDeque.PopAllTakesFront | src/ThreadLib/work_stealing_queue.hpp:35-43 | popping everything returns the deque front to back |
| StealingDeque.StealAllReverses | src/ThreadLib/work_stealing_queue.hpp:48-56 | stealing everything returns the deque back to front |
| StealingDeque.ReverseSnoc | src/ThreadLib/work_stealing_queue.hpp:48-56 | reversing after appending puts the appended task first |
| StealingDeque.ReverseInvolutive | src/ThreadLib/work_stealing_queue.hpp:48-56 | reversing twice gives the original order |
| StealingDeque.OwnerPopsNewestFirst | src/ThreadLib/work_stealing_queue.hpp:27-43 | the owner gets its tasks back most recent first (LIFO) |
| StealingDeque.ThievesStealOldestFirst | src/ThreadLib/work_stealing_queue.hpp:27-56 | thieves get the tasks in push order (FIFO) |
| StealingPool.WorkerCount | src/ThreadLib/work_stealing_thread_pool.cpp:7-13 | 0 requested threads give one worker; otherwise as many as requested |
| StealingPool.SubmitTarget | src/ThreadLib/work_stealing_thread_pool.hpp:42-77 | a caller whose index is a valid worker index (and not size_t(-1)) gets its own local queue; every other caller gets the global queue |
| StealingPool.Target | src/ThreadLib/work_stealing_thread_pool.cpp:119-120 | the i-th queue visited is a queue index |
| StealingPool.TargetIsRemainder | src/ThreadLib/work_stealing_thread_pool.cpp:120 | that index is (start + i) % n |
| StealingPool.VisitOrder | src/ThreadLib/work_stealing_thread_pool.cpp:119-127 | every queue visited is a valid index and never the caller's |
| StealingPool.FirstNonEmpty | src/ThreadLib/work_stealing_thread_pool.cpp:119-127 | the first visited queue with a task, all earlier ones being empty; none exactly when all visited queues are empty |
| StealingPool.StealVictim | src/ThreadLib/work_stealing_thread_pool.cpp:108-130 | a victim is a non-empty queue other than the caller's; with one queue there is none |
| StealingPool.AfterSteal | src/ThreadLib/work_stealing_thread_pool.cpp:123 | the victim loses its back task and no other deque changes |
| StealingPool.VisitStep | src/ThreadLib/work_stealing_thread_pool.cpp:119-127 | one loop step: skip the caller, take a non-empty target, otherwise go on |
| StealingPool.VisitHits | src/ThreadLib/work_stealing_thread_pool.cpp:119-127 | the first non-empty target other than the caller is the victim |
| StealingPool.VisitMisses | src/ThreadLib/work_stealing_thread_pool.cpp:119-129 | when every target is the caller or empty, there is no victim |
| StealingPool.VisitOrderMembers | src/ThreadLib/work_stealing_thread_pool.cpp:119-121 | the visit holds exactly the remaining targets other than the caller |
| StealingPool.VisitOrderDistinct | src/ThreadLib/work_stealing_thread_pool.cpp:119-127 | no queue is visited twice |
| StealingPool.VisitOrderCoversOthers | src/ThreadLib/work_stealing_thread_pool.cpp:119-127 | every queue other than the caller's is visited |
| StealingPool.StealFailsOnlyWhenOthersEmpty | src/ThreadLib/work_stealing_thread_pool.cpp:108-130 | with two or more queues, try_steal finds nothing exactly when every other queue is empty |
| StealingPool.NextSpin | src/ThreadLib/work_stealing_thread_pool.cpp:40-84 | the idle counter resets after a task, otherwise grows by one modulo 4000, and stays below 4000 |
| StealingPool.IdleRoundsWrap | src/ThreadLib/work_stealing_thread_pool.cpp:74-84 | k idle rounds move the counter to (spin + k) % 4000 |
| StealingPool.HeldSplit | src/ThreadLib/work_stealing_thread_pool.cpp:11-13 | the tasks of the local queues are those of one queue plus those of the others |
| StealingPool.Round | src/ThreadLib/work_stealing_thread_pool.cpp:46-67 | a round leaves as many deques as before and is idle exactly when it takes no task |
| StealingPool.IdleOnlyWhenNoWork | src/ThreadLib/work_stealing_thread_pool.cpp:46-67 | a worker is idle for a round exactly when the global queue and all local queues are empty, and an idle round changes nothing |
| StealingPool.HeldTake | src/ThreadLib/work_stealing_thread_pool.cpp:46-67 | taking one task from one deque removes exactly that task from the pool |
| StealingPool.HeldPopFront | src/ThreadLib/work_stealing_thread_pool.cpp:46-51 | popping the worker's own front removes exactly that task |
| StealingPool.HeldPopBack | src/ThreadLib/work_stealing_thread_pool.cpp:62-67 | a steal removes exactly the victim's back task |
| StealingPool.RoundConservesTasks | src/ThreadLib/work_stealing_thread_pool.cpp:46-67 | a round takes at most one task, and loses or copies none |
| StealingPool.WorkStealingPool.constructor | src/ThreadLib/work_stealing_thread_pool.cpp:7-13 | one fresh empty local queue per worker, WorkerCount of them, and an empty global queue |
| StealingPool.WorkStealingPool.Submit | src/ThreadLib/work_stealing_thread_pool.hpp:65-77 | exactly the queue SubmitTarget picks grows by the task (at the front of a local deque, at the back of the global queue); every other queue is unchanged |
| StealingPool.WorkStealingPool.TrySteal | src/ThreadLib/work_stealing_thread_pool.cpp:108-130 | the victim StealVictim picks loses its back task, which is returned; without a victim nothing changes |
| StealingPool.WorkStealingPool.WorkerRound | src/ThreadLib/work_stealing_thread_pool.cpp:37-106 | a round does what Round says, updates the counter with NextSpin, conserves the tasks, and idles exactly when the pool is empty |
| StealingPool.WorkStealingPool.WorkerRounds | src/ThreadLib/work_stealing_thread_pool.cpp:37-106 | every task the worker runs was waiting in the pool, and none runs twice; with no work it runs nothing and its counter follows IdleRounds |
| StealingPool.WorkStealingPool.PopOwn | src/ThreadLib/work_stealing_thread_pool.cpp:46-51 | only the worker's own deque changes, losing its front task |
| StealingPool.WorkStealingPool.StealFrom | src/ThreadLib/work_stealing_thread_pool.cpp:123 | only the victim's deque changes, losing its back task |
| CountDownLatch.CountDowns | src/ThreadLib/latch.cpp:13-29 | count-downs never raise the count, never take a non-negative count below zero, leave a count of 0 or less as it is, and lower a positive one |
| CountDownLatch.Latch.IsOpen | src/ThreadLib/latch.cpp:42 | the waiters' predicate: an open latch is one a count-down leaves unchanged |
| CountDownLatch.CountDownsClamp | src/ThreadLib/latch.cpp:13-29 | k count-downs leave max(count − k, 0); count of them open the latch |
| CountDownLatch.OpenLatchStaysOpen | benchmarks/ThreadLib/latch.hpp:11-13 | once zero, the count stays zero (one-shot) |
| CountDownLatch.CountDownsMonotone | src/ThreadLib/latch.cpp:17-18 | more count-downs never raise the count |
| CountDownLatch.CountDownsStep | src/ThreadLib/latch.cpp:13-29 | one more count-down is one more step |
| CountDownLatch.Latch.constructor | src/ThreadLib/latch.cpp:5-11 | a negative initial count is clamped to zero (open); any other is kept |
| CountDownLatch.Latch.CountDown | src/ThreadLib/latch.cpp:13-29 | one less when positive, no effect at zero; the count stays non-negative; waiters are released exactly when the count goes from 1 to 0 |
| CountDownLatch.Latch.CountDownTimes | src/ThreadLib/latch.cpp:13-29 | k calls leave CountDowns(count, k) |
| CountDownLatch.Latch.Wait | src/ThreadLib/latch.cpp:31-43 | returns now exactly when the count is zero, and changes nothing |
| CountingSemaphore.Step | benchmarks/ThreadLib/semaphore.cpp:12-47 | acquire proceeds exactly when the count is positive; every other call proceeds; release gives count + 1; acquire and try_acquire on a positive count give count − 1; try_acquire on a count of 0 or less leaves it |
| CountingSemaphore.Run | benchmarks/ThreadLib/semaphore.cpp:12-47 | no calls leave the count; each call moves it by at most one; a sequence without acquire never blocks |
| CountingSemaphore.Repeat | benchmarks/ThreadLib/semaphore.cpp:12-47 | k copies of one call |
| CountingSemaphore.RunAppend | benchmarks/ThreadLib/semaphore.cpp:12-47 | two batches of calls run one after the other |
| CountingSemaphore.ReleasesAdd | benchmarks/ThreadLib/semaphore.cpp:16 | k releases add k |
| CountingSemaphore.AcquiresSubtract | benchmarks/ThreadLib/semaphore.cpp:30-33 | k acquires from at least k subtract k without blocking |
| CountingSemaphore.ReleasesThenAcquiresRestore | benchmarks/ThreadLib/semaphore.cpp:16-33 | k releases then k acquires restore the count |
| CountingSemaphore.RunKeepsNonNegative | benchmarks/ThreadLib/semaphore.cpp:5-39 | a count that starts non-negative stays non-negative |
| CountingSemaphore.Semaphore.constructor | benchmarks/ThreadLib/semaphore.cpp:5-10 | the initial count, zero by default, is stored unchecked |
| CountingSemaphore.Semaphore.Release | benchmarks/ThreadLib/semaphore.cpp:12-23 | exactly one more |
| CountingSemaphore.Semaphore.Acquire | benchmarks/ThreadLib/semaphore.cpp:25-34 | proceeds only on a positive count and takes exactly one |
| CountingSemaphore.Semaphore.TryAcquire | benchmarks/ThreadLib/semaphore.cpp:36-47 | true exactly when the count was positive, then one less; otherwise false with no change |
| CountingSemaphore.Semaphore.RunCalls | benchmarks/ThreadLib/semaphore.cpp:12-47 | a non-blocking sequence of calls leaves the count Run gives |
| CyclicBarrier.NextPhase | benchmarks/ThreadLib/barrier.cpp:21-30 | an arrival counts up, except the last of a generation, which resets the count and starts the next generation; the count stays below the party count |
| CyclicBarrier.Arrivals | benchmarks/ThreadLib/barrier.cpp:21-30 | the count stays below the party count across arrivals |
| CyclicBarrier.ArrivalsCompose | benchmarks/ThreadLib/barrier.cpp:21-30 | arrivals in two batches |
| CyclicBarrier.PartialRound | benchmarks/ThreadLib/barrier.cpp:21-23 | arrivals that do not complete the round only count up |
| CyclicBarrier.FullRound | benchmarks/ThreadLib/barrier.cpp:23-30 | party arrivals release the generation and reset the count |
| CyclicBarrier.RoundsComplete | benchmarks/ThreadLib/barrier.cpp:23-30 | after k·party arrivals, generation k has begun and the count is 0 |
| CyclicBarrier.GenerationGrows | benchmarks/ThreadLib/barrier.cpp:23-30 | the generation never goes back |
| CyclicBarrier.WaiterReleased | benchmarks/ThreadLib/barrier.cpp:18-46 | a non-last arriver may leave exactly once the parties still missing have arrived |
| CyclicBarrier.Barrier.constructor | benchmarks/ThreadLib/barrier.cpp:6-12 | generation 0 with no arrival, for a positive party count |
| CyclicBarrier.Barrier.Arrive | benchmarks/ThreadLib/barrier.cpp:14-50 | the arrival records the current generation and steps by NextPhase; it is the last exactly when the generation moves |
| CyclicBarrier.Barrier.MayLeave | benchmarks/ThreadLib/barrier.cpp:44-46 | the waiters' predicate: the generation has moved on from the caller's; Arrive's last result and ArriveAndWait's leave are this predicate |
| CyclicBarrier.Barrier.ArriveAndWait | benchmarks/ThreadLib/barrier.cpp:14-50 | after the caller and others more arrive, the state is their arrivals, and the caller leaves exactly when they make up the party |
| CyclicBarrier.Barrier.ArriveTimes | benchmarks/ThreadLib/barrier.cpp:14-50 | k arrivals leave Arrivals(party, phase, k) |
| CyclicBarrier.NewBarrier | benchmarks/ThreadLib/barrier.cpp:6-12 | a party count of 0 or less is rejected with invalid_argument and the library's message; any other gives a fresh barrier in generation 0 |
| TimerScheduler.Top | src/ThreadLib/scheduler.hpp:77-90 | the top entry is due no later than any other |
| TimerScheduler.Remove | benchmarks/ThreadLib/scheduler.cpp:74-75 | popping removes exactly the popped entry and keeps every other one |
| TimerScheduler.Fires | benchmarks/ThreadLib/scheduler.cpp:72-91 | the entries drains hand over for one queued entry: as many as it owes |
| TimerScheduler.Leftover | benchmarks/ThreadLib/scheduler.cpp:72-91 | what drains leave of one queued entry: at most one entry, none exactly for a due one-shot entry |
| TimerScheduler.ExpandTimes | benchmarks/ThreadLib/scheduler.cpp:72-91 | the k-th firing is the entry moved k intervals on and due; what is left is moved past every firing and not due |
| TimerScheduler.Requeue | benchmarks/ThreadLib/scheduler.cpp:87-90 | a periodic entry returns one interval later; a one-shot one is gone |
| TimerScheduler.OneShotFiresOnce | src/ThreadLib/scheduler.hpp:47-51 | a one-shot entry fires once if it is due and never otherwise |
| TimerScheduler.PeriodicFirings | src/ThreadLib/scheduler.hpp:60-67 | a periodic entry fires at first, first + interval, …: k ≥ 1 times, the k-th due and the next not |
| TimerScheduler.OwedAppend | benchmarks/ThreadLib/scheduler.cpp:72-91 | the firings owed are additive over the queue |
| TimerScheduler.FiresAppend | benchmarks/ThreadLib/scheduler.cpp:72-91 | the entries handed over are additive over the queue |
| TimerScheduler.LeftoverAppend | benchmarks/ThreadLib/scheduler.cpp:72-91 | the entries left behind are additive over the queue |
| TimerScheduler.OwedRemove | benchmarks/ThreadLib/scheduler.cpp:72-91 | removing an entry removes what it owes, hands over and leaves behind |
| TimerScheduler.FireOwesOneLess | benchmarks/ThreadLib/scheduler.cpp:72-91 | firing a due entry and requeueing it pays off exactly one firing, so the drain terminates |
| TimerScheduler.FireHandsOver | benchmarks/ThreadLib/scheduler.cpp:72-91 | firing a due entry and requeueing it hands over exactly that entry of what the queue owes |
| TimerScheduler.FireKeepsLeftover | benchmarks/ThreadLib/scheduler.cpp:72-91 | firing a due entry and requeueing it does not change what drains leave behind |
| TimerScheduler.NotBeforeAfterFire | benchmarks/ThreadLib/scheduler.cpp:74-90 | firing an entry no earlier than t from a queue with nothing before t leaves nothing before t |
| TimerScheduler.AccountedStep | benchmarks/ThreadLib/scheduler.cpp:72-91 | one firing of a due entry keeps the drain's books |
| TimerScheduler.AccountedThen | benchmarks/ThreadLib/scheduler.cpp:72-91 | books kept over two stretches of firings are kept over both |
| TimerScheduler.AccountedDone | benchmarks/ThreadLib/scheduler.cpp:72 | once nothing is due, the fired entries are all that was owed and the queue is what is left |
| TimerScheduler.NothingDueOwesNothing | benchmarks/ThreadLib/scheduler.cpp:72 | nothing is owed or handed over when no entry is due, and every entry is left as it is |
| TimerScheduler.InTimeOrderSnoc | benchmarks/ThreadLib/scheduler.cpp:72-81 | appending an entry due no earlier than the last keeps time order |
| TimerScheduler.FiredInOrder | benchmarks/ThreadLib/scheduler.cpp:72-81 | firing the top keeps the fired entries due and in time order |
| TimerScheduler.DrainStep | benchmarks/ThreadLib/scheduler.cpp:72-91 | firing the top keeps the drain loop's invariant and owes less |
| TimerScheduler.TopNotDue | benchmarks/ThreadLib/scheduler.cpp:72 | when the top is not due, no entry is, nothing is handed over and every entry is left |
| TimerScheduler.Scheduler.constructor | benchmarks/ThreadLib/scheduler.cpp:6-9 | empty queue, stop not set |
| TimerScheduler.Scheduler.ScheduleAt | benchmarks/ThreadLib/scheduler.cpp:22-29 | exactly one entry (time, 0, task) is added |
| TimerScheduler.Scheduler.ScheduleAfter | benchmarks/ThreadLib/scheduler.cpp:31-33 | schedule_at(now + delay) |
| TimerScheduler.Scheduler.SchedulePeriodic | benchmarks/ThreadLib/scheduler.cpp:35-45 | a zero interval adds nothing; otherwise one entry (first, interval, task) |
| TimerScheduler.Scheduler.Stop | benchmarks/ThreadLib/scheduler.cpp:11-13 | sets the stop flag and keeps the queue |
| TimerScheduler.Scheduler.FireTop | benchmarks/ThreadLib/scheduler.cpp:74-90 | the top entry is taken and requeued when periodic; it and the firings still owed to the queue are what was owed before, and the leftovers do not change |
| TimerScheduler.Scheduler.Drain | benchmarks/ThreadLib/scheduler.cpp:72-91 | the fired entries, due and earliest first, are as a multiset exactly the firings Fires expands from the old queue; the queue is exactly what Leftover leaves of it, none of it due |
| TimerScheduler.Scheduler.LoopTurn | benchmarks/ThreadLib/scheduler.cpp:47-93 | the stop flag is kept; with stop set nothing fires and nothing changes; otherwise the fired entries and the queue are what Drain promises |
| TaskGraph.IntoAdd | src/ThreadLib/task_flow.cpp:32-33 | edge counts over a node range split by node |
| TaskGraph.IntoNewEdge | src/ThreadLib/task_flow.cpp:32-33 | one more edge a → b adds one to b's incoming edges and none to any other node |
| TaskGraph.AddEdge | src/ThreadLib/task_flow.cpp:30-35 | b is appended to a's successors and b's in-degree grows by one; nothing else changes |
| TaskGraph.AddEdgeKeepsValid | src/ThreadLib/task_flow.cpp:32-33 | every static in-degree stays equal to the number of edges into its node, duplicates included |
| TaskGraph.DistinctBounded | src/ThreadLib/task_flow.cpp:96-98 | distinct node positions below n are at most n, and exactly n when they cover them all |
| TaskGraph.IndexOf | src/ThreadLib/task_flow.cpp:96-98 | the first position of a node in the run |
| TaskGraph.CompleteRunRanks | src/ThreadLib/task_flow.cpp:83-98 | a run that got through every node, predecessors first, proves the graph acyclic |
| TaskGraph.BlockedNodesRun | src/ThreadLib/task_flow.cpp:83-92 | in an acyclic graph not every pending node can wait on a pending edge |
| TaskGraph.PredecessorsFirstSnoc | src/ThreadLib/task_flow.cpp:83-92 | running a node whose count is zero keeps predecessors first |
| TaskGraph.RunNext | src/ThreadLib/task_flow.cpp:72-92 | the next scheduled node is new and its predecessors have all run |
| TaskGraph.RunCounts | src/ThreadLib/task_flow.cpp:83-92 | after a node runs, each count is still the pending edges into its node |
| TaskGraph.RunEnd | src/ThreadLib/task_flow.cpp:96-98 | when nothing is scheduled, at most n nodes ran, all entry nodes ran, and in an acyclic graph all n ran |
| TaskGraph.CountDownStep | src/ThreadLib/task_flow.cpp:83-92 | decrementing a successor's count schedules it exactly when the count drops from 1 to 0 |
| TaskGraph.ReleaseSuccessors | src/ThreadLib/task_flow.cpp:83-92 | each successor's count drops by one per edge; exactly the nodes whose count reached zero are added to the schedule |
| TaskGraph.RunStart | src/ThreadLib/task_flow.cpp:48-65 | the copied in-degrees and the entry nodes form a valid start state |
| TaskGraph.RunFirst | src/ThreadLib/task_flow.cpp:72-99 | one scheduled node runs and the run state is kept |
| TaskGraph.CopyInDegrees | src/ThreadLib/task_flow.cpp:48-52 | the dynamic counts start as the static in-degrees |
| TaskGraph.EntryNodes | src/ThreadLib/task_flow.cpp:55-60 | the entry nodes are exactly those with static in-degree 0, in insertion order |
| TaskGraph.TaskFlow.constructor | src/ThreadLib/task_flow.hpp:29 | no nodes |
| TaskGraph.TaskFlow.Emplace | src/ThreadLib/task_flow.hpp:37-43 | one new last node with the work, no successors and in-degree 0; existing nodes are untouched; the handle is the new node |
| TaskGraph.TaskFlow.Precede | src/ThreadLib/task_flow.cpp:30-35 | with a null handle nothing changes; otherwise the edge is added as AddEdge says, and in-degrees still count edges |
| TaskGraph.TaskFlow.Run | src/ThreadLib/task_flow.cpp:37-100 | the entry nodes are exactly those with in-degree 0; every node runs at most once and only after all its predecessors; completion is signalled exactly when all n nodes ran, which happens exactly when the graph is acyclic; an empty graph completes at once; the static in-degrees are not changed |

## Left out

- Threads, mutexes, condition variables, atomics and memory ordering. Each operation is the step it runs under its lock. Blocking waits become preconditions (`Semaphore.Acquire`, `ConcurrentQueue.Pop`) or queries (`Latch.Wait`, `Barrier.MayLeave`).
- Timed waits (`wait_for`, the scheduler's `wait_until`, the pool's idle sleep and yield), `idle_threads_`, futures and promises, and the destructors' joins: these are concurrency and clock machinery with no sequential state to model.
- The pool's stop flag: a worker's loop is a given number of rounds (`WorkStealingPool.WorkerRounds`), one per steal start index.
- `my_index_` is a thread-local shared by every pool in the process. It is a parameter of `Submit` and the worker methods, not pool state.
- The random start index of `try_steal` and the hash function are parameters.
- The 32-bit `int` counters of the semaphore, latch and barrier, and the `size_t` hash, are unbounded integers here. Overflow after 2^31 releases or arrivals is not modelled.
- TaskGraph.TaskFlow.Run: the pool's scheduling order is taken to be first-in first-out over a ready list. Any other order the pool picks is not covered.
- TaskGraph.TaskFlow.Precede: handles from another graph are not modelled. Handles are positions in this graph, which the caller must respect.
- TimerScheduler.Scheduler.Drain: the clock is read once per drain. The source re-reads `Clock::now()` on each pass, so a drain that takes time could fire entries that become due meanwhile.
- TimerScheduler.Top: ties between entries due at the same time go to the first one in the queue. The heap leaves their order unspecified.
- ProjectMetadata.Lower: lower-cases ASCII letters only. Python's `str.lower` also maps other Unicode letters.
- The reading of `CMakeLists.txt`, the missing-file error and the module-level call to the parser. The text is a parameter.
- Recipe.ValidateAsWritten: the C++ standard is an integer level. Conan's `Version` parsing of other spellings, such as `gnu17`, is not modelled.
- The recipe's `layout`, `generate`, `build`, `package` and `requirements` steps. They only call into Conan.
- The benchmarks' plain `thread_pool` and the logging helpers are not part of this model.
- `ConcurrentQueue::pop` and `try_pop` return an `Option` instead of writing an out-parameter and returning a bool.

## Findings

| source | as written | input that shows it | evidently intended | confidence | as-written member | corrected member |
|---|---|---|---|---|---|---|
| conanfile.py:88 | `Version(cppstd) < "14"` compares the levels as version numbers | cppstd = 98: 98 is not below 14, so validate accepts C++98 | reject every standard older than C++14, including C++98 | not executed | Recipe.ValidateAsWritten (shown by Recipe.AsWrittenAcceptsCpp98) | Recipe.Validate |
