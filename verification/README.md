# Proofs about the protocols and algorithms of the systems-programming examples

The repository teaches systems programming with small C and Python programs. Nine of them hold a
complete algorithm or synchronisation protocol. This project models those nine in Dafny and proves
what they are for. Every constant that a program fixes with `#define` (number of workers, batch
size, buffer capacity, table size, thresholds) is a parameter, so the statements are unbounded.

How the programs are modelled:

- **Concurrent programs** are step relations: an explicit state, one action per statement (or per
  call made with the mutex held), a program counter per thread, and a scheduler that may pick any
  enabled action. `Runs.dfy` defines runs and reachable states once for all of them. "Every run
  ends" lemmas bound the length of every run by an explicit formula, and "never stuck" lemmas say
  that a run cannot stop before the program is finished; together they give termination under
  every scheduler, without a fairness assumption. The select client never ends; its delivery lemma
  counts turns of the loop thread instead.
- **Sequential programs** are methods on arrays and classes, with the loops of the source, proved
  against a specification that does not mention the method.

| file | program | what it is about |
|---|---|---|
| `Hogwarts.dfy`, `HogwartsProofs.dfy`, `HogwartsTheorems.dfy`, `HogwartsReports.dfy` | `hogwarts.c` | refiller and workers around a list, a mutex and two semaphores, ended by cancellation |
| `Kmp.dfy` | `kmp.c` | Knuth-Morris-Pratt table and search, growing read buffer |
| `Sorting.dfy` | `insertion_sort.c`, `merge_sort.c` | insertion sort with a hole and a final fix-up; the sorting specification |
| `MergeSort.dfy`, `SortThreads.dfy` | `merge_sort.c` | merge, sequential merge sort, and merge sort with a thread per half |
| `ProducerConsumer.dfy` | `producer_consumer2.c` | ring buffer with condition variables |
| `Feast.dfy`, `FeastPolicy.dfy` | `feast.c` | least-frequently-used table against a policy defined by the history |
| `SelectClient.dfy` | `select_client.py` | select loop, queue and wake-up indicator |
| `HandOff.dfy` | `condition.c` | two threads handing a counter back and forth |
| `PipeTransfer.dfy` | `pipe.c` | a message through a pipe with short reads and writes |
| `Runs.dfy`, `Arith.dfy`, `Buffers.dfy` | | runs and invariants, remainders, the two buffer operations shared by the read loops |

## Semantics assumed

- Mutexes, semaphores and condition variables behave as POSIX says; a waiting thread may wake
  spuriously a bounded number of times (the bound is a parameter), and a signal with nobody waiting
  is lost.
- Cancellation is deferred (POSIX.1-2017, System Interfaces, section 2.9.5): it is delivered only at
  `sem_wait` and at the `printf` calls, which may be cancellation points.
- In `hogwarts.c` the stray `b = 1` (line 170) is ignored and `todo - > id` (line 228) is read as
  `todo->id`; the number of tasks is not negative.
- Keys of the sorts are totally ordered (no NaN) and the midpoint is computed in exact
  arithmetic (`MergeSort.DoubleMidAgreesIff` compares it with doubles).
- Calls of `put`, `get` and the work of one loop statement are single actions; that threads never
  touch shared data at the same time is proved, not assumed (`NoEmptyTakeNoRace`,
  `HalvesNeverCollide`, `ProducerConsumer.NoLostWakeup`).

## Where the code and its own description differ

- `read_str_buf` compares the return value with `EINTR` instead of `errno` (02-file-io/kmp.c:134), so
  an interrupted read is not retried. `Kmp.ReadsAsIntendedIff`: the program reads what was intended
  unless an interrupted read is the first to bring no data and end of file would have been reached.
  `Kmp.InterruptionLosesTheFile` is such an input.
- `main` in `insertion_sort.c` passes `len - 1` as the exclusive bound, so it leaves the last element
  out. `Sorting.SortAsMainDoes`: the array ends sorted exactly when its last element is its greatest.
  The array in `main`, {10, 5, 23}, meets that; {10, 23, 5} would not (`Sorting.MainNeedsItsArray`).
- `pipe.c`: when the child fails, the parent goes on writing, and in front of a full pipe it waits for
  ever, because it keeps its own read end open and no error comes back.
  `PipeTransfer.ParentCanBlockIff`: that can happen exactly when the message is longer than the
  capacity of the pipe. The message in the program has 54 bytes and a POSIX pipe holds at least 512,
  so as shipped it always ends.
- `select_client.py`: the loop thread is a daemon, so end of input can lose messages that are still
  queued (`SelectClient.ExitCanLoseAMessage`). With the mutex free, nothing is lost exactly when the
  queue is empty, which `main` could test (`SelectClient.ExitKeepsAllIffDrained`), and nothing is lost
  that the loop has had enough turns for (`SelectClient.ExitAfterEnoughTurns`).
- `merge_sort.c` computes the split in doubles to avoid an overflow. For indices from 2^52 on the
  double can be one too far; `MergeSort.DoubleMidAgreesIff` says exactly when.

## Model

| member | source | states |
|---|---|---|
| `HogwartsTheorems.NoEmptyTakeNoRace` | 05-threading/class/hogwarts/hogwarts.c:111-184 | in every reachable state no elf takes from an empty list (the `exit(-1)` is never reached), Dobby's unlocked writes never coincide with an elf at the list or counter, and at most one elf is in the critical section |
| `HogwartsTheorems.DobbyAndElfCommute` | 05-threading/class/hogwarts/hogwarts.c:111-184 | whenever Dobby and an elf can both move, either can go first, the other still can, and the outcome is the same, although Dobby works without the mutex |
| `HogwartsReports.ElfTakesWhileDobbySignals` | 05-threading/class/hogwarts/hogwarts.c:132-171 | a run in which an elf is at the list while Dobby is still signalling the batch |
| `HogwartsTheorems.OneToken` | 05-threading/class/hogwarts/hogwarts.c:145-158 | exactly one refill token exists, held by `empty_list`, by Dobby or by the current batch |
| `HogwartsTheorems.CancellationIsHarmless` | 05-threading/class/hogwarts/hogwarts.c:138-190 | a cancellation is never delivered to the holder of the mutex, the clean-up handler never runs, and while Dobby cancels the only possible holder has nothing but the unlock left |
| `HogwartsTheorems.TasksAreConserved` | 05-threading/class/hogwarts/hogwarts.c:119-136 | unposted, listed and taken tasks add up to the initial total, and the ids listed and taken are 1..`task_id_counter`, each once |
| `HogwartsTheorems.AllTasksTakenAtTheEnd` | 05-threading/class/hogwarts/hogwarts.c:119-142 | when Dobby has left his loop the list is empty, every id 1..N was taken exactly once and newest first within its batch, he was woken ceil(N/batch)+1 times, and at most one task per elf goes unreported |
| `HogwartsReports.UnreportedAreCut` | 05-threading/class/hogwarts/hogwarts.c:138-232 | along every run the tasks taken are those reported, those in an elf's hands and those whose elf was cancelled in front of its report; once Dobby has returned, reports and cuts make up all tasks |
| `HogwartsReports.TaskCanBeCut` | 05-threading/class/hogwarts/hogwarts.c:138-142 | a complete run with one elf and one task in which the task is done and not reported |
| `HogwartsTheorems.NeverStuck` | 05-threading/class/hogwarts/hogwarts.c:111-184 | until Dobby has joined every elf some action is enabled |
| `HogwartsTheorems.EveryRunEnds` | 05-threading/class/hogwarts/hogwarts.c:111-184 | a run has at most 16 N + 5 elves + 5 actions, and one that cannot go on ends with Dobby returned |
| `HogwartsProofs.InvInductive` | 05-threading/class/hogwarts/hogwarts.c:111-184 | every action of every thread keeps the invariant behind the theorems above |
| `Hogwarts.TaskList.PostTasks` | 05-threading/class/hogwarts/hogwarts.c:208-221 | links new nodes with the next ids in front of the list, newest first |
| `Hogwarts.TaskList.TakeTask` | 05-threading/class/hogwarts/hogwarts.c:235-248 | unlinks the head node and returns its task, and refuses exactly when the list is empty |
| `Hogwarts.PostStepsArePostTasks` | 05-threading/class/hogwarts/hogwarts.c:208-221 | however many steps of the loop of `post_tasks` are left, Dobby's steps through it change list and counter as `PostTasks` does, and nothing else |
| `Kmp.BuildPrefixTable` | 02-file-io/kmp.c:100-110 | `A[0]` is -1 and `A[i]` is the length of the longest proper border of the first i characters; one fallback is made for every border that the next character refuses, and at most m in all |
| `Kmp.ChainVisitsAllBorders` | 02-file-io/kmp.c:105-110 | following the table from `A[i]` visits exactly the proper borders of the first i characters, longest first |
| `Kmp.FallBack` | 02-file-io/kmp.c:84-87 | the inner loop of both functions leaves `j + 1` as the longest alignment after one more character, with exactly one fallback for each alignment that does not survive it |
| `Kmp.KmpSearch` | 02-file-io/kmp.c:81-94 | reports exactly the positions where the pattern ends; one fallback is made for every alignment refused, and fallbacks and matches together number at most n |
| `Kmp.OccurrencesAreExact` | 02-file-io/kmp.c:87-93 | each end of an occurrence is listed once, overlaps included, in text order |
| `Kmp.Find` | 02-file-io/kmp.c:60-70 | for every non-empty pattern and every text the report is the list of occurrences, also when the pattern is longer than the text |
| `Kmp.ReadStrBuf` | 02-file-io/kmp.c:123-152 | the buffer ends up with all bytes up to end of file and, unless there are none, a NUL; every read fits, the buffer is at most twice what one more read would take, and the call fails exactly when open or close fails or a read returns -1 before end of file |
| `Kmp.ReadsAsIntendedIff` | 02-file-io/kmp.c:132-137 | what is read is what retrying interrupted reads would give, unless the first read without data is an interrupted one and end of file comes before any real failure |
| `Kmp.InterruptionLosesTheFile` | 02-file-io/kmp.c:132-137 | one byte, an interruption, end of file: the program gives up where one byte was to be read |
| `Sorting.InsertionSort` | 05-threading/class/insertion_sort.c:3-25 | the half-open range becomes its sorted permutation `Sort`, everything else is unchanged, and the shift assignments number exactly the inversions |
| `Sorting.InsertOne` | 05-threading/class/insertion_sort.c:6-23 | the inner loop with its fix-up inserts one element into the sorted range although the hole duplicates an element and may reach the front unfilled |
| `Sorting.AllButLastSorted` | 05-threading/class/insertion_sort.c:27-38 | sorting all but the last element sorts the whole exactly when the last is the greatest |
| `Sorting.SortAsMainDoes` | 05-threading/class/insertion_sort.c:27-38 | the call in `main` permutes the array and sorts it exactly when its last element is the greatest |
| `Sorting.MainNeedsItsArray` | 05-threading/class/insertion_sort.c:29-34 | the array in `main` ends sorted, {10, 23, 5} would not |
| `Sorting.InversionsCountPairs` | 05-threading/class/insertion_sort.c:8-15 | the count of moves is the number of pairs out of order |
| `Sorting.SortSorts` | 05-threading/class/insertion_sort.c:3-25 | the specification yields a sorted permutation |
| `Sorting.SortedPermutationIsUnique` | 05-threading/class/merge_sort.c:65-99 | a sorted permutation is unique, so all the sorts agree |
| `MergeSort.Merge` | 05-threading/class/merge_sort.c:32-63 | the range becomes the merge of the two runs on either side of the recomputed midpoint, the rest is unchanged |
| `MergeSort.MergeOfSorted` | 05-threading/class/merge_sort.c:44-57 | merging the two sorted halves is sorting the whole |
| `MergeSort.SplitPointsAgree` | 05-threading/class/merge_sort.c:72-95 | the midpoint `start + (end - start) / 2`, computed exactly and truncated, equals the one `merge` computes, and both halves are shorter |
| `MergeSort.DoubleMidAgreesIff` | 05-threading/class/merge_sort.c:72-85 | the same midpoint in doubles, for indices below 2^53, is the exact one if and only if `start + end` is below 2^53 or does not leave 3 modulo 4, and so for every index up to 2^52; otherwise it is one too far |
| `MergeSort.MergeSort` | 05-threading/class/merge_sort.c:65-99 | run by one thread, the range is sorted and the rest unchanged |
| `SortThreads.EveryInterleavingSorts` | 05-threading/class/merge_sort.c:65-99 | under every interleaving of the forked halves, at every depth, the final array is that of the sequential sort, and n-1 threads were created and joined |
| `SortThreads.HalvesNeverCollide` | 05-threading/class/merge_sort.c:87-98 | the elements that concurrently running halves may touch next are disjoint, at every depth |
| `SortThreads.WritesInFootprint` | 05-threading/class/merge_sort.c:44-60 | a step of a call writes only elements of the set that `HalvesNeverCollide` speaks of |
| `SortThreads.ReadsInFootprint` | 05-threading/class/merge_sort.c:44-60 | on an array that agrees on that set the same step is possible and does the same there, so nothing else is read |
| `SortThreads.HalvesCommute` | 05-threading/class/merge_sort.c:87-98 | a step of each half of a fork can be made in either order, whatever the other half has done, and both orders lead to the same array and tasks |
| `SortThreads.StepKeepsOk` | 05-threading/class/merge_sort.c:65-99 | whichever thread moves, every running call keeps its promise and nothing outside its range changes |
| `SortThreads.DepthIsLogarithmic` | 05-threading/class/merge_sort.c:87-95 | the forks nest at most ceil(log2 n) deep |
| `SortThreads.EveryScheduleEndsSorted` | 05-threading/class/merge_sort.c:65-99 | every schedule is finite and can stop only with the range sorted |
| `ProducerConsumer.BoundedBuffer.Put` | 05-threading/examples/src/producer_consumer2.c:14-19 | appends to the FIFO content when there is room; for any state, what becomes of the ring, as `put` does not check for room |
| `ProducerConsumer.BoundedBuffer.Get` | 05-threading/examples/src/producer_consumer2.c:21-27 | returns and removes the oldest value of the FIFO content when there is one; for any state, what becomes of the ring |
| `ProducerConsumer.PutAppends` | 05-threading/examples/src/producer_consumer2.c:14-19 | the `put` action of the two-thread protocol appends to the FIFO content when the buffer is not full |
| `ProducerConsumer.GetRemovesOldest` | 05-threading/examples/src/producer_consumer2.c:21-27 | the `get` action of the protocol removes the oldest value of the FIFO content when there is one |
| `ProducerConsumer.RingIsFifo` | 05-threading/examples/src/producer_consumer2.c:41-90 | in every reachable state consumed values followed by buffered ones are 0, 1, 2, ..., the count is produced minus consumed within bounds, and the pointers are the totals modulo the size |
| `ProducerConsumer.NoLostWakeup` | 05-threading/examples/src/producer_consumer2.c:53-60 | a waiting thread has nothing to do or is about to be signalled; never both wait, never both hold the mutex |
| `ProducerConsumer.NoWakeupInVain` | 05-threading/examples/src/producer_consumer2.c:53-85 | without spurious wakeups a woken producer finds room and a woken consumer finds a value |
| `ProducerConsumer.BothCanWait` | 05-threading/examples/src/producer_consumer2.c:53-80 | the producer can fill the buffer before the consumer has moved and then waits, and the consumer waits at an empty buffer |
| `ProducerConsumer.NeverStuck` | 05-threading/examples/src/producer_consumer2.c:41-90 | until both have finished one of them can move, without relying on spurious wakeups |
| `ProducerConsumer.EveryRunEnds` | 05-threading/examples/src/producer_consumer2.c:41-90 | every run is finite and ends only with all values consumed in order |
| `Feast.Table.constructor` | 09-memory/feast.c:67-72 | the table set up by `main` |
| `Feast.Table.ServeOne` | 09-memory/feast.c:38-57 | the single scan finds the first platter with the dish or the leftmost least used one, although it may stop early |
| `Feast.ServeChoosesPlatter` | 09-memory/feast.c:38-57 | a hit counts on the first platter with the dish; a miss replaces the leftmost platter whose counter is least, and no other |
| `Feast.LeftmostMinIsLeftmost` | 09-memory/feast.c:47-48 | the strict comparison of the scan selects the leftmost of the least used platters |
| `Feast.Table.ServeDishes` | 09-memory/feast.c:32-63 | the table and the number of fetches after all orders up to the first -1 |
| `FeastPolicy.StopIsNotServed` | 09-memory/feast.c:34-36 | what is served is the longest part of the input without a -1 |
| `FeastPolicy.TableIsLeastFrequentlyUsed` | 09-memory/feast.c:37-57 | for every request sequence the table and the fetch count are those of the policy defined by the history: each platter has its dish and that dish's hits since its last fetch |
| `FeastPolicy.ProgramFollowsPolicy` | 09-memory/feast.c:65-75 | the same for any input, from the table that `main` sets up |
| `FeastPolicy.FrequencyStep` | 09-memory/feast.c:51-56 | the frequency read off the history grows on a hit, restarts at a fetch and is untouched by other dishes |
| `FeastPolicy.TableShape` | 09-memory/feast.c:41-57 | filled platters carry distinct dishes, empty ones form a suffix, and fetches minus evictions is the number of filled ones |
| `FeastPolicy.VictimIsFirstEmpty` | 09-memory/feast.c:47-56 | while a platter is empty, the leftmost empty one is filled |
| `FeastPolicy.VictimIsLeastFrequent` | 09-memory/feast.c:47-56 | on a full table the dish replaced has the least frequency read off the history, and every dish to its left a greater one |
| `FeastPolicy.FetchBounds` | 09-memory/feast.c:37-62 | fetches plus hits is the number of requests, and fetches is at least the number of distinct dishes |
| `FeastPolicy.NoEvictionWhenAllFit` | 09-memory/feast.c:41-57 | when the dishes all fit, nothing is evicted and each dish is fetched once |
| `SelectClient.NothingLostOrDuplicated` | 00-network-programming/examples/select_client.py:109-114 | handed over, in flight and queued messages are together exactly those appended, in order |
| `SelectClient.TypedIsConserved` | 00-network-programming/examples/select_client.py:109-139 | after every schedule from the start, the messages handed over, in flight, queued and still held by main are exactly those typed, in order |
| `SelectClient.OneBytePerMessage` | 00-network-programming/examples/select_client.py:105-139 | main tries to send one byte per message; the channel holds the bytes accepted less those received, and a byte is received only by a wakeup without a writable socket |
| `SelectClient.MainNeverWaits` | 00-network-programming/examples/select_client.py:123-139 | any messages can be typed and queued before the loop has moved; the channel then holds one byte each up to its capacity |
| `SelectClient.NoMissedWakeup` | 00-network-programming/examples/select_client.py:87-139 | if the loop is in select without asking to write while a message is queued, a byte is pending or main is about to send one, even though a full indicator rejects bytes |
| `SelectClient.MessageIsDelivered` | 00-network-programming/examples/select_client.py:87-117 | with a writable socket a message is out after eleven turns of the loop plus two per message before it, whatever main does |
| `SelectClient.ByteWakesAtOnce` | 00-network-programming/examples/select_client.py:99-114 | with a byte on the indicator or a request to write, select leads to the drain within three moves, whatever the server sends |
| `SelectClient.LoopIsNeverStranded` | 00-network-programming/examples/select_client.py:87-139 | while a message is pending the loop can move, or main is a few actions from letting it |
| `SelectClient.LoopComesToRest` | 00-network-programming/examples/select_client.py:87-117 | with main at input and a silent server the loop makes a bounded number of moves, whether or not the socket accepts data, and can block only when every message has been handed over and every byte consumed |
| `SelectClient.ExitKeepsAllIffDrained` | 00-network-programming/examples/select_client.py:120-128 | with the mutex free an exit loses nothing exactly when the queue is empty; with the mutex held, when moreover nothing is in flight |
| `SelectClient.ExitAfterEnoughTurns` | 00-network-programming/examples/select_client.py:120-128 | with a writable socket, after nine turns of the loop plus two per pending message an exit loses nothing, unless a message was appended meanwhile |
| `SelectClient.ExitLosesTheRest` | 00-network-programming/examples/select_client.py:120-128 | main at input can exit whatever the loop is doing; what was in flight or queued is lost and nothing happens afterwards |
| `SelectClient.ExitCanLoseAMessage` | 00-network-programming/examples/select_client.py:120-128 | a run in which end of input loses a message |
| `HandOff.WindowBelongsToTwo` | 05-threading/examples/src/condition.c:38-96 | the second thread makes exactly the increments inside the window, the first all others, and the count never passes the end |
| `HandOff.NoLostWakeup` | 05-threading/examples/src/condition.c:46-56 | a waiting thread is not wanted or is about to be signalled, and never do both wait |
| `HandOff.NoWakeupInVain` | 05-threading/examples/src/condition.c:46-96 | without spurious wakeups the second thread is woken only for a count in its window or at the end, and the first only for one outside the window |
| `HandOff.MutexLeftLockedBlocksNobody` | 05-threading/examples/src/condition.c:79-80 | when the second thread returns with the mutex held, the first never locks it again |
| `HandOff.NeverStuck` | 05-threading/examples/src/condition.c:38-96 | until both have returned one of them can move |
| `HandOff.EveryRunEnds` | 05-threading/examples/src/condition.c:38-96 | every run is finite and ends only with both returned and the count at the end value |
| `HandOff.NeverOvershootsIff` | 05-threading/examples/src/condition.c:18-20 | for a window below the end value, the count never passes the end exactly when `COUNT_HALT2 + 1 < COUNT_DONE` |
| `PipeTransfer.ChildBuffer.ReadChunk` | 04-process-management/pipe.c:33-39 | a read of any length puts its bytes behind those already there and leaves the rest |
| `PipeTransfer.ChildBuffer.Grow` | 04-process-management/pipe.c:41-44 | the buffer doubles exactly when another full read might not fit, and keeps its content |
| `PipeTransfer.ReadsAlwaysFit` | 04-process-management/pipe.c:30-47 | before every read there is room for BUFSIZE bytes and the terminator, so one doubling always suffices; and the capacity is the first of BUFSIZE, 2 BUFSIZE, 4 BUFSIZE, ... with that room |
| `PipeTransfer.ChildGetsTheMessage` | 04-process-management/pipe.c:30-76 | at end of file the child has what was written, in order, and it is the whole message exactly when no write failed |
| `PipeTransfer.AnyPrefixCanArrive` | 04-process-management/pipe.c:61-70 | a write can fail after any number of bytes, and the child then ends with just that prefix |
| `PipeTransfer.ParentClosesBothEnds` | 04-process-management/pipe.c:76-79 | the parent ends well only after closing its read end and then its write end |
| `PipeTransfer.InterruptionsDoNoHarm` | 04-process-management/pipe.c:61-74 | however often writes are interrupted or partial, a run in which no call fails otherwise can end only with the whole message delivered |
| `PipeTransfer.StuckExactlyWhen` | 04-process-management/pipe.c:24-79 | nothing can go on exactly when both processes have ended, or the child failed and the parent faces a full pipe |
| `PipeTransfer.ParentBlocks` | 04-process-management/pipe.c:61-74 | for every message longer than the pipe, a run that leaves the parent waiting in front of a full pipe |
| `PipeTransfer.ParentCanBlockIff` | 04-process-management/pipe.c:24-79 | the parent can be left waiting exactly when the message is longer than the pipe; otherwise nothing stops before both have ended |
| `PipeTransfer.EveryRunEnds` | 04-process-management/pipe.c:24-79 | every run is finite and, without failed calls, ends with the message delivered |

## Left out

- Files, sockets, printing, argument parsing, allocation failure and system-call internals: reads, writes, sends and select are nondeterministic results within their documented ranges.
- SHA256, `rand_r` and the content of the tasks in `hogwarts.c`: a task is its id.
- Kmp.Find: the empty pattern is excluded. The program then compares with the terminator: it reports every position, and reads beyond the terminator only when the text starts with a NUL character.
- Kmp.KmpSearch: a match report is one entry of the returned list; `write_all` in `kmp.c` does not resume a partial write correctly, so no delivery claim is made for it.
- MergeSort.SplitPointsAgree: exact real arithmetic, which the sorts use; doubles give the same for indices up to 2^52 and `DoubleMidAgreesIff` covers those below 2^53. Overflow of `start + end` in `merge` is not modelled.
- Integer overflow of counters, ids and buffer capacities in all programs.
- MergeSort.MergeRuns: the two loops that empty the left-over run are one method, `Drain`, called twice; the first loop of `merge` is `MergeHeads` and the last `CopyBack`.
- Hogwarts.TaskList: `free` is not modelled, and a node carries the task's id in place of the task. The protocol itself holds the list as the sequence of its ids, tied to the nodes by `PostStepsArePostTasks` and `TakeStepIsTakeTask`.
- The threads are modelled on values, not on heap objects; a call of `put` or `get` is one action because it runs with the mutex held.
- HandOff: an empty window (`COUNT_HALT1 > COUNT_HALT2`), which the program's constants exclude.
- SelectClient: exceptions other than a rejected indicator byte, and receiving from the server.
- PipeTransfer: failing `pipe`, `fork` and `close` calls.
- `shell.c`, the chat client's lists, `producer_consumer1.c`, the smaller thread demos, and the socket, daemon, signal and message-queue examples: plumbing, or programs whose intended property does not follow from the code.
