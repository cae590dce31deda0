# Verification of CCore

A Dafny model of the parts of CCore where the work is done by state, loops and arithmetic: the worker pool, the
intrusive list, the hash table built on it, the configuration loader, the geometric intersections, the run loop and
the path functions. `dafny verify dfyconfig.toml` checks everything.

## How it is organised

| file | what it models |
|---|---|
| `Basics.dfy` | options, counting and gathering over sequences, C strings in buffers |
| `ThreadPool.dfy` | `src/tpool.c` as a step system: one program counter per thread, one step per statement or library call |
| `ThreadPoolSafety.dfy` | the invariant of that system and one lemma per part and kind of thread |
| `ThreadPoolTheorems.dfy` | conservation, no lost wakeup, progress, the barrier and the shutdown, over every run |
| `ThreadPoolLimits.dfy` | exactly when `ccpool_wait` can be left asleep, and for which pool sizes the promises hold |
| `TaskPool.dfy` | the shared structure as an object, each critical section refining one step of the system |
| `IntrusiveList.dfy` | `src/list.c` on the heap: a ring through a sentinel, refined to a sequence |
| `Bits.dfy`, `Hash.dfy` | the bit arithmetic of `src/table.c`: hashing, bucket selection, capacity rounding |
| `TableSpec.dfy` | what a table means: the history of its insertions, and buckets as values |
| `TableBuckets.dfy` | the buckets on the heap: lists of entries that contain lists of values; search, insertion, traversal |
| `TableTeardown.dfy` | taking the buckets apart: what is handed over and what is freed, each thing once |
| `Table.dfy` | the table itself, refined to its history |
| `ConfigLines.dfy` | how `src/cfg.c` divides a text into logical lines |
| `ConfigValues.dfy` | scanning of values, and what `atof` reads |
| `ConfigSpec.dfy` | loading as a fold of lines, and what the entries mean |
| `ConfigRoundTrip.dfy` | writing a configuration and reading it back |
| `Config.dfy` | the loader itself: a line buffer cut up in place and a growing array of entries |
| `Geometry.dfy` | line and sphere, segment and segment, over exact reals |
| `RunLoop.dfy` | the accumulator of `src/run_loop.c` modulo 2^64, and the ring of entries |
| `Paths.dfy` | joining and trimming of paths in character buffers |

The worker pool follows `pthread_cond_wait` and `pthread_cond_signal` of IEEE Std 1003.1: a waiter may wake for no
reason, and a signal unblocks at least one waiter when there is one, possibly several. A schedule is any sequence of
enabled steps, so the theorems hold for every interleaving.

## What the code does that one might not expect

Each of these is stated and proved as the condition under which the code does what is wanted; the code is modelled as
it is.

- `ccpool_wait` sleeps on a signal that is sent once per finished task. Exactly three steps leave a sleeping thread
  with nothing left that would signal it: a last signal that passes a sleeper over, a stop raised over a sleeper while
  no task is in hand, and going to sleep over a queue that nobody will take from (`StrandsIff`, `NeverStrandedIff`).
- `ccpool_start` takes an `int`, but both counters are a `uint8_t`. With 256 threads or more, `ccpool_wait` can return
  while 256 tasks are running, and the pool can be freed while threads that were never joined go on (`PoolSizeLimit`).
- The header says that `cclist_insert_at` inserts at position `n`. With assertions compiled in it aborts unless `n` is
  the size of the list, because the counter that the assertion tests has been decremented once too often; without them
  it inserts at the smaller of `n` and the size (`List.InsertAt`).
- Rounding a table's capacity up folds shifts up to 16 only. The result is a power of two for counts from 1 to 2^32;
  the exact condition beyond that is about runs of zero bits (`RoundUpIff`). For some counts, zero among them, the table
  gets no bucket at all (`RoundUpZeroIff`), and then no key may be inserted or looked up.
- The accumulator of a run-loop entry is unsigned, so an entry whose deadline is overshot by a microsecond is not
  called late: it is called once per deadline only if some pass comes at the very microsecond of each
  (`CalledOncePerDeadlineIff`, `NoOvershootIff`), and after an overshoot it is not called again until the counter
  could have come around (`SilentAfterOvershoot`).
- A vector shorter than 5 * DBL_EPSILON is not normalised, and then a sphere is missed (`AlwaysRightIff`). Parallel
  segments give no point even when they overlap (`AlwaysMeetsIff`).
- The first component of a path needs one byte more than the string it leaves (`AllKeptIff`). Trimming a path without
  enough separators leaves its first two characters (`TrimMeans`); the terminator is written behind the old one when
  the path has one character or the count is negative (`CutInsideIff`).
- A number in a configuration is read by `atof` from the whole rest of the line, so what follows the scanned numeral
  could be read with it. On every line that is accepted it is not (`AtofReadsNumeral`).

## Model

| member | source | states |
|---|---|---|
| `ThreadPoolTheorems.NoWakeupIsLost` | src/tpool.c:20-44 | in every reachable state, while a worker sleeps the queue is no longer than the number of workers awake without a task (one more between an insertion and its signal); tasks never wait for workers that are all asleep |
| `ThreadPoolTheorems.WorkIsNeverStuck` | src/tpool.c:20-44 | in every reachable state with a worker, a queued task and no stop, the owner of the mutex can move or a worker can, without a spurious wakeup |
| `ThreadPoolTheorems.LeaversRun` | src/tpool.c:22-26 | a worker leaves its loop only because of a stop |
| `ThreadPoolTheorems.TasksAreConserved` | src/tpool.c:28-38 | over every run: submitted = dequeued ++ discarded ++ queued, in order; each dequeued task is in exactly one worker's hand or has run; nothing runs or is freed twice |
| `ThreadPoolTheorems.InWorkCounts` | src/tpool.c:31-41 | with at most 255 workers `in_work` is exactly the number of workers between dequeue and decrement |
| `ThreadPoolTheorems.WaitIsABarrier` | src/tpool.c:103-108 | when a call of `ccpool_wait` has returned, every task submitted before the call has run or was discarded, whatever happened in between |
| `ThreadPoolTheorems.MarkIsKept` | src/tpool.c:103-108 | the point of the submission history at which a wait was called stays fixed until the caller goes on, and the history only grows |
| `ThreadPoolTheorems.StopDrains` | src/tpool.c:22-26 | once `stop` is set it stays set, nothing is dequeued, nobody falls asleep, and every worker step lowers a measure that no step raises |
| `ThreadPoolTheorems.ShutdownIsBounded` | src/tpool.c:72-88 | after `stop` the workers together take a bounded number of steps in any run, and dequeue nothing |
| `ThreadPoolTheorems.ShutdownIsNeverStuck` | src/tpool.c:78-83 | after the broadcast, while a worker has not exited, a worker or the owner of the mutex can move |
| `ThreadPoolTheorems.FreedAfterTheLastExit` | src/tpool.c:81-84 | with at most 255 workers the pool is freed only when all have exited, with `in_work` zero and every dequeued task run and freed |
| `ThreadPoolSafety.InvStep` | src/tpool.c:16-108 | every step of every thread keeps the whole invariant: mutual exclusion, order, one place per task, the counter, the phases of stopping, no lost wakeup, the barrier |
| `ThreadPoolSafety.InvRun` | src/tpool.c:16-108 | the invariant holds after every run |
| `ThreadPoolSafety.NoLostWakeupWorker` | src/tpool.c:22-32 | a worker's step keeps the bound on the queue while somebody sleeps, spurious wakeups included |
| `ThreadPoolSafety.NoLostWakeupClient` | src/tpool.c:97-100 | an insertion and its signal keep that bound |
| `ThreadPoolSafety.IdleMeansSettled` | src/tpool.c:106 | when the test of `ccpool_wait` finds nothing outstanding, every submitted task has run or was discarded |
| `ThreadPoolLimits.StrandsIff` | src/tpool.c:103-108 | a step leaves a thread asleep in `ccpool_wait` with nothing left to signal it if and only if it is one of three: a signal with nothing else at work or to be taken and a sleeper it does not wake; raising `stop` over a sleeper with no task in hand; or the test of the loop over a queue that no worker will take from, with no task in hand |
| `ThreadPoolLimits.NeverStrandedIff` | src/tpool.c:103-108 | a run of any pool leaves no thread so stranded if and only if none of its steps is one of the three |
| `ThreadPoolLimits.StrandedStays` | src/tpool.c:106 | a stranded thread stays so, but for a spurious wakeup or, before a stop and with a worker, a further submission |
| `ThreadPoolLimits.WaitIsLiveIff` | src/tpool.c:103-108 | every schedule in which at most w threads sleep at a time, with or without a stop allowed, strands nobody if and only if w is zero, or there is a worker, w is one and no stop is allowed |
| `ThreadPoolLimits.StopStrandsAWaiter` | src/tpool.c:76-77 | a stop that discards the queue can leave a waiter asleep |
| `ThreadPoolLimits.SecondWaiterIsStranded` | src/tpool.c:42 | the last signal may wake one of two waiters and leave the other |
| `ThreadPoolLimits.PoolSizeLimit` | src/tpool.c:48-62 | the barrier of `ccpool_wait`, and freeing only after all exits, each hold if and only if the pool has fewer than 256 threads |
| `ThreadPoolLimits.BigPoolIsFreedEarly` | src/tpool.c:81-85 | with 256 threads or more the pool can be freed before every thread has exited |
| `ThreadPoolLimits.BigPoolBreaksTheBarrier` | src/tpool.c:31 | with 256 threads or more `in_work` can wrap to zero and let a wait through |
| `TaskPool.TPool.Take` | src/tpool.c:22-31 | on the heap, a worker's look at the pool refines its step: same verdict, same task, same new queue and counter |
| `TaskPool.TPool.Finish` | src/tpool.c:41 | the decrement refines its step |
| `TaskPool.TPool.Enqueue` | src/tpool.c:98 | the insertion refines its step |
| `TaskPool.TPool.IsOutstanding` | src/tpool.c:106 | the test of the wait loop decides as the step does |
| `TaskPool.TPool.Shut` | src/tpool.c:76-77 | raising `stop` and clearing the list refine their two steps; the destructor gets exactly the queue, in order |
| `TaskPool.TPool.constructor` | src/tpool.c:51-58 | a new pool refines the start state |
| `IntrusiveList.List.constructor` | src/list.c:21-27 | a fresh list is an empty ring |
| `IntrusiveList.List.DoInsertBefore` | src/list.c:58-66 | splices the node in before another: the ring stays closed, linked both ways and without repeats, its sequence gains the node there, and only the named links change |
| `IntrusiveList.List.DoInsertAfter` | src/list.c:48-56 | the same after another node |
| `IntrusiveList.List.NthItem` | src/list.c:39-46 | finds position min(n, size), and what the counter is left at, wrap-around included |
| `IntrusiveList.List.InsertAt` | src/list.c:68-72 | without assertions inserts at min(n, size); with them aborts if and only if n differs from the size |
| `IntrusiveList.List.InsertFirst` | src/list.c:74-77 | puts the node in front |
| `IntrusiveList.List.InsertLast` | src/list.c:79-82 | puts the node at the end |
| `IntrusiveList.List.InsertAfter` | src/list.c:84-89 | puts the node right after the item |
| `IntrusiveList.List.InsertBefore` | src/list.c:91-96 | puts the node right before the item |
| `IntrusiveList.List.Remove` | src/list.c:98-107 | takes the node out and clears its links; the others keep their order |
| `IntrusiveList.List.RemoveFirst` | src/list.c:109-116 | drops the first node, if there is one; the node keeps its own links |
| `IntrusiveList.List.RemoveLast` | src/list.c:118-125 | drops the last node, if there is one |
| `IntrusiveList.List.Clear` | src/list.c:29-37 | hands each object to the destructor once, first to last, reading each successor before the node is destroyed; leaves an empty ring |
| `IntrusiveList.List.First` | src/list.c:127-131 | the first object, or NULL for an empty list |
| `IntrusiveList.List.Last` | src/list.c:133-137 | the last object, or NULL for an empty list |
| `IntrusiveList.List.Next` | src/list.c:139-143 | the object after the current one, or NULL at the end |
| `IntrusiveList.List.Prev` | src/list.c:145-149 | the object before the current one, or NULL at the front |
| `Hash.HashString` | src/table.c:25-35 | the loop computes the hash, with the sign extension of `char` as a parameter |
| `Hash.OneCharacterApart` | src/table.c:31-33 | two keys of equal length that differ in one character share a bucket of a power-of-two table if and only if the characters agree modulo the capacity; with 256 buckets or more they never do |
| `Hash.StepInjective` | src/table.c:32 | one step of the hash keeps numbers apart, or together, modulo any power of two |
| `Hash.MaskIsRemainder` | src/table.c:98 | masking with capacity - 1 is the remainder of the hash, for power-of-two capacities |
| `Hash.BucketIndex` | src/table.c:98 | the selected bucket exists, for any positive capacity |
| `Hash.NextPowerOf2` | src/table.c:14-23 | the statements compute the rounding function that the next rows are about |
| `Hash.RoundUpIff` | src/table.c:14-23 | rounding a size_t up gives the least power of two not below it if and only if it is at least 1, at most 2^63, and its predecessor has no 32 zero bits in a row below its highest bit |
| `Hash.RoundUpZeroIff` | src/table.c:14-23 | the rounding gives zero if and only if the number is zero, or above 2^63 with no such run of zero bits in its predecessor |
| `Hash.RoundUpRange` | src/table.c:14-23 | so it is right from 1 to 2^32 |
| `Hash.RoundUpRangeIsTight` | src/table.c:14-23 | and wrong at 0 and at 2^32 + 1 |
| `TableSpec.InsertRepresents` | src/table.c:95-138 | an insertion into buckets that represent a history gives buckets that represent the longer history: every cell in the bucket its hash selects, keys unique, contents as the history says |
| `TableSpec.LookupIsHeld` | src/table.c:155-177 | searching a key's bucket finds what the history holds under it, and nothing if and only if it was never inserted |
| `TableSpec.InsertStores` | src/table.c:104-137 | what all buckets hold together stays exactly what the history keeps, and is counted by one more if and only if the insertion is kept |
| `TableSpec.KeysDiffer` | src/table.c:100-102 | no two cells of a table have the same key |
| `TableSpec.OldestIsFirst` | src/table.c:100-102 | the value a single-valued table holds is the first one ever inserted under the key |
| `TableSpec.NewestIsFront` | src/table.c:127 | the front of a key's values is the newest, and the rest are those before it |
| `TableBuckets.Search` | src/table.c:100-102 | the search loop finds the one node with the key, or NULL |
| `TableBuckets.AddValue` | src/table.c:127 | a value put in front of one list leaves every other list of values as it is |
| `TableBuckets.LinkEntry` | src/table.c:109 | an entry linked in front of one bucket leaves every other bucket and every list of values as it is |
| `TableBuckets.InsertIntoMany` | src/table.c:119-138 | an insertion into one bucket leaves what every other bucket means as it is |
| `TableBuckets.InsertFurther` | src/table.c:124-128 | a further value goes to the front of its key's list; every other bucket and list keeps its meaning |
| `TableBuckets.LinkNew` | src/table.c:130-137 | a new entry is linked in front of the bucket and then gets the value into its own list |
| `TableBuckets.InsertNew` | src/table.c:130-137 | a new key gets a node with a list of one value at the front of the bucket |
| `TableBuckets.InsertMany` | src/table.c:119-138 | a key that is there gets the value in front of its list, a new one gets a node |
| `TableBuckets.InsertSingle` | src/table.c:95-111 | a key that is there is left alone, a new one is put in front |
| `TableBuckets.NewBuckets` | src/table.c:44-46 | the loop makes as many empty, separate buckets as the capacity |
| `Table.HashTable.constructor` | src/table.c:37-47 | for every count, a new table represents the empty history and has the rounded capacity, which may be zero |
| `Table.MeansStep` | src/table.c:140-148 | in a table with buckets an insertion into the selected bucket goes on representing the history, and no other bucket has its key |
| `Table.HashTable.Insert` | src/table.c:140-148 | insertion keeps the whole heap invariant and appends to the history |
| `Table.HashTable.GetOne` | src/table.c:165-178 | returns the first value ever inserted under the key, NULL for a missing key |
| `Table.HashTable.GetMany` | src/table.c:150-163 | returns the list of all values inserted under the key, newest first, NULL for a missing key |
| `Table.HashTable.Iter` | src/table.c:180-198 | calls back once for every stored pair, and `size` counts them |
| `Table.HashTable.Deinit` | src/table.c:75-93 | hands every stored value to the destructor exactly once when there is one; frees every node of every bucket and of every list of values exactly once, values before their entry; and leaves an empty table |
| `Table.HashTable.Stored` | src/table.c:86-88 | the values handed over are as many as `size` says |
| `Table.HashTable.StoredIsKept` | src/table.c:86-88 | and they are the values of exactly the insertions that are kept |
| `TableTeardown.DestroyNode` | src/table.c:54-73 | destroying one entry hands over its values, frees its value nodes and then the entry, and leaves every other bucket node and list as it is |
| `TableTeardown.DestroyBucket` | src/list.c:29-37 | the loop over a bucket reads each successor before the node is destroyed, and destroys each node once, in order |
| `TableTeardown.FreedDistinct` | src/table.c:54-73 | nothing in a table is freed twice |
| `ConfigLines.ReadsLogicalLine` | src/cfg.c:67-86 | one call of `read_line` takes the first of the text's non-empty logical lines and leaves the others, where a logical line is a piece between newlines without carriage returns and leading white space |
| `ConfigLines.ReturnsIgnored` | src/cfg.c:73 | a carriage return anywhere makes no difference to the lines |
| `ConfigLines.LastNewlineIgnored` | src/cfg.c:71-85 | a newline at the end of the text makes no difference to the lines |
| `ConfigSpec.LoadMeans` | src/cfg.c:226-274 | loading gives one entry per key heard of, in order of first appearance, with the last value given to it, up to the first bad line; it succeeds if and only if every line is good |
| `ConfigSpec.FoldMeans` | src/cfg.c:234-269 | the same from any earlier history on |
| `ConfigSpec.TableStep` | src/cfg.c:53-65 | finding or adding a key and setting its value does to the entries what appending the assignment does to the history |
| `ConfigSpec.TableLookup` | src/cfg.c:38-45 | looking a key up finds the last value given to it, and nothing if and only if it was not heard of |
| `ConfigSpec.KeysDistinct` | src/cfg.c:53-60 | no key has two entries |
| `ConfigSpec.KeyIff` | src/cfg.c:53-65 | a key has an entry if and only if some line named it |
| `ConfigSpec.KeysInOrder` | src/cfg.c:61-64 | entries are in the order in which their keys first appear |
| `ConfigSpec.LoadIgnoresReturns` | src/cfg.c:73 | a carriage return anywhere makes no difference to what is loaded |
| `ConfigValues.AtofReadsNumeral` | src/cfg.c:103-129 | when what follows the scanned numeral is acceptable, `atof` of the rest of the line is the value of the numeral alone: no exponent, no hexadecimal |
| `ConfigValues.FixedOfPrefix` | src/cfg.c:114-118 | what the numeral is worth does not depend on what follows it |
| `ConfigRoundTrip.RoundTrip` | src/cfg.c:226-274 | settings with distinct legal keys, written one per line among blank and comment lines, with white space, trailing comments and carriage returns anywhere, and with or without a newline at the end, load as exactly those settings |
| `ConfigRoundTrip.MapIsRead` | src/cfg.c:226-274 | any finite map written in such a way is read back as the same map |
| `ConfigRoundTrip.MapCanBeWritten` | src/cfg.c:239-264 | every finite map of legal keys to strings, decimal numerals and truth values can be written in such a way |
| `ConfigRoundTrip.LegalKeyIff` | src/cfg.c:239-251 | the legal keys are exactly the keys that some text gives a configuration |
| `ConfigRoundTrip.DatumScans` | src/cfg.c:195-224 | the scanner reads back what was written, and stops right behind it |
| `ConfigRoundTrip.SettingEffect` | src/cfg.c:236-263 | a written setting is a good line that gives its value to its key |
| `Config.ReadLine` | src/cfg.c:67-86 | the loop leaves the line in the buffer, terminated, growing the buffer in time; and the rest of the text and the end-of-file flag are as they should be |
| `Config.Trim` | src/cfg.c:96-101 | moves to the first character that is not white space |
| `Config.SkipNumeral` | src/cfg.c:103-118 | accepts what begins like a number and stops behind the numeral |
| `Config.CutString` | src/cfg.c:131-146 | finds the closing quote, puts a NUL over it, and leaves the content and the rest as strings in the buffer; fails if and only if the quote is missing |
| `Config.CutKey` | src/cfg.c:246-248 | a NUL over the colon leaves the key before it and the trimmed value behind it |
| `Config.Settings.FindEntry` | src/cfg.c:38-45 | the first entry with the key, or none |
| `Config.Settings.Ensure` | src/cfg.c:47-51 | there is room for one more entry, and the entries are unchanged |
| `Config.Settings.FindEntryOrAdd` | src/cfg.c:53-65 | the key's entry, which is appended in bounds when there is none; no other entry changes |
| `Config.Settings.ParseNumber` | src/cfg.c:103-129 | sets the entry to what `atof` reads and moves behind the numeral, or fails and changes nothing |
| `Config.Settings.ParseString` | src/cfg.c:131-156 | sets the entry to the quoted text and moves behind the quote, or fails and leaves the entry |
| `Config.Settings.ParseBool` | src/cfg.c:158-181 | sets the entry to the truth value and moves behind the word, or fails and changes nothing |
| `Config.Settings.ParseValue` | src/cfg.c:195-224 | does what the first character asks for |
| `Config.Settings.ParseSetting` | src/cfg.c:239-264 | has the line's effect on the entries, and goes on if and only if the line is good: a value that fails to scan leaves an old value, trailing text does not |
| `Config.Settings.ParseLine` | src/cfg.c:236-264 | the same for comments and for lines without a colon |
| `Config.Settings.Parse` | src/cfg.c:226-274 | the loop over the file folds the logical lines into the entries up to the first bad one |
| `Config.LoadConfig` | src/cfg.c:275-288 | loading a file gives the entries the text stands for, bad lines or not |
| `Geometry.IntersectSphere` | src/math.c:19-57 | fills `out` with the points found, in order, the other places with NaNs, and returns their number |
| `Geometry.DistancesMean` | src/math.c:25-56 | the distances tried are exactly those accepted whose offset from the middle squares to delta, in increasing order |
| `Geometry.HitsAreRight` | src/math.c:19-57 | for a vector long enough to be normalised the points are exactly the common points of line (segment when confined) and sphere, without repeats, in increasing order along the vector |
| `Geometry.AlwaysRightIff` | include/ccore/math.h:117-121 | this holds for every origin and sphere if and only if the vector is at least 5 * DBL_EPSILON long, or is zero and the line is confined |
| `Geometry.ParallelIff` | src/math.c:11-13 | the parallel test holds if and only if the perpendicular product is zero, except that a zero vector passes only against horizontal ones |
| `Geometry.FoundIffMeet` | src/math.c:59-74 | for vectors with a non-zero perpendicular product the result is a point if and only if it is the common point of the segments |
| `Geometry.LinesMeet` | src/math.c:66-72 | the point computed from either segment is the same: the unused `i2` equals `i1` |
| `Geometry.ParallelResult` | src/math.c:60-69 | for parallel vectors nothing is found, except for equal origins with a zero vector and one that is not horizontal |
| `Geometry.AlwaysMeetsIff` | src/math.c:59-74 | the function is right for every pair of origins if and only if the perpendicular product is not zero |
| `RunLoop.Accounting` | src/run_loop.c:79-84 | over any run of passes: accumulator + elapsed time = initial accumulator + calls * interval, modulo 2^64 |
| `RunLoop.CalledOncePerDeadlineIff` | src/run_loop.c:79-87 | an entry has been called once per deadline reached if and only if no pass overshot its accumulator; otherwise it was called too seldom |
| `RunLoop.CalledOncePerDeadline` | src/run_loop.c:79-87 | without an overshoot the same over any length of time |
| `RunLoop.NoOvershootIff` | src/run_loop.c:79-87 | no pass overshoots if and only if every deadline reached has a pass at its very microsecond |
| `RunLoop.SilentAfterOvershoot` | src/run_loop.c:79-84 | once a pass has overshot an entry, it is not called again while less than 2^64 microseconds have passed |
| `RunLoop.OnTimeOrBehind` | src/run_loop.c:80-84 | the accumulator is exactly what the deadlines say, or, after an overshoot, one whole turn of the counter more |
| `RunLoop.DeadlinesMeans` | src/run_loop.c:80-84 | the number of deadlines reached counts exactly the k with acc + k * interval not after the time |
| `RunLoop.PublishedIsLongest` | src/run_loop.c:75-90 | of the waits up to the cap, those within the published one are exactly those that overshoot none of the entries it was computed from |
| `RunLoop.RegisteredInTimeIff` | src/run_loop.c:163-171 | an entry registered after the wait was published is safe from it if and only if its accumulator is no smaller; else the pass at the end of the wait overshoots it |
| `RunLoop.PunctualNeverOvershoots` | src/run_loop.c:68-90 | a loop always woken within its published wait overshoots no entry |
| `RunLoop.Program.Advance` | src/run_loop.c:80-84 | one entry's part of a pass, in place |
| `RunLoop.Loop.constructor` | src/run_loop.c:115-116 | a new loop is an empty ring |
| `RunLoop.Loop.Register` | src/run_loop.c:160-171 | the entry gets the whole microseconds of its frequency's period, an accumulator below that, and the tail of the ring |
| `RunLoop.Loop.Unregister` | src/run_loop.c:187-189 | the entry leaves the ring and loses its links; the others keep their order |
| `RunLoop.Loop.Sweep` | src/run_loop.c:79-87 | the traversal ticks every entry exactly once and finds the least accumulator |
| `RunLoop.Loop.Pass` | src/run_loop.c:70-90 | a pass ticks every entry by the time since the last one and publishes the capped least accumulator |
| `RunLoop.Loop.Run` | src/run_loop.c:67-94 | the loop over any clock readings leaves every entry ticked through all the passes, as the accounting and the deadline results are stated |
| `RunLoop.DeltasAddUp` | src/run_loop.c:70-72 | for a clock that does not go back the passes' deltas add up to the time elapsed |
| `Paths.ComponentLength` | src/filesystem.c:22-28 | the length of the component without its trailing separators |
| `Paths.PathCpy` | src/filesystem.c:30-49 | copies at most n characters with separators normalised, pads with NUL, and writes nowhere else |
| `Paths.Append` | src/filesystem.c:64-70 | appends a separator, except before the first component, and the component |
| `Paths.AppendIfFits` | src/filesystem.c:61-70 | the body of the loop appends the component if and only if it fits, and else changes nothing |
| `Paths.PathConcat` | src/filesystem.c:51-75 | leaves the join of the components before the first that does not fit, terminated, and writes nothing behind the terminator; with a size of zero it leaves the empty string, and writes its terminator |
| `Paths.KeptFit` | src/filesystem.c:60-62 | all components joined fit, and the next one does not |
| `Paths.ConcatMeans` | src/filesystem.c:60-71 | what the loop builds up is the join |
| `Paths.AllKeptIff` | src/filesystem.c:62 | every component is joined if and only if the join and its terminator fit the buffer and the first component has one byte to spare |
| `Paths.JoinedIsNormal` | src/filesystem.c:36-40 | the join has no foreign separators |
| `Paths.JoinedHasNoNul` | src/filesystem.c:73 | the string that is left ends at the NUL that is written |
| `Paths.PathRTrim` | src/filesystem.c:81-91 | the scan leaves the trimmed string in the buffer |
| `Paths.TrimMeans` | src/filesystem.c:85-90 | with more than n separators after the first character, trimming by n keeps exactly the prefix through the separator that has n after it; otherwise the first two characters |
| `Paths.TrimComposes` | src/filesystem.c:81-91 | trimming by n and then by m is trimming by n + m, for every path |
| `Paths.CutInsideIff` | src/filesystem.c:90 | the NUL is written inside the old string if and only if it has two characters and the count is not negative, and otherwise one place behind its terminator |
| `Paths.TrimUndoesJoin` | src/filesystem.c:51-91 | trimming a join of plain components by n drops the last n + 1 of them and keeps the separator before |

## Left out

- Allocation failure and the values of fresh memory: allocation always succeeds; the entry `find_entry_or_add` adds holds an unspecified value until one is scanned, written `Unset`, about which nothing is claimed.
- Floating-point rounding: geometry is over exact reals, configuration numbers are exact; overflow to infinity is not modelled, and a square root is any non-negative number with the given square.
- Signed zeros: a division by zero in the parallel test gives an infinity whose sign is that of the numerator; no comparison depends on it.
- The byte arithmetic of `get_node` and `get_ptr` (src/list.c:13-19): a node carries its payload.
- Adding a node to two lists at once, or a node that is still linked elsewhere: the callers' obligation, as in the source.
- The width of a list's `size` and of a table's `size`: unbounded, since no memory holds 2^64 nodes.
- NULL as a stored value: it cannot be told from a missing key by `cctable_get_one`, and is not distinguished here.
- Paths.PathRTrim: does not take an empty path with a count that is not negative, for which the source reads to the left of the buffer, which has no meaning in C; and the buffer must reach as far as the terminator is written.
- Paths.PathConcat: does not take a buffer without any room, since the terminator is written even for a size of zero.
- Table.HashTable.Insert: does not take a table without buckets, in which the source selects a bucket that is not there; nor do the lookups.
- RunLoop.Loop.Register: does not take frequencies above 1e6 or so low that the period does not fit an int64_t, for which the source divides by zero or converts out of range; what `rand` returns is a parameter.
- The platform's separator: `/`, as everywhere but on Windows.
- The formatted keys of the configuration getters (src/cfg.c:300-406), their conversions between kinds, and the integer copy of a number: the lookup they share is modelled.
- Input with NUL bytes, and characters outside the C locale.
- `single_mt` and a second pool after a stop: one pool, started once and stopped by one thread; `ccpool_start` is one step. Calls are made while the pool is live, as its unlocked pointer demands. Task functions terminate and do not call into the pool.
- Fairness of the scheduler: termination of the shutdown is stated as a bound on the workers' steps and the absence of deadlock.
- The threads, clock and timed wait of the run loop, `cc_run_loop_delete`, and callbacks that register or unregister: the loop is given the times its clock shows.
- RunLoop.CalledOncePerDeadlineIff: is stated for runs shorter than 2^64 microseconds, after which the counter comes around.
- `src/value.c`: the marking loop of its collector is empty, so there is nothing to prove about it.
- `include/ccore/pid.h`, `src/debug.c`, `src/except.c`, `src/log.c`, `src/time.c`, `src/format.c`, `src/memory.c`: short updates or platform calls.
