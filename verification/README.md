# Libpreempt: a verified model

Libpreempt is a C++ real-time framework with tests whose exit codes tell whether
a kernel schedules SCHED_FIFO and SCHED_RR threads as POSIX demands. This Dafny
4.11 project models its hardest parts and proves what they are for. Check it with
`dafny verify dfyconfig.toml`.

## The real-time tests

`Program.dfy` is the pair of tests preempt_02_fifo and preempt_03_decrement as one
step system, for any number of threads and any priority table: main creates threads,
each thread checks, loads and stores the unguarded global (each access is one
sequentially consistent step), main joins in creation order, and a sticky flag
decides the exit code. Without any scheduler:

- the flag is an exact detector: a finished run ends in success if and only if the
  table was accepted and the bodies ran in creation order without overlap;
- lost updates are bounded, and every value inside the bound is the end of some run
  (`LostUpdates.dfy`), and after any history the global is the value it had at the load of the
  thread that stored last, minus one.

`Scheduler.dfy` puts the same program on one real-time core with one thread list per
priority, after section 2.8.4 (Process Scheduling) of the System Interfaces volume of
POSIX (IEEE Std 1003.1-2017): a new thread goes to the tail of its list, a preempted one
to the head, one whose SCHED_RR quantum has expired to the tail. Main runs elsewhere and
may create or join between any two steps; a quantum may expire between any two steps.
`WaitingOrder.dfy` shows, for every table and both policies, which thread is the one
that runs: none outranks it, and in its own priority it has waited the longest.
`RealtimeOrder.dfy` proves that every finished run is correct if and only if the table
never rises (SCHED_FIFO) or strictly falls (SCHED_RR), and the same for the counter
alone. Every other table has a run, which is constructed, where a thread loses the core
between its load and its store and an update is lost for good. Apart from quantum
expiries a run has at most 10 N + 2 moves under either policy, so SCHED_FIFO runs always
end, and no run deadlocks. `Suite.dfy` states the consequence for the two test processes
as a whole. `Harness.dfy` holds the variables of a run and updates them in place, step
by step with the model.

## The other parts

- `BubbleSort.dfy`, `BubbleSortTheorems.dfy`: the sort in place on an array, its
  specification pass by pass, and the effect of one pass on the inversion table. From it
  follow the result, the exact number of passes, and exact bounds on the swap count and its
  32-bit counter.
- `Doubles.dfy`, `Numeric.dfy`, `Chrono.dfy`, `UnitTrips.dfy`: roundTiesToEven with 53 significant bits
  (section 4.3.1 of IEEE 754-2019), `round_to_nearest` on every double, and for every count
  exactly when the time conversions round-trip or fit.
- `Pthreads.dfy`, `Ownership.dfy`, `ThreadPrograms.dfy`, `Tasks.dfy`: a log of what happened to
  every kernel thread; `base::thread`, whose copies share a thread; `preempt::thread`, which
  owns one, and what any program over such objects does to each kernel thread; and the two task
  classes on top of it.
- `Strings.dfy`: `split` and `join`.

## Where code and documentation differ

The model follows the code.

- FAQ.md:188-191 says that time slices do not affect SCHED_RR. POSIX and the remark at
  tests/preempt_02_fifo.cc:32 say that they do; with them the tests' own choice of tables
  (tests/preempt_03_decrement.cc:37-47) is exactly right.
- `join` (include/base/string.h:24) adds the separator after the last token only, and
  `split` (include/base/string.h:44-45) keeps an empty last token.
- `round_to_nearest` (include/base/numeric.h:16) does not round to nearest at the double just
  below one half and at odd integers of 53 bits.
- `poly_task::join` (include/preempt/task.h:196-198) does not test `joinable()`, so that a
  second join throws.

## Model

| member | source | states |
|---|---|---|
| Program.FlagTracksOrder | tests/preempt_03_decrement.cc:54-94 | at every moment of every interleaving the flag is set exactly if the entry flag, the table and priority checks held and the accesses so far are a prefix of the serial order; a serial prefix also fixes every thread's position and the global |
| Program.Detector | tests/preempt_03_decrement.cc:54-94 | a finished run leaves the flag set if and only if it was set on entry, the table was accepted, all priorities are positive and the bodies ran in creation order without overlap |
| Program.BodyChecksForceFinalValue | tests/preempt_03_decrement.cc:93 | when all threads are joined and no VERIFY has failed, the global already has its final value: the last VERIFY is redundant |
| Program.SerialEndsAtTarget | tests/preempt_03_decrement.cc:88-93 | serial bodies make the global end N below its start |
| Program.MainJoinsInOrder | tests/preempt_03_decrement.cc:76-91 | in every history the joined threads are the first ones created and have ended, joins start after the last creation, and a finished run has joined all |
| Program.LostUpdateBound | tests/preempt_03_decrement.cc:54-60 | under any interleaving the global, and every value loaded, stays between start minus the completed stores and start; after one store it is below start |
| Program.FinalValueRange | tests/preempt_03_decrement.cc:54-60 | of N unguarded decrements at least one and at most N take effect |
| Program.AbortMeans | tests/preempt_02_fifo.cc:46-53 | a run that gives up does so at the failed creation, or, when it looks at the handles only to join them, after all creations, at the first handle whose creation failed |
| Program.ExitsAtFailedCreation | tests/preempt_03_decrement.cc:79-84 | with the early exit, nothing follows a failed creation |
| LostUpdates.GlobalIsLoadedMinusOne | tests/preempt_03_decrement.cc:58 | after any history the global is the value it had at the load of the thread that stored last, minus one |
| LostUpdates.GlobalAfter | tests/preempt_03_decrement.cc:58 | every history is either without a store, and the global is its start, or has such a last store with its load |
| LostUpdates.FinalValuesAreExactly | tests/preempt_03_decrement.cc:54-60 | the final values of finished runs are exactly start - N to start - 1, each reached by some interleaving |
| Scheduler.ScheduleRefinesProgram | tests/preempt_03_decrement.cc:62-94 | whatever SCHED_FIFO or SCHED_RR does is one of the interleavings |
| Scheduler.MainIsNeverHeldUp | FAQ.md:195-203 | main can create, join and finish under the scheduler whenever the program alone lets it |
| WaitingOrder.LongestWaitingRuns | FAQ.md:182-186 | under either policy, at every access no unfinished thread has a higher priority, and of the same priority each other one went to the tail of its list (by creation or quantum expiry) later |
| WaitingOrder.FifoRunsInCreationOrder | FAQ.md:200-203 | SCHED_FIFO, any table: whenever a thread makes an access, every thread of its priority created before it has ended; a preempted thread keeps its turn |
| Scheduler.EveryThreadHasOnePlace | FAQ.md:184-186 | in every schedule each unfinished thread is either on the core or once on the list of its own priority, and nothing else is |
| Scheduler.SomeMoveIsPossible | tests/preempt_03_decrement.cc:76-91 | no deadlock: before the process has exited some move other than a quantum expiry is possible |
| Scheduler.MovesAreBounded | tests/preempt_03_decrement.cc:75-91 | under either policy, for any table and any timing of main, a run with k quantum expiries has at most 10 N + 2 + k moves |
| Scheduler.FifoRunsEnd | tests/preempt_03_decrement.cc:88-91 | no SCHED_FIFO run, for any table and any timing of main, has more than 10 N + 2 moves, so every join returns |
| Scheduler.DriveToExit | tests/preempt_03_decrement.cc:62-94 | any schedule so far, also under SCHED_RR, can be continued to the exit of the process without a failing creation |
| RealtimeOrder.SerialUnlessFailed | tests/preempt_03_decrement.cc:62-94 | under a fitting table, at every moment, the accesses are serial, the core runs the oldest unfinished thread or none, and every list holds the others of its priority in creation order |
| RealtimeOrder.FittingTableRunsSerially | tests/preempt_03_decrement.cc:37-47 | every finished run of a fitting table has serial bodies and the expected final value; the flag then depends only on the entry flag and the priorities |
| RealtimeOrder.MisfitHasFailingRun | tests/preempt_03_decrement.cc:71 | a rise between neighbours, or under SCHED_RR an equality, admits a finished run with all creations successful, broken order, a counter that ends too high and a cleared flag |
| RealtimeOrder.RunsAreBoundedExactlyWhen | tests/preempt_03_decrement.cc:75-91 | the length of the runs is bounded exactly under SCHED_FIFO or without threads |
| RealtimeOrder.CorrectExactlyWhenTableFits | tests/preempt_03_decrement.cc:62-94 | all finished runs are correct if and only if the table never rises (SCHED_FIFO) or strictly falls (SCHED_RR) |
| RealtimeOrder.CounterExactlyWhenTableFits | tests/preempt_03_decrement.cc:54-93 | all finished runs end with the counter at its expected value if and only if the table fits the policy |
| Program.StaysLagging | tests/preempt_03_decrement.cc:54-60 | once an update is lost, no step of any thread or of main makes up for it |
| RealtimeOrder.ExitCodeExactlyWhenTableFits | tests/preempt_03_decrement.cc:37-51 | all finished runs succeed if and only if the flag was set on entry, all priorities are positive and the table fits the policy, whether or not the run checks its table first |
| RealtimeOrder.SomeRunFinishes | tests/preempt_03_decrement.cc:62-94 | for every table and policy some schedule finishes with every creation successful, so that the claims about finished runs are not empty |
| Suite.ExitSuccessMeans | tests/preempt_03_decrement.cc:33-52 | over a sequence of runs on one sticky flag, EXIT_SUCCESS means exactly that every run finished with an accepted table and serial bodies |
| Suite.CountsDownToZero | tests/preempt_03_decrement.cc:93 | a run that leaves the flag set has counted down to 0 |
| Suite.FittingTestsAlwaysSucceed | tests/preempt_03_decrement.cc:33-52 | a sequence of runs with fitting tables and successful creations exits with EXIT_SUCCESS under every schedule |
| Suite.ProcessSucceedsExactlyWhenTestsFit | tests/preempt_03_decrement.cc:33-52 | for any list of tests, all processes without a failed creation exit with EXIT_SUCCESS if and only if every table fits its policy and has positive priorities |
| Suite.Decrement03AlwaysSucceeds | tests/preempt_03_decrement.cc:33-52 | the six runs of main always succeed, for any timing of main and any quantum expiries |
| Suite.Fifo02AlwaysSucceeds | tests/preempt_02_fifo.cc:24-67 | a run that has ended has finished unless a creation failed, and then it is at -1 with success |
| Suite.FailedCreationEndsTheProcess | tests/preempt_02_fifo.cc:46-53 | where the two tests give up: preempt_03 at the failed creation, preempt_02 at the first failed handle after all ten creations |
| Suite.RoundRobin02CanFail | tests/preempt_02_fifo.cc:32 | with SCHED_RR the same program has a finished run that fails |
| Harness.VerifyFlag.Verify | include/base/verify.h:34-35 | evaluates to the condition; a failure clears the flag and nothing sets it again |
| Harness.TestRun.constructor | tests/preempt_03_decrement.cc:66-73 | after the loop the flag says whether it was set and the table never rises, and thread i expects start - i |
| Harness.TestRun.Create | tests/preempt_03_decrement.cc:77-86 | performs exactly the creation step of the model |
| Harness.TestRun.Access | tests/preempt_03_decrement.cc:54-60 | performs exactly the thread's next access |
| Harness.TestRun.Join | tests/preempt_02_fifo.cc:46-53 | performs exactly main's step for the next handle |
| Harness.TestRun.Finish | tests/preempt_03_decrement.cc:93 | performs exactly the last VERIFY |
| Harness.TestRun.Replay | tests/preempt_03_decrement.cc:62-94 | performing a history in place ends in the model's state, and a finished one leaves the flag telling whether the bodies were serial |
| BubbleSort.BubbleSort | include/base/algorithm.h:16-34 | the array ends as the sorted permutation named by Sort; the result is the swap count of Sort, and the outer loop makes as many passes as Sort |
| BubbleSortTheorems.PassLowersTable | include/base/algorithm.h:22-29 | one pass moves the inversion table one place to the left and lowers each nonzero entry by one, for every vector |
| BubbleSortTheorems.PassLowersEachElement | include/base/algorithm.h:22-29 | one pass permutes the elements and lowers the entry of each single element by one, or leaves it at zero |
| BubbleSortTheorems.StrictSwapsOfPass | include/base/algorithm.h:22-29 | pass k makes one strict swap per element whose initial entry is at least k |
| BubbleSortTheorems.SortIsPasses | include/base/algorithm.h:20-32 | the sort is as many full passes as it counts, so that pass k of the theorems is pass k of the sort |
| BubbleSortTheorems.SortsItsInput | include/base/algorithm.h:16-55 | the result equals any sorted sequence with the same elements, for every length |
| BubbleSortTheorems.PassCount | include/base/algorithm.h:20-32 | on distinct elements min(n-1, 1 + largest entry) passes; with a duplicate always n-1, the early exit is never taken |
| BubbleSortTheorems.SwapCount | include/base/algorithm.h:19-33 | the count lies between the inversions and (n-1)^2 and equals the inversions exactly on distinct elements |
| BubbleSortTheorems.PassSwapsAre | include/base/algorithm.h:22-29 | a pass makes one swap for each element that has one at least as large before it, duplicates included |
| BubbleSortTheorems.SwapsAre | include/base/algorithm.h:19-33 | the returned count is the sum of these numbers over the passes made |
| BubbleSortTheorems.SumCountsInversions | include/base/algorithm.h:19-33 | the inversion table sums to the number of pairs out of order |
| BubbleSortTheorems.LargestSwapCount | include/base/algorithm.h:19-33 | (n-1)^2 swaps are made exactly when every element but the last is a maximum |
| BubbleSortTheorems.CounterFitsInt | include/base/algorithm.h:19-33 | the int counter cannot overflow on vectors of length n exactly if n is at most 46341 |
| Doubles.RoundIsNearest | include/base/chrono.h:162-176 | the result of a double operation is a double and no double is closer to the exact result |
| Doubles.TiesGoToEven | include/base/chrono.h:162-176 | when another double is equally near, the result is the one with the even significand, and the other has an odd one |
| Doubles.RoundError | include/base/chrono.h:162-176 | an exact result up to 2^g in magnitude is rounded by at most 2^(g-54) |
| Numeric.RoundToNearestIsExactWhen | include/base/numeric.h:15-38 | for every double the function is floor(n + 1/2) exactly if n is neither the double below one half nor an odd integer from 2^52 on |
| Numeric.RoundToNearestIs | include/base/numeric.h:36-38 | its value on every double: floor(n + 1/2), and one more in the two exceptional cases |
| Chrono.ToNsecError | include/base/chrono.h:162-176 | the conversion of any value x to nanoseconds is off from the exact product p by at most 0.5 + 2^(g-53) when the magnitude of p is at most 2^g, for every g from 0 on |
| Chrono.ToNsecErrorBelowOneHalf | include/base/numeric.h:36-38 | for products up to one half the bound 0.5 + 2^-54 holds exactly unless the product lies below the double just below one half and is rounded to it |
| Chrono.ToNsecErrorExample | include/base/numeric.h:36-38 | a double number of seconds for which that bound fails |
| Chrono.ToNsecOfHalves | include/base/chrono.h:162-176 | a product that is a multiple of one half converts exactly, ties upwards |
| Chrono.FromNsecIsNearest | include/base/chrono.h:162-176 | the conversion of a count is the double nearest to the quotient of the count as a double, ties to even |
| Chrono.WholeSeconds | include/base/chrono.h:162 | whole seconds convert to nanoseconds exactly if they are at most 4611686018 in magnitude or even, and otherwise with an error of at most 512 |
| Chrono.TimespecToNsecIsExactWhen | include/base/chrono.h:242-246 | sec * 10^9 + nsec for any nsec exactly if the seconds are at most 4611686018 in magnitude or even |
| Chrono.NsecToTimespecIs | include/base/chrono.h:248-256 | seconds and rest add up to the count and have the same sign, the rest below a second |
| Chrono.TimespecRoundTrip | include/base/chrono.h:242-256 | for every int64 count the trip through a timespec is the identity exactly under the same condition on its seconds; it is never more than 512 off and never overflows |
| Chrono.TimespecRoundTripRange | include/base/chrono.h:242-256 | the trip is the identity for all counts below 4611686019 seconds in magnitude and fails at both bounds |
| Chrono.NsecRoundTrip | include/base/chrono.h:242-256 | the reverse trip on the normalised timespecs whose count fits int64: the same exact condition on the seconds, and no overflow |
| Chrono.TimespecFitsExactlyWhen | include/base/chrono.h:242-246 | for every normalised timespec neither the cast nor the sum leaves int64 if and only if the exact count fits |
| UnitTrips.UnitRoundTrip | include/base/chrono.h:162-176 | nanoseconds to seconds, milliseconds or microseconds and back is the identity strictly between -Below and Above of the unit, which exceeds 2^51 |
| UnitTrips.UnitRoundTripEnds | include/base/chrono.h:162-176 | at Above and at -Below the trip ends one nanosecond too high |
| UnitTrips.UnitRoundTripExactlyWhen | include/base/chrono.h:162-176 | for every count the trip is the identity exactly if one of these holds: it is within the limit of the unit; it is below 2^52 in magnitude and drifts at most a quarter nanosecond up; below 2^53 it is even and drifts at most half a nanosecond up; from there on the double product is the count itself (ComesBackMeans) |
| UnitTrips.ComesBackMeans | include/base/chrono.h:162-176 | from 2^52 on the product is the count exactly if halving an even count until it is below 2^53 gives a count that lies nearest to its product, or ties and is even |
| Pthreads.Construct | include/base/threading.h:109-153 | the thread is joinable exactly if there is a function and all six calls succeed; the error is the first failing call; only then a kernel thread exists; the flag is cleared exactly for a real-time policy with a non-positive priority that is reached |
| Pthreads.JoinBase | include/base/threading.h:155-164 | join clears joinable and the error if the kernel still had the thread, and otherwise records an error and changes nothing else |
| Pthreads.JoinCopies | tests/preempt_03_decrement.cc:88-91 | the loop over copies joins every kernel thread once and in order, while the records in the array still say joinable |
| Ownership.World.IdsAreConserved | include/preempt/thread.h:156-225 | created ids are the disjoint union of owned, joined and detached ones, and no two objects own the same id |
| Ownership.Thread.Spawn | include/preempt/thread.h:167-169 | a new kernel thread owned by the new object only |
| Ownership.Thread.Move | include/preempt/thread.h:159-161 | the thread changes hands, the source owns nothing, ownership stays conserved |
| Ownership.Thread.MoveAssign | include/preempt/thread.h:186-190 | std::terminate exactly if the target owned a thread, self-assignment included; otherwise the thread changes hands |
| Ownership.Thread.Swap | include/preempt/thread.h:222-226 | both objects exchange their threads, ownership stays conserved |
| Ownership.Thread.JoinOrDetach | include/preempt/thread.h:210-220 | throws exactly if no thread is owned, and otherwise ends ownership with one join or detach |
| Ownership.Thread.Destroy | include/preempt/thread.h:177-184 | a debug build fails its VERIFY, and std::terminate is called, exactly if a thread is still owned |
| ThreadPrograms.AnyProgram | include/preempt/thread.h:156-225 | any sequence of constructions, move constructions, destructions, spawns, assignments, swaps, joins and detaches leaves each object owning what the handle model says, and each kernel thread with the fate that Follow tells; unless std::terminate was called, a created thread is owned by one of the objects exactly if it was neither joined nor detached |
| ThreadPrograms.EveryThreadsFate | include/preempt/thread.h:156-225 | seen from one kernel thread: it goes along when its owner is moved from, assigned from, swapped or renumbered, and ends as joined or as detached when its owner is; the handles and the log agree with that for every thread |
| ThreadPrograms.OnlyWhatIsAsked | include/preempt/thread.h:210-220 | a program that never detaches detaches nothing, and one that never joins joins nothing |
| ThreadPrograms.StartsAreCounted | include/preempt/thread.h:167-169 | each construction or assignment from a function starts exactly one thread, and nothing else does |
| ThreadPrograms.ExchangePermutes | include/preempt/thread.h:222-226 | swap permutes the owned ids, changes nothing else and undoes itself |
| ThreadPrograms.TerminatesExactlyWhen | include/preempt/thread.h:177-190 | std::terminate is called exactly at the first statement that destroys, assigns to or spawns into an object that owns a thread; a VERIFY fails exactly if a debug build destroys such an object |
| Tasks.SerialMeans | include/preempt/task.h:155-176 | a serial history is started and joined one id at a time, in the order of spawning |
| Tasks.MonoTask.Spawn | include/preempt/task.h:155-162 | joins a running thread first, starts exactly one thread and nothing else, never terminates the process, fails no VERIFY, and leaves the new thread as the only live one of the task |
| Tasks.MonoTask.Join | include/preempt/task.h:170-176 | never throws; joins the thread exactly if there is one |
| Tasks.RunMonoTask | include/preempt/task.h:155-176 | any sequence of spawns and joins and a last join add to the kernel's log exactly: each spawned thread started and then joined, one after the other, in order |
| Tasks.PolyTask.Grow | include/preempt/task.h:189 | growing the vector by moves keeps all threads in order and terminates nothing |
| Tasks.PolyTask.Spawn | include/preempt/task.h:184-191 | adds one new thread at the end, keeps the others |
| Tasks.PolyTask.Join | include/preempt/task.h:193-199 | joins in order up to the first object that owns nothing, and throws exactly if there is one |
| Tasks.PolyTask.Joinable | include/preempt/task.h:201-210 | true exactly if some held thread is not joined |
| Tasks.SpawnAllJoinOnce | include/preempt/task.h:184-210 | n spawns and one join: n threads started, each joined once and in order, nothing joinable, no exception |
| Tasks.RunPolyTask | include/preempt/task.h:184-199 | a sequence of spawns and joins throws exactly if JoinsAgain holds of it; up to there each spawned thread was started once, the ones before the first effective join were joined once and in order, and all later ones are still held and not joined |
| Tasks.FirstRoundMeans | include/preempt/task.h:193-199 | those are the spawns before the first join that follows a spawn |
| Tasks.JoinsAgainMeans | include/preempt/task.h:193-199 | that is, exactly if it has a spawn, a later join and another join after that |
| Strings.Split | include/base/string.h:35-47 | the loop computes Tokens |
| Strings.Join | include/base/string.h:19-28 | the concatenation followed by one separator, or nothing for no tokens |
| Strings.SplitInvertsIntercalate | include/base/string.h:35-47 | split undoes intercalation exactly on non-empty lists of separator-free tokens of which only the last may be empty |
| Strings.TokensAreCanonical | include/base/string.h:35-47 | every result of split has that form |
| Strings.SplitIsIdempotent | include/base/string.h:35-47 | split after intercalation after split is split |
| Strings.IntercalateRestoresTidy | include/base/string.h:30-47 | intercalating the tokens restores a string exactly if it has no leading and no adjacent separators |
| Strings.IntercalateTidies | include/base/string.h:35-47 | for every string, the tokens put between single separators are the string without the separators at its front and right after another one |
| Strings.TokensLoseOnlySeparators | include/base/string.h:35-47 | the concatenated tokens are the string without its separators |
| Strings.JoinSplit | include/base/string.h:19-47 | join after split is the string without separators and one at the end; it is the string itself exactly if that had one separator, at its end |

## Left out

- C++ weak memory: the data race on `global_value` is undefined behaviour in C++; the model assumes sequentially consistent accesses.
- Thread exit: the return of a body after its store touches nothing shared and is part of the store step.
- Program.Detector: a failed creation is one step that has already VERIFYed the priority; a failing `pthread_attr_init`, which comes before that VERIFY, is told apart only in Pthreads.Construct. Such runs exit with EXIT_FAILURE either way.
- Scheduler.MovesAreBounded: the model has no clock, so that nothing bounds the number of quantum expiries under SCHED_RR, and runs of any length exist (RealtimeOrder.RunsAreBoundedExactlyWhen).
- Blocking other than in main's joins, `sched_yield` and throttling: the model has none of it. A body whose VERIFY fails also writes to stderr, which may block it; the flag is down by then.
- Ownership.Thread.JoinOrDetach: std::thread::join also throws, with resource_deadlock_would_occur, when a thread joins itself; the caller is assumed to be another thread.
- Tasks.MonoTask.Join: the same assumption; it never throws for a caller outside the task.
- Doubles: overflow to infinity and subnormal numbers, which no int64 conversion reaches, and the undefined cast of values outside int64.
- BubbleSort.BubbleSort: elements are integers; for another type T with a total preorder the comparisons are the same. The two overloads are one method.
- Pthreads.JoinBase: POSIX leaves pthread_join on an id that is not joinable undefined; the model has it return an error and change nothing. The tests' join loop never comes to that case (Pthreads.JoinCopies).
- Ownership.Thread.Spawn: the constructor of std::thread can throw std::system_error when the system is out of resources; here it always succeeds.
- Tasks.PolyTask.Spawn: the guard at include/preempt/task.h:188 is an unnamed temporary that protects nothing; a single caller is assumed, and memory for the vector does not run out.
- `try_scheduling`, `change_scheduling`, `critical_task`, `timeout`, `stopwatch`, `benchmark`: they depend on the kernel or the clock and add one-branch facts.
- Process and kernel calls, error texts, tracing, breakpoints, `clamp`, `interval`, the `almost_` comparisons, `unquote`, pointer casts: no logic of this kind to prove.
