# Treadmill: a verified model of the load generator's protocol

Treadmill is an open-loop load generator. A scheduler thread paces ticks against a
nanosecond budget and deals them round-robin into one FIFO queue per worker; worker threads
consume their queues, limit the requests in flight, pull requests from a stateful workload
and publish statistics; control calls pause, resume, change the phase and change limits
while everything runs; the runner starts everything, stops the scheduler, waits a bounded
time for the workers to become idle and stops them.

The project models this in Dafny 4.11 and proves what holds in every run. `dafny verify
dfyconfig.toml` checks all of it.

## How it is built

* **The transition system.** `WorkerModel` gives a worker as a value with a program counter
  inside `messageAvailable` and `sendRequest`; `System` puts workers, the scheduler's position
  in `loop`, any number of control calls in progress and the runner together. One step is one
  access to shared state, and any enabled step may come next, so a run (`System.IsRun`) is an
  arbitrary interleaving. Each queue is a log of everything ever put into it plus the number of
  events taken.
* **The invariant.** `WorkerInvariant` has the parts that concern one worker, `SystemInvariant`
  the parts that concern several actors; `InvStep` says that every step keeps all of them.
  The centre is `QueuesDealt`: what the scheduler thread has put into queue i is, at every
  moment, exactly the function `Dealings` of the epochs dealt so far.
* **The theorems.** `SystemTheorems` derives whole-run statements. `Pacing` treats the sleep
  budget, `ExceptionCounts` the concurrent publishing of exceptions, `Throughput` the samples,
  `Overload` the logging of long queues, `LimitChanges` limits set at run time,
  `MemcachedWorkload` the request generator, `Dealing` the arithmetic of round-robin dealing.
  `Accounting` carries meters, pending exceptions and the shared counter along the runs of the
  protocol and proves that this excludes no run; `ExactTotals` treats the plain total there.
* **Runs that exist.** `WitnessRuns` builds runs from the initial state for every configuration;
  `Counterexamples` and `LimitChanges` use them where a plain claim is false.
* **The loop's looks.** `LoopTrace` says what an epoch is that follows what the scheduler sees of
  the world, look by look; `Shutdown` and `Resuming` treat the two ends of a run.
* **The imperative code.** `SchedulerThread.Scheduler`, `WorkerThread.Worker`,
  `MemcachedWorkload.MemcachedService`, `CounterStatistics.CounterStatistic`,
  `CounterStatistics.StatisticsManager`, `Runner.AwaitWorkers` and `Runner.TreadmillFB303` are
  classes and methods with the fields and loops of the source, proved against the functions of
  the model. `Refinement.MessageAvailableIsAPath` ties a method call to a path of the transition
  system; `Scheduler.Loop` fills the queues with the same `Dealings` that the invariant names.

## Assumptions

* Shared accesses are sequentially consistent; `rps_` and the scheduler's limit are plain fields.
* The clock is monotone and strictly positive (the source uses 0 for "no previous tick").
* Rates, worker counts and connection counts are positive.
* Reals stand in for doubles; a drawn interval is an arbitrary non-negative factor times the mean
  interval; assigning a double to the integer budget truncates toward zero.
* Reply callbacks run on the owning worker's event thread, from the event loop or inline.
* The early return on an exhausted workload is two steps, so other threads can see the state
  between them. The workload is the memcached one, except that any call may also report exhaustion.

## Where the plain claim is false

* A worker that no longer runs implies STOPPING if and only if it is not between the two statements
  of early termination (`StoppedWorkerMeansStopping`), a place that a run of every configuration
  reaches (`WorkerStopsBeforeScheduler`).
* A pause and a resume between two tests of the inner loop leave no trace (`PauseCanBeMissed`); the
  loop leaves its epoch if and only if a test observes a pause (`EpochIsLeftIffPauseObserved`), and
  every such observation but an unfinished or final one is followed by one RESET in every queue
  (`ResetsCountObservedPauses`, `PauseCanBeObserved`).
* That drained workers hold the limit asked for last is guaranteed if and only if it was asked for
  while no other change was in progress (`LoneChangeIsHeld`, `LastChangeIsHeldIffAlone`); with one
  other it can be lost (`OverlappingChangesLoseTheLast`).
* A failure that was received need not be published when the program ends
  (`FailureCanStayUnpublished`); all are if and only if no worker has had one since it last
  completed a publication (`AllPublishedIffNoneSince`).
* The maximum of outstanding requests is divided among the workers at start-up and not when it is
  changed. Without a change the total stays within it (`TotalStaysWithinMaximum`); with changes it
  does in all runs if and only if n times each value asked for does (`MaximumIsKeptIffValuesFit`), which the maximum
  itself does only with one worker or if it allows nothing (`SameMaximumFitsIffOneWorker`). The most
  that can be outstanding is n times the largest of the share at start-up and the values asked for
  (`LargestTotal`).
* The total of an exception counter is exact in every run if and only if there is one worker
  (`TotalIsExactIffOneWorker`); it never overstates, and the per-type cells are always exact.
* The overload factor is a power of two if and only if the threshold is at least 1
  (`FactorIsPowerIffThreshold`); the runner passes the per-worker limit as threshold, which can be 0.
* The key index stays an `int` if and only if the number of keys is between 1 and INT_MAX
  (`IndexFitsIffKeysInRange`).
* The help text of `--max_outstanding_requests` calls it a limit per worker; the code divides it by
  the number of workers, and the model follows the code.

## Model

| member | source | states |
|---|---|---|
| `SystemTheorems.StoppingForever` | Scheduler.cpp:68-105 | once STOPPING, no pause, resume or other step of any actor ever leaves it |
| `SystemTheorems.StoppedWorkerMeansStopping` | Worker.h:184-226 | in every reachable state, for a started worker, "not running implies STOPPING" holds if and only if the worker is not between the two statements of early termination with nobody else having stopped the scheduler; the CHECK in `join` cannot fail |
| `Counterexamples.WorkerStopsBeforeScheduler` | Worker.h:222-226 | in every configuration a run reaches that exception: a started worker that is not running while the scheduler is RUNNING |
| `SystemTheorems.PollingIsBounded` | Treadmill.h:183-199 | the runner makes at most worker_shutdown_delay passes |
| `Shutdown.RunnerWaits` | Treadmill.h:183-199 | in every run the runner gives up only after exactly worker_shutdown_delay completed polls that each found somebody busy (none if the delay is not positive), and succeeds with the first poll that finds nobody busy, within the delay |
| `Shutdown.RemainingHadWork` | Treadmill.h:187-198 | whenever a poll has counted a worker as remaining, some worker had more work at a moment since the last poll ended |
| `Shutdown.WaitCanSucceed` | Treadmill.h:183-207 | for every configuration with a positive delay there is a run from the initial state whose wait succeeds and that finishes |
| `Shutdown.JoinWaitsForLoop` | Treadmill.h:179-181 | the runner polls and stops workers only after the scheduler's loop has returned |
| `Shutdown.FinishedMeansStopped` | Treadmill.h:202-207 | when the runner has finished no worker runs, whether or not the wait succeeded |
| `Shutdown.StoppedWorkerHandlesNothing` | Worker.h:184-191 | a worker that has stopped running, however it did, takes at most one more event, which it does not handle; at most the tick in hand is still finished |
| `SystemTheorems.DrainedMeansIdleForever` | Treadmill.h:187-199 | if the wait ends with nothing remaining, all workers are idle at the same time and for ever: nothing in flight, nothing more sent, no more replies |
| `SystemTheorems.QueueFollowsGrammar` | Scheduler.cpp:156-194 | the scheduler's contribution to every queue is always a prefix of (RESET SEND_REQUEST*)+ STOP, whatever control events are interleaved |
| `SystemTheorems.LoopExit` | Scheduler.cpp:191-194 | when the loop has returned every queue has the same number of RESETs and one STOP, holds exactly its dealings, and gets nothing more from the scheduler |
| `SystemTheorems.DealingIsFair` | Scheduler.cpp:159-183 | an earlier queue leads a later one by 0 to the number of epochs; what a queue has received is the sum of its shares, each k div n of an epoch's k ticks plus one for the first k mod n queues; all queues together have received every tick |
| `SystemTheorems.ConnectionsAreFair` | Worker.h:230-231 | over a worker's whole run the send counts of two connections differ by at most one |
| `SystemTheorems.QuietPeriod` | Scheduler.cpp:157-192 | while the state is not RUNNING at most one SEND_REQUEST is put across all queues or one RESET per queue, never both |
| `SystemTheorems.ResetBeforeNextTick` | Scheduler.cpp:157-191 | after the loop has observed a state other than RUNNING, any new tick anywhere implies a RESET in every queue right after what it held |
| `SystemTheorems.ResetsCountObservedPauses` | Scheduler.cpp:157-191 | over any stretch of a run every queue gets exactly one RESET per test of the inner loop that did not see RUNNING, save that the last may still wait for its epoch; pauses no test sees count for nothing |
| `SystemTheorems.EpochIsLeftIffPauseObserved` | Scheduler.cpp:163-191 | from inside an epoch, the loop is still in it if and only if no test since then failed to see RUNNING, whatever pauses and resumes happened |
| `Counterexamples.PauseCanBeObserved` | Scheduler.cpp:163-191 | every run that stands at the test can go on with a pause that the test observes, and a resume then begins a new epoch |
| `Counterexamples.PauseCanBeMissed` | Scheduler.cpp:68-80 | the same run can go on with a pause and a resume that no test observes: they lead back to the same state and a tick of the same epoch follows |
| `SystemTheorems.ResumedTicksSeeThePhase` | TreadmillFB303.cpp:96-109 | after resume2 every later event of a queue sits behind its SET_PHASE, and is handled in that phase unless another SET_PHASE intervenes |
| `Resuming.Resume2SetsPhaseAndResumes` | TreadmillFB303.cpp:96-109 | a call of resume2 from its beginning (only while PAUSED if --wait_for_runner_ready) to its return: a scheduler still paused then runs, the state changes in no other way, and later events sit behind the phase it was given |
| `Resuming.Resume2Works` | TreadmillFB303.cpp:96-109 | for every configuration and phase, a run in which resume2 while paused ends with the scheduler running and every worker in that phase |
| `Resuming.TicksNeedResumeIffFlag` | Scheduler.cpp:42-55 | in every run the first tick comes after a resume, if and only if --wait_for_runner_ready is given |
| `Resuming.Resume2NeedsPauseIffFlag` | Scheduler.cpp:86-91 | every resume2 of every run begins while PAUSED, if and only if --wait_for_runner_ready is given |
| `SystemTheorems.HandledTicksAreDealt` | Worker.h:192-196 | what a worker has handled is, epoch by epoch, an initial part of what was dealt to it |
| `SystemTheorems.TickAsksForKey` | services/memcached/Workload.h:37-69 | the a-th tick a worker handles in an epoch is tick a*n+i, and its request asks for the key numbered by the requests accepted before it, modulo N; a mod N if none was lost |
| `SystemTheorems.EpochsRepeatTheKeys` | Workload.h:40-41 | any two epochs without lost ticks ask for the same keys on their common prefix, across workers and runs |
| `SystemTheorems.WorkerSetsThenGets` | services/memcached/Workload.h:45-69 | in every run a worker's requests are SETs of their own key and then GETs of keys it has SET, and its state is GET exactly if every key has been SET |
| `SystemTheorems.EpochWarmsUp` | services/memcached/Workload.h:45-69 | in every run, a worker that has sent as many requests in one epoch as there are keys has SET every key and is in GET |
| `SystemTheorems.TicksAreConserved` | Worker.h:183-260 | SEND_REQUESTs put = queued + in hand + sent + dropped + exhausted + discarded (at most one); sent = in flight + completed, disjoint |
| `SystemTheorems.TickIsDroppedIffAtLimit` | Worker.h:219-268 | in any step of a run a worker drops a tick if and only if it decides on one while at its limit or above or not running; otherwise the tick goes on to be sent |
| `SystemTheorems.TotalStaysWithinMaximum` | Treadmill.h:107-115 | without a limit change the workers together never have more than the configured maximum outstanding, for any worker count and any sign of the maximum |
| `SystemTheorems.ShareAtStart` | Treadmill.h:107-115 | at start-up each worker's limit is the largest that fits n times into a non-negative maximum (n * limit <= M < n * (limit + 1)), and the mirror image for a negative one; the scheduler keeps the undivided maximum |
| `SystemTheorems.NeverRisesAboveLimit` | Worker.h:220-229 | outstanding stays between 0 and the larger of the limit and what was outstanding when it was set, and never rises at or above the limit |
| `SystemTheorems.DrainedWorkerHoldsLastLimit` | Scheduler.cpp:97-101 | if the change asked for last began while no other was in progress, and none is now, a consuming worker with an empty queue holds the limit last asked for |
| `LimitChanges.LoneChangeIsHeld` | Scheduler.cpp:97-101 | the same over a run: step j asks alone, no later step asks, nothing is in progress at k, so a drained consuming worker holds the value of step j, however earlier changes overlapped |
| `LimitChanges.LastChangeIsHeldIffAlone` | Scheduler.cpp:97-101 | the value asked for last with at most m other changes in progress is what drained workers hold, in every run, if and only if m is 0 |
| `LimitChanges.OverlappingChangesLoseTheLast` | Scheduler.cpp:97-101 | for every configuration and any two values, a run asks for the second while only the change to the first is in progress, both return, and all workers are drained at the first |
| `LimitChanges.LargestValueBoundsEachWorker` | Worker.h:197-229 | under any interleaving of limit changes no worker has more outstanding than the largest of its share at start-up and the values asked for at run time |
| `LimitChanges.LargestTotal` | Treadmill.h:107-115 | for any set of values that may be asked for, n times the largest of the start-up share and these values is the most all workers together can have outstanding: no run exceeds it and one reaches it |
| `LimitChanges.LimitChangeIsNotDivided` | Scheduler.cpp:97-101 | for every configuration and every non-negative value, a run that asks for no other limit reaches n times that value outstanding |
| `LimitChanges.MaximumIsKeptIffValuesFit` | Treadmill.h:108-109 | for any set of values, all runs that ask for no others keep the total within the configured maximum if and only if n times each value is within it |
| `LimitChanges.SameMaximumFitsIffOneWorker` | Treadmill.h:108-109 | the configured maximum itself satisfies that condition if and only if there is one worker or it is not positive |
| `SystemInvariant.InitInv` | Treadmill.h:106-118 | the state built by the runner's constructor satisfies the invariant |
| `SystemInvariant.InvStep` | Treadmill.h:168-207 | every step of scheduler, workers, control calls and runner keeps the invariant |
| `SystemInvariant.InvOnRun` | Treadmill.h:168-207 | the invariant holds in every state of every run |
| `SystemInvariant.SchedulerInvOnScheduler` | Scheduler.cpp:156-194 | every move of the loop keeps each queue equal to what the epochs say was dealt to it |
| `SystemInvariant.DealtLogIsGrammatical` | Scheduler.cpp:156-194 | a dealt queue is accepted by the automaton of the grammar, and ends in STOP exactly if STOP was put |
| `SystemInvariant.StoppingIsAbsorbing` | Scheduler.cpp:68-80 | no step leads out of STOPPING |
| `SystemInvariant.HaltingMeansStopping` | Worker.h:184-191 | a worker that handles STOP or finds itself not running does so only when the scheduler is STOPPING |
| `SystemInvariant.QuietIsStable` | Worker.h:132-134 | not running, nothing outstanding and no send under way is stable under every action but a start |
| `SystemInvariant.PollInvStep` | Treadmill.h:187-198 | while polling, all workers passed so far with nothing remaining are quiet, although each was read twice |
| `SystemInvariant.SettersInvStep` | Scheduler.cpp:97-101 | as long as limit changes do not overlap, every queue a change has reached ends in the current limit |
| `SystemInvariant.CallsInvStep` | Scheduler.cpp:86-91 | a broadcast's event stays where it was put in every queue it has reached |
| `WorkerInvariant.WorkerInvAct` | Worker.h:183-293 | every action of the event thread keeps a worker's counters, limit, position, history, keys and requests consistent |
| `WorkerInvariant.CountersStep` | Worker.h:219-260 | outstanding equals the requests in flight, ids are never reused, connections go round |
| `WorkerInvariant.HistoryStep` | Worker.h:192-226 | the history of outcomes matches the handled part of the queue epoch by epoch |
| `WorkerInvariant.KeysStep` | services/memcached/Workload.h:37-69 | keys follow the accepted requests since the last RESET modulo the number of keys |
| `WorkerInvariant.SettingsStep` | Worker.h:197-213 | limit and phase are the last ones in the handled part of the queue |
| `WorkerInvariant.WorkerInvComplete` | Worker.h:237-260 | a reply moves its request from in flight to completed and lowers outstanding by one |
| `Refinement.MessageAvailableIsAPath` | Worker.h:183-217 | taking and handling one event to the end is a path of the transition system ending in what the method leaves behind, STOPPING exactly if the workload was exhausted |
| `Refinement.ReplyIsAPath` | Worker.h:237-260 | a reply to any request in flight can arrive while the event thread is idle, and does what OnReply does |
| `Refinement.LoopIsARun` | Scheduler.cpp:156-194 | whatever epochs `Scheduler.Loop` goes through, some run of the transition system deals exactly the queues that its contract states |
| `Refinement.PollIsAPath` | Treadmill.h:187-198 | one undisturbed poll is a path that counts the workers with more work as `AwaitWorkers` does, and then succeeds, repeats or gives up |
| `Pacing.BudgetTelescopes` | Scheduler.cpp:162-173 | at the spin the budget is the sum of all intervals drawn minus the time since the epoch began, within less than one ns per assignment |
| `Pacing.BudgetTelescopesExactly` | Scheduler.cpp:162-173 | with integer intervals that equation is exact |
| `Pacing.BudgetAfterPass` | Scheduler.cpp:171-173 | the same law after a pass, exact for integer intervals |
| `Pacing.NoCredit` | Scheduler.cpp:169-173 | after a pass the budget is at most the interval just drawn |
| `Pacing.NeverEarly` | Scheduler.cpp:160-173 | tick k leaves less than k+1 ns before it is due; with integer intervals at max(loop top, due) plus a non-negative overshoot |
| `Pacing.LateTickIsNotDelayed` | Scheduler.cpp:165-169 | a tick already due by more than the truncation allowance is not delayed |
| `LoopTrace.LateTickSpinsOnce` | Scheduler.cpp:131-141 | the spin of a tick whose budget is used up ends at its first look |
| `LoopTrace.SeenIsPaced` | Scheduler.cpp:160-173 | every epoch that follows a trace of looks is properly timed: monotone clock, spins as long as the budget |
| `LoopTrace.MeanIntervalIsSecondOverRate` | Scheduler.cpp:161-161 | 1,000,000,000 - rps < mean interval * rps <= 1,000,000,000 for every positive rate |
| `LoopTrace.EpochKeepsRate` | Scheduler.cpp:159-187 | the intervals of an epoch add up to its random factors times a second over the rates it saw, less at most one ns per unit of a factor |
| `Pacing.LoadNeverRunsAhead` | Scheduler.cpp:163-187 | at any time of an epoch no more ticks have left than were due by then, where tick number m, counted from 1, is granted the truncation allowance of m ns |
| `Dealing.PointerIsMod` | Scheduler.cpp:180-183 | the queue pointer after k ticks is k mod n |
| `Dealing.DealtClosedForm` | Scheduler.cpp:174-183 | queue i gets k div n of k ticks, plus one if i < k mod n |
| `Dealing.TickPosition` | Scheduler.cpp:174-183 | tick t is number t div n of queue t mod n |
| `Dealing.AllTicksAreDealt` | Scheduler.cpp:174-183 | the shares of all queues add up to k |
| `Dealing.EarlierQueueLeads` | Scheduler.cpp:159-183 | over m epochs an earlier queue leads a later one by 0 to m |
| `Events.LimitRoundTrip` | Scheduler.cpp:97-100 | a limit survives the conversions to uint32_t and back, negative ones included |
| `Events.GrammaticalNext` | Scheduler.cpp:157-192 | in a grammatical queue a SEND_REQUEST only follows a RESET of its epoch |
| `Events.ShapePrefix` | Scheduler.cpp:157-183 | the epochs of a prefix of a queue are an initial part of its epochs |
| `SchedulerThread.Scheduler.constructor` | Scheduler.cpp:42-55 | empty queues, every overload factor 1 with no size observed, PAUSED exactly with --wait_for_runner_ready |
| `SchedulerThread.Scheduler.Pause` | Scheduler.cpp:68-71 | RUNNING becomes PAUSED, nothing else changes |
| `SchedulerThread.Scheduler.Resume` | Scheduler.cpp:73-80 | PAUSED becomes RUNNING; success means not STOPPING |
| `SchedulerThread.Scheduler.SetPhase` | Scheduler.cpp:86-91 | every queue gets the phase, or the process aborts because it must be PAUSED and is not |
| `SchedulerThread.Scheduler.SetMaxOutstandingRequests` | Scheduler.cpp:97-101 | every queue gets an event from which the workers read back exactly the value asked for |
| `SchedulerThread.Scheduler.Stop` | Scheduler.cpp:103-105 | the state is STOPPING |
| `SchedulerThread.Scheduler.SetRps` | Scheduler.cpp:120-122 | the stored rate converts back to the rate given |
| `SchedulerThread.Scheduler.WaitNs` | Scheduler.cpp:131-141 | terminates, at the first look by which ns have passed since its own first |
| `SchedulerThread.Scheduler.MessageAllWorkers` | Scheduler.cpp:143-147 | every queue gets the event once, at its end |
| `SchedulerThread.Scheduler.FirstDraw` | Scheduler.cpp:160-162 | the budget of an epoch without ticks is its first interval, truncated |
| `SchedulerThread.Scheduler.Pace` | Scheduler.cpp:164-173 | one pass: the elapsed time comes off the budget, the spin ends at the first look by which the rest has passed, the new interval less the time taken goes on |
| `SchedulerThread.Scheduler.PutTick` | Scheduler.cpp:174-183 | the tick goes to the pointer's queue, the factor follows the observed sizes, the pointer goes round |
| `SchedulerThread.Scheduler.FollowRate` | Scheduler.cpp:184-187 | the mean interval is that of the rate seen |
| `SchedulerThread.Scheduler.Pass` | Scheduler.cpp:163-188 | a test that sees RUNNING extends the epoch's trace by one pass, deals its tick, shows its queue's size to the overload test and follows the rate |
| `SchedulerThread.Scheduler.RunEpoch` | Scheduler.cpp:158-188 | one epoch puts a RESET everywhere; each test that sees RUNNING, and no other, is followed by a paced tick whose clock readings, interval and observed size are those of its looks; it ends at the first test that does not see RUNNING |
| `SchedulerThread.Scheduler.WaitWhilePaused` | Scheduler.cpp:189-190 | looks at the state after a microsecond's spin each time until one look does not see PAUSED |
| `SchedulerThread.Scheduler.Loop` | Scheduler.cpp:156-194 | terminates exactly at the test after an epoch that sees STOPPING; every queue has got exactly its dealings of all epochs and one STOP, with a tick for every test that saw RUNNING; every epoch follows its looks and is paced |
| `SchedulerThread.LoopPacesEveryTick` | Scheduler.cpp:160-187 | in every epoch of the loop no tick is early, no credit builds up and the load never runs ahead |
| `Overload.LoggingIsLogarithmic` | Scheduler.cpp:175-179 | the factor is 2 to the number of lines, nothing overflows, and after c lines some size exceeded threshold * 2^(c-1) |
| `Overload.LineIffOverFactor` | Scheduler.cpp:175-179 | a line is logged exactly if the size exceeds the threshold times 2 to the number of lines so far |
| `Overload.FactorIsPowerIffThreshold` | Scheduler.cpp:35-35 | the factor is a power of two for all sizes below 2^62 if and only if the threshold is at least 1 |
| `Overload.ZeroThresholdOverflows` | Treadmill.h:108-115 | with threshold 0, 64 non-empty observations drive the factor to 0 |
| `MemcachedWorkload.NextKeepsConsistent` | services/memcached/Workload.h:45-69 | one request keeps fields and history consistent; in GET it is a GET of a key SET before |
| `MemcachedWorkload.EveryHistoryIsConsistent` | services/memcached/Workload.h:34-69 | in every interleaving of requests and resets: SETs of their own key, then GETs of keys already SET; the state is GET if and only if all keys are SET; the index stays within 0..N |
| `MemcachedWorkload.WarmupEnds` | services/memcached/Workload.h:45-69 | N requests from index 0 without a reset between them lead to GET, whatever happened before |
| `MemcachedWorkload.UndisturbedHistory` | services/memcached/Workload.h:45-69 | without resets the first N requests SET keys 0 to N-1 in order and request a >= N GETs key a mod N |
| `MemcachedWorkload.NoSetAfterWarmup` | services/memcached/Workload.h:57-64 | once in GET no continuation issues another SET |
| `MemcachedWorkload.KeyAfterReset` | services/memcached/Workload.h:37-50 | request a after a reset asks for key a mod N |
| `MemcachedWorkload.IndexFitsIffKeysInRange` | services/memcached/Workload.h:46-67 | the index stays an int in every history if and only if 1 <= N <= INT_MAX |
| `MemcachedWorkload.MemcachedService.constructor` | services/memcached/Workload.h:34-35 | starts in WARMUP at key 0 with nothing issued, for any number of keys, and is valid exactly for 1 to INT_MAX keys |
| `MemcachedWorkload.MemcachedService.Reset` | services/memcached/Workload.h:37-39 | only the index goes back to 0 |
| `MemcachedWorkload.MemcachedService.GetNextRequest` | services/memcached/Workload.h:45-69 | the request and the new fields are those of the model, a GET names a key SET before, and the state is GET exactly if all keys are SET |
| `WorkerThread.Worker.constructor` | Worker.h:48-71 | the fields say what the model's initial worker says, with the divided limit; a fresh meter, nothing pending, no samples |
| `WorkerThread.Worker.Run` | Worker.h:97-119 | the worker runs and consumes, and its throughput window starts |
| `WorkerThread.Worker.Sample` | Worker.h:269-280 | takes a sample and zeroes the counter exactly when 0.1 s have passed |
| `WorkerThread.Worker.PublishStatistics` | Worker.h:269-292 | all pending exceptions are added under their names and to the totals, nothing is pending, and the meter is measured |
| `WorkerThread.Worker.Dispatch` | Worker.h:228-236 | the next request goes to the next connection and is outstanding |
| `WorkerThread.Worker.TrySend` | Worker.h:220-267 | sends, drops or ends by exhaustion as the model decides |
| `WorkerThread.Worker.SendRequest` | Worker.h:219-293 | the model's actions for a tick; the early return leaves pending amounts, counters, samples and meter alone, every other path adds every pending amount to its cell and total and takes both samples if it is time |
| `WorkerThread.Worker.Halt` | Worker.h:184-191 | stops consuming and running |
| `WorkerThread.Worker.Configure` | Worker.h:192-217 | RESET, limit and phase take effect; wrong data is ignored |
| `WorkerThread.Worker.MessageAvailable` | Worker.h:183-217 | the fields end up as after all actions of the transition system for this event; terminates the run exactly on exhaustion; publishes everything exactly on a tick that finds the worker running and does not terminate |
| `WorkerThread.Worker.OnReply` | Worker.h:237-260 | one completion, one exception if failed, a latency sample if running, one more reply on the meter |
| `WorkerThread.Worker.Accounted` | Worker.h:246-277 | in every valid worker the samples and the pending count account for all replies |
| `WorkerLife.FailureIsPublished` | Worker.h:183-293 | a worker from its construction through start, RESET, limit, tick, failed reply and next tick: the failure is in the total and under its name, once |
| `WorkerThread.Worker.OnUncaughtException` | Worker.h:262-266 | one more uncaught exception of that type |
| `WorkerThread.Worker.Stop` | Worker.h:121-126 | no longer running, nothing else changes |
| `WorkerThread.Worker.HasMoreWork` | Worker.h:132-134 | true exactly if running or something is outstanding |
| `WorkerThread.SettleDecision` | Worker.h:219-293 | the single actions of a tick, one after the other, are what sendRequest does |
| `WorkerThread.SettleEvent` | Worker.h:183-217 | the single actions of an event, one after the other, are what messageAvailable does |
| `Throughput.SamplesAccountForReplies` | Worker.h:269-280 | sample times window over workers, summed, plus pending is completed, if and only if no reply fell between a read and its zeroing (none can on the own thread); windows of at least 0.1 s tile the time |
| `Throughput.SampleWhenDue` | Worker.h:269-277 | a measurement takes a sample exactly if 100,000,000 ns have passed, and its value times the window is the number of replies times the workers times 1,000,000,000 |
| `Throughput.InvStep` | Worker.h:246-277 | every reply, sample and zeroing keeps that account |
| `Accounting.RepliesAreAccountedFor` | Worker.h:246-277 | in every run of the whole protocol, with others moving between the steps of publishing, a worker's samples and pending count account for exactly the requests it has completed |
| `CounterStatistics.CounterStatistic.constructor` | CounterStatistic.h:26-26 | a counter without calls |
| `CounterStatistics.CounterStatistic.IncreaseBy` | CounterStatistic.h:28-37 | the total is the sum of all calls, each cell the sum of the calls with its subkey, and the total the sum of cells and unnamed calls |
| `CounterStatistics.CounterStatistic.GetCount` | CounterStatistic.h:39-41 | the sum of all calls |
| `CounterStatistics.CounterStatistic.GetSubkeyCount` | CounterStatistic.h:43-49 | the sum of the calls with that subkey; a cell created on the way changes no value |
| `CounterStatistics.StatisticsManager.GetCounterStat` | StatisticsManager.cpp:93-109 | one object per name, the same on every call, different for different names |
| `CounterStatistics.Publish` | Worker.h:282-285 | every pending amount reaches its cell and the total once, in any order |
| `ExceptionCounts.InvStep` | Worker.h:282-290 | every step of a failure or of a concurrent publisher keeps the accounts |
| `ExceptionCounts.CountsAreConserved` | Worker.h:247-290 | in every interleaving, for each type name, the shared cell (the unnamed amount for the empty name) plus what all workers still hold equals the failures received |
| `Accounting.FailuresAreAccountedFor` | Worker.h:247-290 | in every run of the whole protocol, for each type name, published plus held equals the number of completed requests that failed with it |
| `Accounting.AllPublishedIffNoneSince` | Worker.h:282-290 | while nobody is in the middle of publishing, everything that failed with a name is published if and only if no worker has had such a reply since it last completed a publication |
| `Accounting.HeldSincePublication` | Worker.h:247-290 | at any time a worker holds failures of a name exactly if it has had one since it last completed a publication |
| `Accounting.PublishingIsComplete` | Worker.h:219-292 | outside the end of sendRequest nothing is half published, and a worker that has published holds nothing |
| `Accounting.LeavesNothingUnpublished` | Worker.h:282-293 | a worker leaves the end of sendRequest only after it has published everything it held |
| `Accounting.WindowsBeginAtStart` | Worker.h:97-119 | the throughput windows of a worker begin when it is started, at any time |
| `Accounting.AccountedStep` | Worker.h:219-292 | every action of the protocol, of a reply or of a publisher keeps all accounts |
| `Accounting.SystemsIsARun` | Worker.h:183-293 | a run with accounts is a run of the protocol, so all theorems hold of it |
| `Accounting.EveryRunHasAccounts` | Worker.h:183-293 | and every reachable state of the protocol is reached by a run with accounts |
| `Counterexamples.FailureCanStayUnpublished` | Worker.h:247-290 | in every configuration a failure of any name can be received and the program finish without publishing it |
| `ExceptionCounts.TotalNeverOverstates` | CounterStatistic.h:28-37 | the plain total can lose updates but never exceeds what was published |
| `ExceptionCounts.ExactOnRun` | CounterStatistic.h:28-37 | if the two halves of the increment never overlap the total equals cells plus unnamed amounts |
| `ExactTotals.TwoWorkersCanLose` | CounterStatistic.h:29-29 | with two or more workers a run of the whole protocol, in which two workers send, fail and publish at the same time, loses an update of the total |
| `ExactTotals.TotalIsExactIffOneWorker` | CounterStatistic.h:54-54 | in all runs of the whole protocol the total is exact if and only if there is one worker |
| `ExactTotals.ExactWithoutOverlap` | CounterStatistic.h:28-37 | with any number of workers it is exact in a run in which no two are ever between the halves of the increment |
| `Runner.AwaitWorkers` | Treadmill.h:183-199 | at most worker_shutdown_delay polls; all but the last found somebody busy; gives up only when the delay is used up; zero remaining exactly if the last poll found all idle |
| `Runner.TreadmillFB303.Pause` | TreadmillFB303.cpp:78-83 | pauses the scheduler and answers true |
| `Runner.TreadmillFB303.Resume` | TreadmillFB303.cpp:85-94 | refused without a required configuration, otherwise succeeds unless stopping |
| `Runner.TreadmillFB303.Resume2` | TreadmillFB303.cpp:96-109 | the phase is in every queue before the scheduler can run again |
| `Runner.TreadmillFB303.SetMaxOutstanding` | TreadmillFB303.cpp:117-121 | every queue gets the undivided value |

## Left out

- Connections, Thrift, memcached and fiber clients, DNS lookup and sockets: a sent request is an id in flight that may complete once.
- Random engines and the shape of the exponential distribution: an interval is any non-negative multiple of the mean.
- Floating-point rounding and rates that are not positive.
- Quantile histograms and the text of `print`; added samples are kept as sequences. `getContinuousStat` is the same get-or-create as `getCounterStat`.
- The watchdog and the configuration getters and setters of TreadmillFB303.cpp, fb303 status, flag parsing, CPU affinity, JSON and file helpers, the sleep service.
- Liveness that depends on the operating system or the event loop: thread joins, `terminateLoopSoon`, delivery of replies, workers that wait for the target.
- The per-worker gauge `outstanding_requests` of ServiceData.
- SchedulerThread.Scheduler.Loop: meets control events only through what it observes of the state and the rate; their interleaving with the loop's own puts is in System.
- SchedulerThread.Scheduler.Pace: the random factor is an observation of the environment, not a generator.
- WorkerThread.Worker.MessageAvailable: an undisturbed call; interference by other threads between its accesses is in System.
- WorkerThread.Worker.Run: does not model the wait for the target or the check of the counter flags.
- WorkerThread.Worker.Stop: does not model the termination of the event loop, after which the worker takes no more steps.
- MemcachedWorkload.MemcachedService.GetNextRequest: speaks of a number of keys between 1 and INT_MAX, the exact range for which the index cannot overflow; `IndexFitsIffKeysInRange` says what happens outside.
- Runner.AwaitWorkers: the workers' answers are a parameter; `PollIsAPath` ties a poll to the state of the workers.
- Accounting.FailuresAreAccountedFor: the exceptions of replies; uncaught exceptions go the same way into a counter of their own and are covered by WorkerThread.Worker.PublishStatistics.
- Runner.TreadmillFB303.Resume: does not model the heartbeat update.
