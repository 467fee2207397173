# TaskQueueSet: the PYME multi-queue task dispatcher, in Dafny

This project models `TaskQueueSet` from PYME's distributed task server
(`PYME/ParallelTasks/Loft/taskServerMP.py`). It is the coordinator that
workers talk to. It owns a dictionary of named task queues
(`taskQueues`) and a roster of active workers (`activeWorkers`, whose
positions partition work among workers). It also keeps per-worker
statistics (`numTasksProcByWorker`, `lastTaskByWorker`, `lastTimeByWorker`)
and a global count of results (`numTasksProcessed`). Before any queue is
touched, it decides whether a request for work is served at all. It picks
one queue at random among those with open work. A periodic sweep evicts
workers that have not reported recently.

Modules:

- `Wrappers` (`wrappers.dfy`): `Option`, and `Outcome`/`Result` for the
  Python exceptions the dispatcher lets escape: `KeyError`, `IndexError`,
  and the `RuntimeError` of `createQueue`, here `QueueExists`.
- `MapSums` (`map_sums.dfy`): sums of a dictionary's values in arbitrary
  order. Python's `for q in d.values(): n += ...` has no fixed order.
- `TaskQueue` (`task_queue.dfy`): a value-level stand-in for the queue
  classes (`TaskQueue`, `HDFTaskQueue`, `DSTaskQueue`). Their source is not
  part of this model. A queue has three buckets: open, in progress and
  completed. Tasks are handed out from the front of `open`. Timed-out tasks
  go back to the front of `open`. A result whose task is no longer in
  progress is discarded. The throttled ("non-exact") open count is a
  release policy carried by the queue's kind.
- `Roster` (`roster.dfy`): the worker list. It holds `list.index`,
  `list.remove`, and the eviction loop exactly as Python executes it
  (`SweepFrom`). It also holds the intended eviction (`EvictStale`) and how
  the two relate.
- `Dispatcher` (`dispatcher.dfy`): the class `TaskQueueSet`. Its fields are
  the object's fields. Every state-changing operation is a method with
  `modifies this`; the counting queries only read the object.
  Its `Valid()` invariant says:
  - the roster has no duplicates;
  - the three statistics dictionaries have the same keys;
  - `numTasksProcessed` is the sum of the per-worker counts;
  - every queue is filed under its own name.

Environment inputs are parameters:
- The constructor fixes the server version (`PYME.version.version`), the
  LOCAL-only flag (`PYME_LOCAL_ONLY`), the computer name (`compName`) and
  what `TaskQueue(queueName)` builds.
- Clock readings (`time.time()`) are `now` arguments.
- The random queue choice is Dafny's nondeterministic `:|` over the set of
  queues that qualify.

Python's default arguments (`queueName='Default'`, `workerName='Unspecified'`,
`queueName=None`, `workerVersion=None`, `timeTaken=None`) are explicit
parameters. `None` is `Option.None`.

Where the code departs from the system's intended behaviour, the model follows the code:
- `getTask` applies only the version gate. The LOCAL-only gate is in
  `getTasks` alone (taskServerMP.py:130-133 against 151-157).
- Liveness comes only from reports. `lastTaskByWorker` is written only by
  `returnCompletedTask(s)`, not by a pull. So a worker that pulled but never
  reported is never evicted (`Roster.Stale` is false for it).
- `returnCompletedTasks` files the whole batch with the queue named by the
  first result (taskServerMP.py:194).
- An empty batch raises `IndexError` before anything changes.
- A result naming an unknown queue raises `KeyError` before the counters
  move (taskServerMP.py:181, 194).
- A duplicate or late report is discarded by the queue but still counted.
  The intent is that reporting a result twice counts like reporting it once.
  The code raises `numTasksProcessed` and the worker's count after the
  queue's own call, whether or not the queue kept the result
  (taskServerMP.py:181-186, 194-199). `Dispatcher.DuplicateReport` shows it:
  two reports of one in-progress result leave the queue as after one report
  with one more completed result, but raise both counters by two.

## Model

| member | source | states |
|---|---|---|
| Dispatcher.DuplicateReport | PYME/ParallelTasks/Loft/taskServerMP.py:180-187 | reporting the same in-progress result twice leaves the queue as after one report, with exactly one more completed result, yet raises the global and the worker's count by two |
| Dispatcher.Contains | PYME/ParallelTasks/Loft/taskServerMP.py:155 | `compName in workerName`: containment implies the name is at least as long, and a prefix is always contained (the full characterisation is ContainsIff) |
| Dispatcher.TaskQueueSet.VersionMatches | PYME/ParallelTasks/Loft/taskServerMP.py:130 | the version gate; a worker that sends no version is refused |
| Dispatcher.TaskQueueSet.Admits | PYME/ParallelTasks/Loft/taskServerMP.py:151-157 | both gates of `getTasks`: an admitted worker has the right version, and in LOCAL mode its name is at least as long as the computer name it contains |
| Dispatcher.Aggregate | PYME/ParallelTasks/Loft/taskServerMP.py:225-229 | the `queueName is None` sum of a count over all queues: zero with no queues, and never below any one queue's count (the same sum serves lines 234-238 and 243-247) |
| TaskQueue.PostTask | PYME/ParallelTasks/Loft/taskServerMP.py:118 | the task is appended to the open tasks; name, kind, in-progress and completed tasks are unchanged |
| TaskQueue.PostTasks | PYME/ParallelTasks/Loft/taskServerMP.py:124 | the tasks are appended, in order, to the open tasks; nothing else changes |
| TaskQueue.CheckTimeouts | PYME/ParallelTasks/Loft/taskServerMP.py:216 | a queue's timeout check keeps its name, kind and completed results (its bucket moves are stated by CheckTimeoutsKeepsIds and CheckTimeoutsReclaims) |
| Roster.Stale | PYME/ParallelTasks/Loft/taskServerMP.py:220 | the eviction test; a worker that never reported is never stale |
| Roster.SweepFrom | PYME/ParallelTasks/Loft/taskServerMP.py:219-221 | the loop as Python executes it, from the iterator's position: it never grows the roster and never adds a worker |
| Roster.Sweep | PYME/ParallelTasks/Loft/taskServerMP.py:219-221 | one whole pass of the as-written loop (the as-written member of the Findings row): it never grows the roster and never adds a worker |
| Dispatcher.TaskQueueSet.constructor | PYME/ParallelTasks/Loft/taskServerMP.py:92-100 | no queues, empty roster, zero counters, empty statistics; the object invariant holds |
| Dispatcher.TaskQueueSet.PostTask | PYME/ParallelTasks/Loft/taskServerMP.py:113-118 | the named queue is created (with the default kind) if absent and the task is appended to its open tasks; nothing else changes |
| Dispatcher.TaskQueueSet.PostTasks | PYME/ParallelTasks/Loft/taskServerMP.py:120-124 | as PostTask for a whole list of tasks |
| Dispatcher.PostedRaisesOpen | PYME/ParallelTasks/Loft/taskServerMP.py:113-124 | posting k tasks, to a new or an existing queue, raises the exact total of open tasks by exactly k |
| Dispatcher.TaskQueueSet.Enrol | PYME/ParallelTasks/Loft/taskServerMP.py:139-144 | a served worker is on the roster afterwards, other roster positions are unchanged, no duplicate is created, and the chosen queue has a positive open count |
| Dispatcher.TaskQueueSet.GetTask | PYME/ParallelTasks/Loft/taskServerMP.py:126-146 | a wrong version gets None and changes nothing; otherwise (once some queue has an open task) the worker is registered, the chosen queue has an exact open count > 0, it is asked with the worker's roster position, which is below the roster length passed with it, and a task is returned |
| Dispatcher.TaskQueueSet.GetTasks | PYME/ParallelTasks/Loft/taskServerMP.py:148-178 | a wrong version, or a non-local worker in LOCAL mode, gets [] and changes nothing; a total non-exact open count below 1 gives [] and does not register the worker; otherwise the worker is registered, the chosen queue has a non-exact open count > 0, it is asked with the worker's position and the roster length, and a non-empty batch is returned |
| Dispatcher.TaskQueueSet.Credit | PYME/ParallelTasks/Loft/taskServerMP.py:182-187 | the global and the worker's counter rise by exactly n (the worker's entry is created at 0 if absent), the worker's report time is now, and the total stays the sum of the per-worker counts |
| Dispatcher.TaskQueueSet.ReturnCompletedTask | PYME/ParallelTasks/Loft/taskServerMP.py:180-189 | an unknown queue raises KeyError and changes nothing; otherwise the result is filed with its queue, both counters rise by exactly 1, lastTaskByWorker[w] = now and lastTimeByWorker[w] = timeTaken; the roster is unchanged |
| Dispatcher.TaskQueueSet.ReturnCompletedTasks | PYME/ParallelTasks/Loft/taskServerMP.py:193-205 | an empty batch raises IndexError and an unknown queue KeyError, both with no change; otherwise all results go to the first result's queue, both counters rise by exactly len(taskResult), lastTaskByWorker[w] = now, and lastTimeByWorker[w] is None exactly when timeTaken is None; no other worker's entry changes |
| Dispatcher.TaskQueueSet.GetCompletedTask | PYME/ParallelTasks/Loft/taskServerMP.py:208-212 | an unknown queue name gives None and changes nothing; otherwise the named queue's oldest completed result is taken |
| Dispatcher.TaskQueueSet.CheckTimeouts | PYME/ParallelTasks/Loft/taskServerMP.py:214-221 | every queue runs its timeout check with the queue names unchanged; the roster becomes one as-written sweep of the old roster, so it only loses workers, and every worker it loses was stale; all statistics dictionaries are unchanged |
| Dispatcher.TaskQueueSet.CheckQueueTimeouts | PYME/ParallelTasks/Loft/taskServerMP.py:215-216 | each queue is replaced by its own timeout check, the set of queue names is unchanged |
| Dispatcher.TaskQueueSet.EvictWorkers | PYME/ParallelTasks/Loft/taskServerMP.py:218-221 | the roster after the Python loop equals Roster.Sweep of the old roster: only stale workers are removed, no duplicates appear, queues and statistics are unchanged |
| Dispatcher.TaskQueueSet.SumCounts | PYME/ParallelTasks/Loft/taskServerMP.py:226-229 | the accumulating loop over the queues, in arbitrary order, returns the sum of the count over every queue |
| Dispatcher.TaskQueueSet.GetNumberOpenTasks | PYME/ParallelTasks/Loft/taskServerMP.py:223-231 | with no queue name, the sum of every queue's (exact or non-exact) open count; with a known name, that queue's count; with an unknown name, KeyError |
| Dispatcher.TaskQueueSet.GetNumberTasksInProgress | PYME/ParallelTasks/Loft/taskServerMP.py:233-240 | with no queue name, the sum of every queue's in-progress count; with a known name, that queue's count; with an unknown name, KeyError |
| Dispatcher.TaskQueueSet.GetNumberTasksCompleted | PYME/ParallelTasks/Loft/taskServerMP.py:242-249 | with no queue name, the sum of every queue's completed count; with a known name, that queue's count; with an unknown name, KeyError |
| Dispatcher.TaskQueueSet.Purge | PYME/ParallelTasks/Loft/taskServerMP.py:251-253 | a known queue is purged in place (its name stays); an unknown name changes nothing |
| Dispatcher.TaskQueueSet.RemoveQueue | PYME/ParallelTasks/Loft/taskServerMP.py:255-257 | exactly the named key is deleted; an unknown name raises KeyError and changes nothing |
| Dispatcher.AggregateRemove | PYME/ParallelTasks/Loft/taskServerMP.py:255-257 | removing a queue lowers every aggregate count by exactly that queue's count |
| Dispatcher.TaskQueueSet.CreateQueue | PYME/ParallelTasks/Loft/taskServerMP.py:316-320 | a name already present fails with QueueExists and leaves taskQueues unchanged; otherwise exactly that name is added, holding an empty queue of the given kind |
| Dispatcher.TaskQueueSet.GetNumTasksProcessed | PYME/ParallelTasks/Loft/taskServerMP.py:259-263 | with no worker name, the global count; with a worker that reported, its count, which never exceeds the global count; with an unknown worker, KeyError |
| Dispatcher.AggregatePositive | PYME/ParallelTasks/Loft/taskServerMP.py:136-144 | when the total open count is positive, the list of queues with open tasks is non-empty, so the random index has a queue to pick |
| Dispatcher.AggregateUpdate | PYME/ParallelTasks/Loft/taskServerMP.py:223-249 | replacing one queue changes an aggregate by exactly the difference of that queue's counts |
| Dispatcher.ContainsIff | PYME/ParallelTasks/Loft/taskServerMP.py:155 | the LOCAL gate's `compName in workerName` holds exactly when compName occurs at some position of workerName |
| Roster.Register | PYME/ParallelTasks/Loft/taskServerMP.py:139-140 | the worker is present afterwards, its membership is that of the old roster plus the worker, existing positions are kept, and no duplicate is created |
| Roster.IndexOf | PYME/ParallelTasks/Loft/taskServerMP.py:144 | `list.index`: a position below the length holding the worker, with no earlier occurrence |
| Roster.RemoveFirst | PYME/ParallelTasks/Loft/taskServerMP.py:221 | `list.remove`: the list without its first occurrence of the worker, one shorter |
| Roster.SweepSound | PYME/ParallelTasks/Loft/taskServerMP.py:218-221 | the eviction pass only removes; it keeps every worker that never reported or reported within the timeout; it creates no duplicate |
| Roster.SweepFromShrinks | PYME/ParallelTasks/Loft/taskServerMP.py:219-221 | from any iterator position, the pass keeps the roster duplicate-free, never lengthens it and adds no worker |
| Roster.SweepFromKeeps | PYME/ParallelTasks/Loft/taskServerMP.py:219-221 | from any iterator position, the pass keeps every non-stale worker and every worker already passed |
| Roster.SweepSkipsSuccessor | PYME/ParallelTasks/Loft/taskServerMP.py:219-221 | two neighbouring stale workers: one pass evicts the first and keeps the second |
| Roster.SweepFromProgress | PYME/ParallelTasks/Loft/taskServerMP.py:219-221 | a pass over a roster with a stale worker at or after the iterator strictly shortens the roster |
| Roster.EvictStale | PYME/ParallelTasks/Loft/taskServerMP.py:219-221 | the intended eviction: a member survives exactly when it is on the roster and not stale |
| Roster.SweepsReachEviction | PYME/ParallelTasks/Loft/taskServerMP.py:214-221 | as many passes as there are workers (same clock) leave exactly the workers the intended eviction keeps |
| MapSums.SumRemove | PYME/ParallelTasks/Loft/taskServerMP.py:227-228 | summing the queues in any order gives the same total |
| MapSums.AddTo | PYME/ParallelTasks/Loft/taskServerMP.py:183-186 | `if w not in d: d[w] = 0; d[w] += n`: the worker's entry rises by n, others are unchanged, and the sum of all entries rises by n |
| MapSums.EntryAtMostTotal | PYME/ParallelTasks/Loft/taskServerMP.py:259-263 | no worker's count exceeds the sum of all workers' counts |
| TaskQueue.NumberOpen | PYME/ParallelTasks/Loft/taskServerMP.py:162-166 | the exact count is the number of open tasks; the non-exact count never exceeds it and is positive only when some task is open |
| TaskQueue.GetTask | PYME/ParallelTasks/Loft/taskServerMP.py:144 | the stand-in pull needs index < count; it returns a task exactly when one is open, and it is the front one, now in progress |
| TaskQueue.GetTasks | PYME/ParallelTasks/Loft/taskServerMP.py:174 | the stand-in batch pull needs index < count; it returns as many front tasks as the non-exact count, moved to in progress |
| TaskQueue.GetTaskKeepsIds | PYME/ParallelTasks/Loft/taskServerMP.py:144 | handing out a task loses and duplicates no task id across the three buckets |
| TaskQueue.GetTasksKeepsIds | PYME/ParallelTasks/Loft/taskServerMP.py:174 | handing out a batch loses and duplicates no task id across the three buckets |
| TaskQueue.PostTasksIds | PYME/ParallelTasks/Loft/taskServerMP.py:118-124 | posting adds exactly the posted tasks' ids |
| TaskQueue.PostThenTake | PYME/ParallelTasks/Loft/taskServerMP.py:113-118 | a task posted to a queue with nothing open is the one the next pull receives; a second pull receives nothing |
| TaskQueue.ReturnCompletedTask | PYME/ParallelTasks/Loft/taskServerMP.py:181 | a result whose task is not in progress changes nothing; otherwise it is appended to completed and one in-progress entry goes; no task id is lost or duplicated |
| TaskQueue.ReturnCompletedTasks | PYME/ParallelTasks/Loft/taskServerMP.py:194 | filing a batch keeps the task ids and adds at most len(batch) completed results |
| TaskQueue.ReturnCompletedTaskTwice | PYME/ParallelTasks/Loft/taskServerMP.py:181 | filing the same result twice is the same as filing it once |
| TaskQueue.FindDispatched | PYME/ParallelTasks/Loft/taskServerMP.py:181 | the first in-progress entry for the result's task, or the length when there is none |
| TaskQueue.CheckTimeoutsKeepsIds | PYME/ParallelTasks/Loft/taskServerMP.py:215-216 | a queue's timeout check loses and duplicates no task id |
| TaskQueue.CheckTimeoutsReclaims | PYME/ParallelTasks/Loft/taskServerMP.py:215-216 | after a timeout check nothing timed out is in progress, every timed-out task is open again, ahead of the previously open tasks |
| TaskQueue.TimedOutTaskRequeued | PYME/ParallelTasks/Loft/taskServerMP.py:214-216 | a task handed out and never completed is open exactly once after a timeout check later than its timeout |
| TaskQueue.GetCompletedTask | PYME/ParallelTasks/Loft/taskServerMP.py:212 | nothing, and no change, when no result is completed; otherwise the oldest result, removed from the queue |
| TaskQueue.Purge | PYME/ParallelTasks/Loft/taskServerMP.py:253 | the purged queue holds no task in any bucket and keeps its name and kind |
| TaskQueue.New | PYME/ParallelTasks/Loft/taskServerMP.py:116 | a new queue has the given name and kind and holds no task |

## Findings

| source | as written | input that shows it | evidently intended | confidence | as-written member | corrected member |
|---|---|---|---|---|---|---|
| PYME/ParallelTasks/Loft/taskServerMP.py:219-221 | `for w in self.activeWorkers: ... self.activeWorkers.remove(w)` removes from the list it is iterating over. The iterator's index then passes over the worker that moved into the removed one's place | roster `["a", "b"]`, both last seen before the cutoff: one sweep leaves `["b"]` | every worker seen before the cutoff is evicted in one sweep | not executed; medium (later sweeps eventually remove them, see Roster.SweepsReachEviction; a skipped worker may be skipped again) | Roster.SweepSkipsSuccessor (on Roster.Sweep) | Roster.EvictStale, with Roster.SweepsReachEviction |

`TaskQueueSet.CheckTimeouts` keeps the code's behaviour, because the
dispatcher is modelled as written. `Roster.EvictStale` is the corrected
eviction, and what is proved about it is the intended property.
`Roster.SweepsReachEviction` shows that repeated sweeps of the as-written
loop converge to the corrected result.

## Left out

- Pyro registration, the name server, the daemon and `main()` (taskServerMP.py:329-370): transport plumbing.
- `TaskWatcher` (taskServerMP.py:68-83) and `getTaskLock`: a background thread and locking. The model is sequential, and one `CheckTimeouts(now)` call stands for one wake-up of the thread.
- The busy wait in `getTask` (taskServerMP.py:136-137): blocking. `GetTask` models the step after the wait. Its precondition, for a worker of the right version, is that the total exact open count is at least 1.
- `numpy.random.rand`/`numpy.round` (taskServerMP.py:144, 174): floating-point randomness. It is replaced by a nondeterministic choice among the qualifying queues. Python's expression yields an index uniform over `[0, n)`. The model's `:|` captures the range, not the probabilities.
- `getWorkerFPS` (taskServerMP.py:268-272) and the float value of `timeTaken/len(taskResult)` (taskServerMP.py:205): floats. Times are Dafny `real`, so float rounding and Python 2 integer division are not modelled.
- `Dispatcher.TaskQueueSet.ReturnCompletedTasks`: its contract states only whether `lastTimeByWorker[w]` is `None`, not its numeric value. The body stores the exact real quotient.
- `eval(queueType)` in `createQueue` (taskServerMP.py:320): dynamic code evaluation. `CreateQueue` takes a `QueueKind` (release policy and timeout) in its place. An unknown class name (a `NameError` in Python) cannot occur.
- The queue classes' internal behaviour: their source is not part of this model. Module `TaskQueue` is a stand-in. Concretely:
  - it hands out exactly the non-exact count as a batch;
  - it ignores the worker index and count, which the real queues may use as a locality hint;
  - its `cleanup()` does nothing, so `RemoveQueue` only deletes the key;
  - duplicate task ids on post are not rejected.
- Queues are values in the map, not shared objects. Aliasing of a queue object between the dictionary and other holders is not modelled.
- The metadata, data and event pass-throughs (taskServerMP.py:277-314), `getWorkerNames` and `getQueueNames` (taskServerMP.py:265-266, 274-275): one-line delegations or key listings with no logic of their own.
- `isAlive`/`kill` (taskServerMP.py:106-110): process lifecycle. Note that `isAlive` returns the bound method itself, not a flag.
- The `print` in `getTask` for a refused worker (taskServerMP.py:132) and logging: output only.
- PYME/Acquire/acquire_server.py: microscope hardware, an HTTP long-polling server and image encoding. None of it belongs to the dispatcher.
