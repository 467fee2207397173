/**
 * The multi-queue dispatcher TaskQueueSet: a name-to-queue map, the roster
 * of active workers, per-worker statistics, the admission gates in front of
 * every pull, random choice among queues with open work, and the timeout
 * sweep that evicts stale workers.
 *
 * Environment inputs are parameters: the server's version string, the
 * LOCAL-only flag and the computer name are fixed when the object is built;
 * the clock reading is a `now` argument of each operation that reads it; the
 * random queue choice is Dafny's nondeterministic `:|`.
 */
module Dispatcher {
  import opened Wrappers
  import opened TaskQueue
  import opened Roster
  import MapSums

  /** Python's `p in s` on strings: `p` occurs somewhere in `s`. */
  function Contains(s: string, p: string): bool
    ensures Contains(s, p) ==> |p| <= |s|
    ensures p <= s ==> Contains(s, p)
    decreases |s|
  {
    if |p| > |s| then false
    else if s[..|p|] == p then true
    else Contains(s[1..], p)
  }

  ghost predicate OccursAt(s: string, p: string, i: int)
  {
    0 <= i && i + |p| <= |s| && s[i..i + |p|] == p
  }

  lemma {:induction false} ContainsIff(s: string, p: string)
    ensures Contains(s, p) <==> exists i :: OccursAt(s, p, i)
    decreases |s|
  {
    if |p| > |s| {
    } else if s[..|p|] == p {
      assert OccursAt(s, p, 0);
    } else {
      ContainsIff(s[1..], p);
      if exists i :: OccursAt(s, p, i) {
        var i :| OccursAt(s, p, i);
        assert i != 0;
        assert s[1..][i - 1..i - 1 + |p|] == s[i..i + |p|];
        assert OccursAt(s[1..], p, i - 1);
      }
      if Contains(s[1..], p) {
        var i :| OccursAt(s[1..], p, i);
        assert s[i + 1..i + 1 + |p|] == s[1..][i..i + |p|];
        assert OccursAt(s, p, i + 1);
      }
    }
  }

  // ------------------------------------------------------ queue-map helpers

  /** One count of every queue, keyed by queue name. */
  function Counts(qs: map<string, Queue>, c: Counter): (m: map<string, nat>)
    ensures m.Keys == qs.Keys
    ensures forall name :: name in qs ==> m[name] == Count(qs[name], c)
  {
    map name | name in qs :: Count(qs[name], c)
  }

  /** The sum of one count over every queue. */
  ghost function Aggregate(qs: map<string, Queue>, c: Counter): (n: nat)
    ensures qs == map[] ==> n == 0
    ensures forall name :: name in qs ==> Count(qs[name], c) <= n
  {
    CountsBelowTotal(qs, c);
    MapSums.Total(Counts(qs, c))
  }

  /** No single queue's count exceeds the sum over all queues. */
  lemma CountsBelowTotal(qs: map<string, Queue>, c: Counter)
    ensures forall name :: name in qs ==> Count(qs[name], c) <= MapSums.Total(Counts(qs, c))
  {
    forall name | name in qs ensures Count(qs[name], c) <= MapSums.Total(Counts(qs, c)) {
      MapSums.EntryAtMostTotal(Counts(qs, c), name);
    }
  }

  /** The map after `postTask`'s lazy creation of a missing queue. */
  function Ensure(qs: map<string, Queue>, name: string, kind: QueueKind): (r: map<string, Queue>)
    ensures r.Keys == qs.Keys + {name}
    ensures forall k :: k in qs ==> r[k] == qs[k]
    ensures name !in qs ==> r[name] == TaskQueue.New(name, kind)
  {
    if name in qs then qs else qs[name := TaskQueue.New(name, kind)]
  }

  /** The map after posting `ts` to queue `name`, creating it if absent. */
  function Posted(qs: map<string, Queue>, name: string, kind: QueueKind, ts: seq<Task>): (r: map<string, Queue>)
    ensures r.Keys == qs.Keys + {name}
    ensures forall k :: k in qs && k != name ==> r[k] == qs[k]
  {
    var qs' := Ensure(qs, name, kind);
    qs'[name := TaskQueue.PostTasks(qs'[name], ts)]
  }

  /** A positive total count has a queue with a positive count. */
  lemma AggregatePositive(qs: map<string, Queue>, c: Counter)
    requires Aggregate(qs, c) > 0
    ensures exists name :: name in qs && Count(qs[name], c) > 0
  {
    var m := Counts(qs, c);
    MapSums.SumPositive(m, m.Keys);
    var name :| name in m && m[name] > 0;
    assert name in qs && Count(qs[name], c) > 0;
  }

  /** Replacing one queue changes the total by the difference of its counts. */
  lemma AggregateUpdate(qs: map<string, Queue>, name: string, q: Queue, c: Counter)
    ensures Aggregate(qs[name := q], c)
            == Aggregate(qs, c) - (if name in qs then Count(qs[name], c) else 0) + Count(q, c)
  {
    var m, m' := Counts(qs, c), Counts(qs[name := q], c);
    var rest := m.Keys - {name};
    assert m'.Keys - {name} == rest;
    MapSums.SumRemove(m', m'.Keys, name);
    MapSums.SumAgree(m, m', rest);
    if name in qs {
      MapSums.SumRemove(m, m.Keys, name);
    } else {
      assert m.Keys == rest;
    }
  }

  /** Removing a queue lowers the total by exactly its count. */
  lemma AggregateRemove(qs: map<string, Queue>, name: string, c: Counter)
    requires name in qs
    ensures Aggregate(qs - {name}, c) == Aggregate(qs, c) - Count(qs[name], c)
  {
    var m := Counts(qs, c);
    MapSums.RemoveEntry(m, name);
    assert Counts(qs - {name}, c) == m - {name};
  }

  /** Posting `ts` to any queue, new or existing, adds |ts| open tasks in all. */
  lemma PostedRaisesOpen(qs: map<string, Queue>, name: string, kind: QueueKind, ts: seq<Task>)
    ensures Aggregate(Posted(qs, name, kind, ts), OpenTasks(true)) == Aggregate(qs, OpenTasks(true)) + |ts|
  {
    var c := OpenTasks(true);
    var qs' := Ensure(qs, name, kind);
    AggregateUpdate(qs', name, TaskQueue.PostTasks(qs'[name], ts), c);
    if name !in qs {
      AggregateUpdate(qs, name, TaskQueue.New(name, kind), c);
    }
  }

  // ------------------------------------------------------------- the class

  const ActiveTimeout: real := 60.0

  class TaskQueueSet {
    /** The server's own version; a worker with another version is refused. */
    const version: string
    /** LOCAL-only mode: serve `getTasks` only to workers running on this computer. */
    const local: bool
    /** This computer's name. */
    const compName: string
    /** What `TaskQueue(queueName)` builds when a post names a missing queue. */
    const defaultKind: QueueKind

    var taskQueues: map<string, Queue>
    var numTasksProcessed: nat
    var numTasksProcByWorker: map<string, nat>
    var lastTaskByWorker: map<string, real>
    var lastTimeByWorker: map<string, Option<real>>
    var activeWorkers: seq<string>

    /**
     * No worker is on the roster twice; the three statistics dictionaries
     * are written together so they have the same workers; the global counter
     * is the sum of the per-worker counters; every queue is filed under its
     * own name.
     */
    ghost predicate Valid()
      reads this
    {
      && NoDuplicates(activeWorkers)
      && numTasksProcByWorker.Keys == lastTaskByWorker.Keys == lastTimeByWorker.Keys
      && numTasksProcessed == MapSums.Total(numTasksProcByWorker)
      && (forall name :: name in taskQueues ==> taskQueues[name].name == name)
    }

    constructor (version: string, local: bool, compName: string, defaultKind: QueueKind)
      ensures Valid()
      ensures this.version == version && this.local == local
      ensures this.compName == compName && this.defaultKind == defaultKind
      ensures taskQueues == map[] && activeWorkers == []
      ensures numTasksProcessed == 0 && numTasksProcByWorker == map[]
      ensures lastTaskByWorker == map[] && lastTimeByWorker == map[]
    {
      this.version := version;
      this.local := local;
      this.compName := compName;
      this.defaultKind := defaultKind;
      taskQueues := map[];
      numTasksProcessed := 0;
      numTasksProcByWorker := map[];
      lastTaskByWorker := map[];
      lastTimeByWorker := map[];
      activeWorkers := [];
    }

    /** The version gate of both pulls. */
    predicate VersionMatches(workerVersion: Option<string>)
      ensures workerVersion.None? ==> !VersionMatches(workerVersion)
    {
      workerVersion == Some(version)
    }

    /** Both gates of `getTasks`: the version, and in LOCAL mode the computer name. */
    predicate Admits(workerName: string, workerVersion: Option<string>)
      ensures Admits(workerName, workerVersion) ==> VersionMatches(workerVersion)
      ensures local && Admits(workerName, workerVersion) ==> |compName| <= |workerName|
    {
      VersionMatches(workerVersion) && (!local || Contains(workerName, compName))
    }

    /** Statistics and roster are as they were. */
    twostate predicate StatsUnchanged()
      reads this
    {
      && numTasksProcessed == old(numTasksProcessed)
      && numTasksProcByWorker == old(numTasksProcByWorker)
      && lastTaskByWorker == old(lastTaskByWorker)
      && lastTimeByWorker == old(lastTimeByWorker)
    }

    // ---------------------------------------------------------- posting

    method PostTask(task: Task, queueName: string)
      requires Valid()
      modifies this
      ensures Valid()
      ensures taskQueues == Posted(old(taskQueues), queueName, defaultKind, [task])
      ensures activeWorkers == old(activeWorkers) && StatsUnchanged()
    {
      if queueName !in taskQueues {
        taskQueues := taskQueues[queueName := TaskQueue.New(queueName, defaultKind)];
      }
      taskQueues := taskQueues[queueName := TaskQueue.PostTask(taskQueues[queueName], task)];
    }

    method PostTasks(tasks: seq<Task>, queueName: string)
      requires Valid()
      modifies this
      ensures Valid()
      ensures taskQueues == Posted(old(taskQueues), queueName, defaultKind, tasks)
      ensures activeWorkers == old(activeWorkers) && StatsUnchanged()
    {
      if queueName !in taskQueues {
        taskQueues := taskQueues[queueName := TaskQueue.New(queueName, defaultKind)];
      }
      taskQueues := taskQueues[queueName := TaskQueue.PostTasks(taskQueues[queueName], tasks)];
    }

    // ---------------------------------------------------------- pulling

    /**
     * What both pulls do once they serve a request: put the worker on the
     * roster if it is new, and pick at random one of the queues whose open
     * count (exact or not) is positive.
     */
    method Enrol(workerName: string, exact: bool) returns (name: string)
      requires Valid()
      requires Aggregate(taskQueues, OpenTasks(exact)) >= 1
      modifies this
      ensures Valid()
      ensures activeWorkers == Register(old(activeWorkers), workerName)
      ensures name in taskQueues && NumberOpen(taskQueues[name], exact) > 0
      ensures taskQueues == old(taskQueues) && StatsUnchanged()
    {
      AggregatePositive(taskQueues, OpenTasks(exact));
      if workerName !in activeWorkers {
        activeWorkers := activeWorkers + [workerName];
      }
      var queuesWithOpenTasks := set name | name in taskQueues && NumberOpen(taskQueues[name], exact) > 0;
      var some :| some in taskQueues && Count(taskQueues[some], OpenTasks(exact)) > 0;
      assert some in queuesWithOpenTasks;
      name :| name in queuesWithOpenTasks;
    }

    /**
     * The step of the blocking `getTask` after its wait: the precondition
     * says the wait has ended, i.e. some queue has an open task.  A worker
     * with the wrong version gets nothing and changes nothing.  Otherwise the
     * worker is on the roster afterwards, the chosen queue is one with open
     * tasks, and that queue hands out its task given the worker's position
     * in the roster and the roster's length.
     */
    method GetTask(workerName: string, workerVersion: Option<string>, now: real)
      returns (res: Option<Task>, ghost chosen: Option<string>)
      requires Valid()
      requires VersionMatches(workerVersion) ==> Aggregate(taskQueues, OpenTasks(true)) >= 1
      modifies this
      ensures Valid()
      ensures !VersionMatches(workerVersion) ==> res == None && chosen == None && unchanged(this)
      ensures VersionMatches(workerVersion) ==>
        && activeWorkers == Register(old(activeWorkers), workerName)
        && chosen.Some? && chosen.value in old(taskQueues)
        && NumberOpen(old(taskQueues)[chosen.value], true) > 0
        && (var taken := TaskQueue.GetTask(old(taskQueues)[chosen.value],
                                          IndexOf(activeWorkers, workerName), |activeWorkers|, now);
           res == taken.0 && taskQueues == old(taskQueues)[chosen.value := taken.1])
        && res.Some?
      ensures StatsUnchanged()
    {
      if workerVersion != Some(version) {
        return None, None;
      }
      var name := Enrol(workerName, true);
      var taken := TaskQueue.GetTask(taskQueues[name], IndexOf(activeWorkers, workerName), |activeWorkers|, now);
      taskQueues := taskQueues[name := taken.1];
      res, chosen := taken.0, Some(name);
    }

    /**
     * The non-blocking pull.  A worker refused by either gate gets nothing
     * and changes nothing; so does every worker while the queues together
     * are prepared to release nothing.  Otherwise the worker is on the
     * roster afterwards, the chosen queue is one prepared to release tasks,
     * and its batch is returned.
     */
    method GetTasks(workerName: string, workerVersion: Option<string>, now: real)
      returns (res: seq<Task>, ghost chosen: Option<string>)
      requires Valid()
      modifies this
      ensures Valid()
      ensures !Admits(workerName, workerVersion) ==> res == [] && chosen == None && unchanged(this)
      ensures Admits(workerName, workerVersion) && old(Aggregate(taskQueues, OpenTasks(false))) < 1 ==>
        res == [] && chosen == None && unchanged(this)
      ensures Admits(workerName, workerVersion) && old(Aggregate(taskQueues, OpenTasks(false))) >= 1 ==>
        && activeWorkers == Register(old(activeWorkers), workerName)
        && chosen.Some? && chosen.value in old(taskQueues)
        && NumberOpen(old(taskQueues)[chosen.value], false) > 0
        && (var taken := TaskQueue.GetTasks(old(taskQueues)[chosen.value],
                                           IndexOf(activeWorkers, workerName), |activeWorkers|, now);
           res == taken.0 && taskQueues == old(taskQueues)[chosen.value := taken.1])
        && res != []
      ensures StatsUnchanged()
    {
      if workerVersion != Some(version) {
        return [], None;
      }
      if local && !Contains(workerName, compName) {
        return [], None;
      }
      var total := GetNumberOpenTasks(None, false);
      if total.value < 1 {
        return [], None;
      }
      var name := Enrol(workerName, false);
      var taken := TaskQueue.GetTasks(taskQueues[name], IndexOf(activeWorkers, workerName), |activeWorkers|, now);
      taskQueues := taskQueues[name := taken.1];
      res, chosen := taken.0, Some(name);
    }

    // -------------------------------------------------------- reporting

    /**
     * The bookkeeping both reports share: `n` more results overall and for
     * the worker, reported at `now`, with measured time `measured`.
     */
    method Credit(workerName: string, n: nat, now: real, measured: Option<real>)
      requires Valid()
      modifies this
      ensures Valid()
      ensures numTasksProcessed == old(numTasksProcessed) + n
      ensures numTasksProcByWorker == MapSums.AddTo(old(numTasksProcByWorker), workerName, n)
      ensures lastTaskByWorker == old(lastTaskByWorker)[workerName := now]
      ensures lastTimeByWorker == old(lastTimeByWorker)[workerName := measured]
      ensures taskQueues == old(taskQueues) && activeWorkers == old(activeWorkers)
    {
      numTasksProcessed := numTasksProcessed + n;
      numTasksProcByWorker := MapSums.AddTo(numTasksProcByWorker, workerName, n);
      lastTaskByWorker := lastTaskByWorker[workerName := now];
      lastTimeByWorker := lastTimeByWorker[workerName := measured];
    }

    /**
     * Files one result with the queue it names and credits the worker: the
     * global and per-worker counters rise by exactly one, the report time is
     * `now`, the measured time is `timeTaken`.  A result naming a missing
     * queue raises KeyError before anything changes.
     */
    method ReturnCompletedTask(taskResult: TaskResult, workerName: string, timeTaken: Option<real>, now: real)
      returns (out: Outcome)
      requires Valid()
      modifies this
      ensures Valid()
      ensures taskResult.queueID !in old(taskQueues) ==> out == Fail(KeyError) && unchanged(this)
      ensures taskResult.queueID in old(taskQueues) ==>
        && out == Done
        && taskQueues == old(taskQueues)[taskResult.queueID :=
                           TaskQueue.ReturnCompletedTask(old(taskQueues)[taskResult.queueID], taskResult)]
        && numTasksProcessed == old(numTasksProcessed) + 1
        && numTasksProcByWorker == MapSums.AddTo(old(numTasksProcByWorker), workerName, 1)
        && lastTaskByWorker == old(lastTaskByWorker)[workerName := now]
        && lastTimeByWorker == old(lastTimeByWorker)[workerName := timeTaken]
      ensures activeWorkers == old(activeWorkers)
    {
      var qid := taskResult.queueID;
      if qid !in taskQueues {
        return Fail(KeyError);
      }
      taskQueues := taskQueues[qid := TaskQueue.ReturnCompletedTask(taskQueues[qid], taskResult)];
      Credit(workerName, 1, now, timeTaken);
      out := Done;
    }

    /**
     * Files a batch of results, all with the queue the first one names, and
     * credits the worker with the whole batch.  The measured time becomes
     * unknown when `timeTaken` is, and the per-task average otherwise.  An
     * empty batch raises IndexError and a missing queue KeyError, both before
     * anything changes.
     */
    method ReturnCompletedTasks(taskResult: seq<TaskResult>, workerName: string, timeTaken: Option<real>, now: real)
      returns (out: Outcome)
      requires Valid()
      modifies this
      ensures Valid()
      ensures taskResult == [] ==> out == Fail(IndexError) && unchanged(this)
      ensures taskResult != [] && taskResult[0].queueID !in old(taskQueues) ==>
        out == Fail(KeyError) && unchanged(this)
      ensures taskResult != [] && taskResult[0].queueID in old(taskQueues) ==>
        && out == Done
        && taskQueues == old(taskQueues)[taskResult[0].queueID :=
                           TaskQueue.ReturnCompletedTasks(old(taskQueues)[taskResult[0].queueID], taskResult)]
        && numTasksProcessed == old(numTasksProcessed) + |taskResult|
        && numTasksProcByWorker == MapSums.AddTo(old(numTasksProcByWorker), workerName, |taskResult|)
        && lastTaskByWorker == old(lastTaskByWorker)[workerName := now]
        && workerName in lastTimeByWorker
        && (lastTimeByWorker[workerName].None? <==> timeTaken.None?)
        && lastTimeByWorker == old(lastTimeByWorker)[workerName := lastTimeByWorker[workerName]]
      ensures activeWorkers == old(activeWorkers)
    {
      if taskResult == [] {
        return Fail(IndexError);
      }
      var qid := taskResult[0].queueID;
      if qid !in taskQueues {
        return Fail(KeyError);
      }
      taskQueues := taskQueues[qid := TaskQueue.ReturnCompletedTasks(taskQueues[qid], taskResult)];
      var perTask := if timeTaken.None? then None else Some(timeTaken.value / (|taskResult| as real));
      Credit(workerName, |taskResult|, now, perTask);
      out := Done;
    }

    // ------------------------------------------------- lookup and sweep

    /** The oldest completed result of a queue; nothing, and no change, for an unknown name. */
    method GetCompletedTask(queueName: string) returns (res: Option<TaskResult>)
      requires Valid()
      modifies this
      ensures Valid()
      ensures queueName !in old(taskQueues) ==> res == None && unchanged(this)
      ensures queueName in old(taskQueues) ==>
        var taken := TaskQueue.GetCompletedTask(old(taskQueues)[queueName]);
        res == taken.0 && taskQueues == old(taskQueues)[queueName := taken.1]
      ensures activeWorkers == old(activeWorkers) && StatsUnchanged()
    {
      if queueName !in taskQueues {
        return None;
      }
      var taken := TaskQueue.GetCompletedTask(taskQueues[queueName]);
      taskQueues := taskQueues[queueName := taken.1];
      res := taken.0;
    }

    /**
     * The timeout sweep: every queue's own timeout check, then one pass of
     * the eviction loop exactly as Python executes it (see Roster.SweepFrom).
     * The queue names and every statistics dictionary are left as they were.
     */
    method CheckTimeouts(now: real)
      requires Valid()
      modifies this
      ensures Valid()
      ensures taskQueues.Keys == old(taskQueues).Keys
      ensures forall name :: name in taskQueues ==>
                taskQueues[name] == TaskQueue.CheckTimeouts(old(taskQueues)[name], now)
      ensures activeWorkers == Sweep(old(activeWorkers), lastTaskByWorker, now - ActiveTimeout)
      ensures forall w :: w in activeWorkers ==> w in old(activeWorkers)
      ensures forall w :: w in old(activeWorkers) && w !in activeWorkers ==>
                Stale(lastTaskByWorker, now - ActiveTimeout, w)
      ensures StatsUnchanged()
    {
      CheckQueueTimeouts(now);
      EvictWorkers(now - ActiveTimeout);
    }

    /** `for q in self.taskQueues.values(): q.checkTimeouts()` */
    method CheckQueueTimeouts(now: real)
      requires Valid()
      modifies this
      ensures Valid()
      ensures taskQueues.Keys == old(taskQueues).Keys
      ensures forall name :: name in taskQueues ==>
                taskQueues[name] == TaskQueue.CheckTimeouts(old(taskQueues)[name], now)
      ensures activeWorkers == old(activeWorkers) && StatsUnchanged()
    {
      var pending := taskQueues.Keys;
      while pending != {}
        invariant pending <= taskQueues.Keys == old(taskQueues).Keys
        invariant forall name :: name in pending ==> taskQueues[name] == old(taskQueues)[name]
        invariant forall name :: name in taskQueues && name !in pending ==>
                    taskQueues[name] == TaskQueue.CheckTimeouts(old(taskQueues)[name], now)
        invariant forall name :: name in taskQueues ==> taskQueues[name].name == name
        invariant activeWorkers == old(activeWorkers) && StatsUnchanged()
        decreases pending
      {
        var name :| name in pending;
        var q := TaskQueue.CheckTimeouts(taskQueues[name], now);
        assert q.name == name;
        taskQueues := taskQueues[name := q];
        pending := pending - {name};
      }
    }

    /**
     * `for w in self.activeWorkers: if <stale>: self.activeWorkers.remove(w)`:
     * the iterator is a position in the live list, so it passes over the
     * worker that moves into a removed worker's place.
     */
    method EvictWorkers(cutoff: real)
      requires Valid()
      modifies this
      ensures Valid()
      ensures activeWorkers == Sweep(old(activeWorkers), lastTaskByWorker, cutoff)
      ensures forall w :: w in activeWorkers ==> w in old(activeWorkers)
      ensures forall w :: w in old(activeWorkers) && w !in activeWorkers ==> Stale(lastTaskByWorker, cutoff, w)
      ensures taskQueues == old(taskQueues) && StatsUnchanged()
    {
      SweepSound(activeWorkers, lastTaskByWorker, cutoff);
      var i := 0;
      while i < |activeWorkers|
        invariant NoDuplicates(activeWorkers)
        invariant SweepFrom(activeWorkers, i, lastTaskByWorker, cutoff)
                  == Sweep(old(activeWorkers), lastTaskByWorker, cutoff)
        invariant taskQueues == old(taskQueues) && StatsUnchanged()
        decreases |activeWorkers| - i
      {
        var w := activeWorkers[i];
        i := i + 1;
        if w in lastTaskByWorker && lastTaskByWorker[w] < cutoff {
          RemoveAt(activeWorkers, i - 1);
          activeWorkers := RemoveFirst(activeWorkers, w);
        }
      }
    }

    // ------------------------------------------------ aggregate counts

    /** Adds up one count over every queue, in the map's arbitrary order. */
    method SumCounts(c: Counter) returns (n: nat)
      ensures n == Aggregate(taskQueues, c)
    {
      ghost var counts := Counts(taskQueues, c);
      var pending := taskQueues.Keys;
      n := 0;
      while pending != {}
        invariant pending <= counts.Keys
        invariant n + MapSums.Sum(counts, pending) == MapSums.Total(counts)
        decreases pending
      {
        var name :| name in pending;
        MapSums.SumRemove(counts, pending, name);
        n := n + Count(taskQueues[name], c);
        pending := pending - {name};
      }
    }

    /** The open count of one queue (KeyError if unknown), or of all queues together. */
    method GetNumberOpenTasks(queueName: Option<string>, exact: bool) returns (r: Result<nat>)
      ensures queueName.None? ==> r == Ok(Aggregate(taskQueues, OpenTasks(exact)))
      ensures queueName.Some? && queueName.value in taskQueues ==>
                r == Ok(NumberOpen(taskQueues[queueName.value], exact))
      ensures queueName.Some? && queueName.value !in taskQueues ==> r == Err(KeyError)
    {
      if queueName.None? {
        var n := SumCounts(OpenTasks(exact));
        return Ok(n);
      }
      if queueName.value !in taskQueues {
        return Err(KeyError);
      }
      return Ok(NumberOpen(taskQueues[queueName.value], exact));
    }

    /** The in-progress count of one queue (KeyError if unknown), or of all queues together. */
    method GetNumberTasksInProgress(queueName: Option<string>) returns (r: Result<nat>)
      ensures queueName.None? ==> r == Ok(Aggregate(taskQueues, TasksInProgress))
      ensures queueName.Some? && queueName.value in taskQueues ==>
                r == Ok(|taskQueues[queueName.value].inProgress|)
      ensures queueName.Some? && queueName.value !in taskQueues ==> r == Err(KeyError)
    {
      if queueName.None? {
        var n := SumCounts(TasksInProgress);
        return Ok(n);
      }
      if queueName.value !in taskQueues {
        return Err(KeyError);
      }
      return Ok(|taskQueues[queueName.value].inProgress|);
    }

    /** The completed count of one queue (KeyError if unknown), or of all queues together. */
    method GetNumberTasksCompleted(queueName: Option<string>) returns (r: Result<nat>)
      ensures queueName.None? ==> r == Ok(Aggregate(taskQueues, TasksCompleted))
      ensures queueName.Some? && queueName.value in taskQueues ==>
                r == Ok(|taskQueues[queueName.value].completed|)
      ensures queueName.Some? && queueName.value !in taskQueues ==> r == Err(KeyError)
    {
      if queueName.None? {
        var n := SumCounts(TasksCompleted);
        return Ok(n);
      }
      if queueName.value !in taskQueues {
        return Err(KeyError);
      }
      return Ok(|taskQueues[queueName.value].completed|);
    }

    // ------------------------------------------------- queue lifecycle

    /** Empties a queue's buckets; an unknown name is ignored. */
    method Purge(queueName: string)
      requires Valid()
      modifies this
      ensures Valid()
      ensures queueName in old(taskQueues) ==>
                taskQueues == old(taskQueues)[queueName := TaskQueue.Purge(old(taskQueues)[queueName])]
      ensures queueName !in old(taskQueues) ==> unchanged(this)
      ensures activeWorkers == old(activeWorkers) && StatsUnchanged()
    {
      if queueName in taskQueues {
        taskQueues := taskQueues[queueName := TaskQueue.Purge(taskQueues[queueName])];
      }
    }

    /** Deletes exactly the named queue; KeyError, and no change, if it is unknown. */
    method RemoveQueue(queueName: string) returns (out: Outcome)
      requires Valid()
      modifies this
      ensures Valid()
      ensures queueName in old(taskQueues) ==> out == Done && taskQueues == old(taskQueues) - {queueName}
      ensures queueName !in old(taskQueues) ==> out == Fail(KeyError) && unchanged(this)
      ensures activeWorkers == old(activeWorkers) && StatsUnchanged()
    {
      if queueName !in taskQueues {
        return Fail(KeyError);
      }
      taskQueues := taskQueues - {queueName};
      out := Done;
    }

    /** Creates an empty queue of `kind`; a name already taken fails and changes nothing. */
    method CreateQueue(kind: QueueKind, queueName: string) returns (out: Outcome)
      requires Valid()
      modifies this
      ensures Valid()
      ensures queueName in old(taskQueues) ==> out == Fail(QueueExists) && unchanged(this)
      ensures queueName !in old(taskQueues) ==>
                out == Done && taskQueues == old(taskQueues)[queueName := TaskQueue.New(queueName, kind)]
      ensures activeWorkers == old(activeWorkers) && StatsUnchanged()
    {
      if queueName in taskQueues {
        return Fail(QueueExists);
      }
      taskQueues := taskQueues[queueName := TaskQueue.New(queueName, kind)];
      out := Done;
    }

    // ------------------------------------------------------ statistics

    /**
     * The number of results filed overall, or by one worker (KeyError for a
     * worker that never reported); a worker's count never exceeds the total.
     */
    method GetNumTasksProcessed(workerName: Option<string>) returns (r: Result<nat>)
      requires Valid()
      ensures workerName.None? ==> r == Ok(numTasksProcessed)
      ensures workerName.Some? && workerName.value in numTasksProcByWorker ==>
                r == Ok(numTasksProcByWorker[workerName.value]) && r.value <= numTasksProcessed
      ensures workerName.Some? && workerName.value !in numTasksProcByWorker ==> r == Err(KeyError)
    {
      if workerName.None? {
        return Ok(numTasksProcessed);
      }
      if workerName.value !in numTasksProcByWorker {
        return Err(KeyError);
      }
      MapSums.EntryAtMostTotal(numTasksProcByWorker, workerName.value);
      return Ok(numTasksProcByWorker[workerName.value]);
    }
  }

  /**
   * The same result reported twice.  The queue discards the duplicate, so
   * the queue ends as after one report, with one more completed result when
   * the task was in progress; but the counters are credited on every call,
   * so both the global and the worker's count rise by two.
   */
  method DuplicateReport(s: TaskQueueSet, r: TaskResult, workerName: string, now: real)
    requires s.Valid()
    requires r.queueID in s.taskQueues
    requires DispatchedIds(s.taskQueues[r.queueID].inProgress)[r.taskID] <= 1
    modifies s
    ensures s.Valid()
    ensures s.taskQueues == old(s.taskQueues)[r.queueID :=
              TaskQueue.ReturnCompletedTask(old(s.taskQueues)[r.queueID], r)]
    ensures r.taskID in DispatchedIds(old(s.taskQueues)[r.queueID].inProgress) ==>
              |s.taskQueues[r.queueID].completed| == |old(s.taskQueues)[r.queueID].completed| + 1
    ensures s.numTasksProcessed == old(s.numTasksProcessed) + 2
    ensures workerName in s.numTasksProcByWorker && s.numTasksProcByWorker[workerName] ==
              (if workerName in old(s.numTasksProcByWorker) then old(s.numTasksProcByWorker)[workerName] else 0) + 2
  {
    var first := s.ReturnCompletedTask(r, workerName, None, now);
    var second := s.ReturnCompletedTask(r, workerName, None, now);
    TaskQueue.ReturnCompletedTaskTwice(old(s.taskQueues)[r.queueID], r);
  }
}
