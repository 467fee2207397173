/**
 * One named work queue, as the dispatcher sees it.  The queue classes the
 * dispatcher instantiates (TaskQueue, HDFTaskQueue, DSTaskQueue) are not part
 * of this model; this module is a value-level stand-in for them: three buckets
 * (open, in progress, completed), FIFO hand-out from the front of `open`,
 * timeout requeue to the front of `open`, and silent discard of results whose
 * task is no longer in progress.  The throttled ("non-exact") open count is a
 * pluggable release policy carried by the queue's kind.
 */
module TaskQueue {
  import opened Wrappers

  /** A unit of work; the payload is opaque to the dispatcher and left out. */
  datatype Task = Task(taskID: nat, queueID: string)

  /** A worker's answer to a task, routed back by its `queueID`. */
  datatype TaskResult = TaskResult(taskID: nat, queueID: string)

  /** A task handed to a worker at time `since`. */
  datatype Dispatched = Dispatched(task: Task, since: real)

  /**
   * What distinguishes one queue class from another: how many of its `n` open
   * tasks it is prepared to release right now, and its in-progress timeout.
   */
  datatype QueueKind = QueueKind(release: nat -> nat, timeout: real)

  datatype Queue = Queue(
    name: string,
    kind: QueueKind,
    open: seq<Task>,
    inProgress: seq<Dispatched>,
    completed: seq<TaskResult>)

  /** Which of a queue's counts an aggregate query sums. */
  datatype Counter = OpenTasks(exact: bool) | TasksInProgress | TasksCompleted

  function Min(a: nat, b: nat): nat { if a <= b then a else b }

  /** A freshly constructed queue. */
  function New(name: string, kind: QueueKind): (q: Queue)
    ensures q.name == name && q.kind == kind
    ensures Ids(q) == multiset{}
  {
    Queue(name, kind, [], [], [])
  }

  // ---------------------------------------------------------------- task ids

  function TaskIds(ts: seq<Task>): multiset<nat>
  {
    if ts == [] then multiset{} else multiset{ts[0].taskID} + TaskIds(ts[1..])
  }

  function DispatchedIds(ds: seq<Dispatched>): multiset<nat>
  {
    if ds == [] then multiset{} else multiset{ds[0].task.taskID} + DispatchedIds(ds[1..])
  }

  function ResultIds(rs: seq<TaskResult>): multiset<nat>
  {
    if rs == [] then multiset{} else multiset{rs[0].taskID} + ResultIds(rs[1..])
  }

  /** The ids of every task the queue holds, in whichever bucket. */
  function Ids(q: Queue): multiset<nat>
  {
    TaskIds(q.open) + DispatchedIds(q.inProgress) + ResultIds(q.completed)
  }

  lemma {:induction false} TaskIdsConcat(a: seq<Task>, b: seq<Task>)
    ensures TaskIds(a + b) == TaskIds(a) + TaskIds(b)
  {
    if a == [] {
      assert a + b == b;
    } else {
      assert (a + b)[0] == a[0] && (a + b)[1..] == a[1..] + b;
      TaskIdsConcat(a[1..], b);
    }
  }

  lemma {:induction false} DispatchedIdsConcat(a: seq<Dispatched>, b: seq<Dispatched>)
    ensures DispatchedIds(a + b) == DispatchedIds(a) + DispatchedIds(b)
  {
    if a == [] {
      assert a + b == b;
    } else {
      assert (a + b)[0] == a[0] && (a + b)[1..] == a[1..] + b;
      DispatchedIdsConcat(a[1..], b);
    }
  }

  lemma {:induction false} ResultIdsConcat(a: seq<TaskResult>, b: seq<TaskResult>)
    ensures ResultIds(a + b) == ResultIds(a) + ResultIds(b)
  {
    if a == [] {
      assert a + b == b;
    } else {
      assert (a + b)[0] == a[0] && (a + b)[1..] == a[1..] + b;
      ResultIdsConcat(a[1..], b);
    }
  }

  // ------------------------------------------------------------------ counts

  /**
   * The number of open tasks: the true number when `exact`, otherwise the
   * number the queue's release policy is prepared to hand out now.
   */
  function NumberOpen(q: Queue, exact: bool): (n: nat)
    ensures n <= |q.open|
    ensures exact ==> n == |q.open|
    ensures n > 0 ==> |q.open| > 0
  {
    if exact then |q.open| else Min(q.kind.release(|q.open|), |q.open|)
  }

  function Count(q: Queue, c: Counter): nat
  {
    match c
    case OpenTasks(exact) => NumberOpen(q, exact)
    case TasksInProgress => |q.inProgress|
    case TasksCompleted => |q.completed|
  }

  // -------------------------------------------------------------- operations

  function PostTask(q: Queue, t: Task): (q': Queue)
    ensures q'.open == q.open + [t]
    ensures q'.name == q.name && q'.kind == q.kind
    ensures q'.inProgress == q.inProgress && q'.completed == q.completed
  {
    q.(open := q.open + [t])
  }

  function PostTasks(q: Queue, ts: seq<Task>): (q': Queue)
    ensures q'.open == q.open + ts
    ensures q'.name == q.name && q'.kind == q.kind
    ensures q'.inProgress == q.inProgress && q'.completed == q.completed
  {
    q.(open := q.open + ts)
  }

  /** Marks each task as handed out at time `now`. */
  function Dispatch(ts: seq<Task>, now: real): (ds: seq<Dispatched>)
    ensures |ds| == |ts|
    ensures forall i :: 0 <= i < |ts| ==> ds[i] == Dispatched(ts[i], now)
  {
    if ts == [] then [] else [Dispatched(ts[0], now)] + Dispatch(ts[1..], now)
  }

  lemma {:induction false} DispatchIds(ts: seq<Task>, now: real)
    ensures DispatchedIds(Dispatch(ts, now)) == TaskIds(ts)
  {
    if ts != [] {
      DispatchIds(ts[1..], now);
    }
  }

  /**
   * Hands the front open task to the worker at position `index` of `count`
   * active workers, or nothing when no task is open.  `index` and `count` are
   * a locality hint this stand-in ignores.
   */
  function GetTask(q: Queue, index: nat, count: nat, now: real): (r: (Option<Task>, Queue))
    requires index < count
    ensures r.0.Some? <==> |q.open| > 0
    ensures r.0.Some? ==> r.0.value == q.open[0] && r.1.open == q.open[1..]
                          && r.1.inProgress == q.inProgress + [Dispatched(q.open[0], now)]
    ensures r.0.None? ==> r.1 == q
    ensures r.1.name == q.name && r.1.kind == q.kind && r.1.completed == q.completed
  {
    if |q.open| == 0 then (None, q)
    else (Some(q.open[0]), q.(open := q.open[1..], inProgress := q.inProgress + [Dispatched(q.open[0], now)]))
  }

  /** Hands out as many front tasks as the release policy allows. */
  function GetTasks(q: Queue, index: nat, count: nat, now: real): (r: (seq<Task>, Queue))
    requires index < count
    ensures |r.0| == NumberOpen(q, false)
    ensures q.open == r.0 + r.1.open
    ensures r.1.inProgress == q.inProgress + Dispatch(r.0, now)
    ensures r.1.name == q.name && r.1.kind == q.kind && r.1.completed == q.completed
  {
    var k := NumberOpen(q, false);
    assert q.open == q.open[..k] + q.open[k..];
    (q.open[..k], q.(open := q.open[k..], inProgress := q.inProgress + Dispatch(q.open[..k], now)))
  }

  /** The position of the first in-progress entry for task `id`, or |ds| if none. */
  function FindDispatched(ds: seq<Dispatched>, id: nat): (i: nat)
    ensures i <= |ds|
    ensures i < |ds| ==> ds[i].task.taskID == id
    ensures forall j :: 0 <= j < i ==> ds[j].task.taskID != id
  {
    if ds == [] then 0
    else if ds[0].task.taskID == id then 0
    else 1 + FindDispatched(ds[1..], id)
  }

  lemma {:induction false} FindDispatchedAbsent(ds: seq<Dispatched>, id: nat)
    ensures FindDispatched(ds, id) == |ds| <==> id !in DispatchedIds(ds)
  {
    if ds != [] {
      FindDispatchedAbsent(ds[1..], id);
    }
  }

  /** Removes the entry at position i. */
  function Without(ds: seq<Dispatched>, i: nat): (r: seq<Dispatched>)
    requires i < |ds|
    ensures DispatchedIds(r) + multiset{ds[i].task.taskID} == DispatchedIds(ds)
    ensures |r| == |ds| - 1
  {
    assert ds == ds[..i] + [ds[i]] + ds[i + 1..];
    DispatchedIdsConcat(ds[..i] + [ds[i]], ds[i + 1..]);
    DispatchedIdsConcat(ds[..i], [ds[i]]);
    DispatchedIdsConcat(ds[..i], ds[i + 1..]);
    ds[..i] + ds[i + 1..]
  }

  /**
   * Files a result: the in-progress entry for its task moves to `completed`.
   * A result whose task is not in progress (timed out and requeued, already
   * completed, or unknown) is discarded without any change.
   */
  function ReturnCompletedTask(q: Queue, r: TaskResult): (q': Queue)
    ensures r.taskID !in DispatchedIds(q.inProgress) ==> q' == q
    ensures r.taskID in DispatchedIds(q.inProgress) ==>
              q'.completed == q.completed + [r] && |q'.inProgress| == |q.inProgress| - 1
    ensures Ids(q') == Ids(q)
    ensures q'.name == q.name && q'.kind == q.kind && q'.open == q.open
  {
    var i := FindDispatched(q.inProgress, r.taskID);
    FindDispatchedAbsent(q.inProgress, r.taskID);
    if i == |q.inProgress| then q
    else
      ResultIdsConcat(q.completed, [r]);
      q.(inProgress := Without(q.inProgress, i), completed := q.completed + [r])
  }

  /** Files each result in turn. */
  function ReturnCompletedTasks(q: Queue, rs: seq<TaskResult>): (q': Queue)
    ensures Ids(q') == Ids(q)
    ensures |q'.completed| <= |q.completed| + |rs|
    ensures q'.name == q.name && q'.kind == q.kind && q'.open == q.open
    decreases rs
  {
    if rs == [] then q else ReturnCompletedTasks(ReturnCompletedTask(q, rs[0]), rs[1..])
  }

  /** Filing the same result twice is the same as filing it once. */
  lemma ReturnCompletedTaskTwice(q: Queue, r: TaskResult)
    requires DispatchedIds(q.inProgress)[r.taskID] <= 1
    ensures ReturnCompletedTask(ReturnCompletedTask(q, r), r) == ReturnCompletedTask(q, r)
  {
    var i := FindDispatched(q.inProgress, r.taskID);
    FindDispatchedAbsent(q.inProgress, r.taskID);
    if i < |q.inProgress| {
      var rest := Without(q.inProgress, i);
      assert DispatchedIds(rest)[r.taskID] == 0;
    }
  }

  // ----------------------------------------------------------------- timeouts

  predicate TimedOut(d: Dispatched, now: real, timeout: real)
  {
    now - d.since > timeout
  }

  /** The in-progress entries whose timeout has elapsed, in order. */
  function Expired(ds: seq<Dispatched>, now: real, timeout: real): (r: seq<Dispatched>)
    ensures forall d :: d in r <==> d in ds && TimedOut(d, now, timeout)
  {
    if ds == [] then []
    else if TimedOut(ds[0], now, timeout) then [ds[0]] + Expired(ds[1..], now, timeout)
    else Expired(ds[1..], now, timeout)
  }

  /** The in-progress entries still within their timeout, in order. */
  function Pending(ds: seq<Dispatched>, now: real, timeout: real): (r: seq<Dispatched>)
    ensures forall d :: d in r <==> d in ds && !TimedOut(d, now, timeout)
  {
    if ds == [] then []
    else if TimedOut(ds[0], now, timeout) then Pending(ds[1..], now, timeout)
    else [ds[0]] + Pending(ds[1..], now, timeout)
  }

  /** Splitting the in-progress entries loses and duplicates nothing. */
  lemma {:induction false} SplitIds(ds: seq<Dispatched>, now: real, timeout: real)
    ensures DispatchedIds(Expired(ds, now, timeout)) + DispatchedIds(Pending(ds, now, timeout))
            == DispatchedIds(ds)
  {
    if ds != [] {
      var e, p := Expired(ds[1..], now, timeout), Pending(ds[1..], now, timeout);
      SplitIds(ds[1..], now, timeout);
      if TimedOut(ds[0], now, timeout) {
        assert ([ds[0]] + e)[1..] == e;
      } else {
        assert ([ds[0]] + p)[1..] == p;
      }
    }
  }

  /** The tasks of a sequence of in-progress entries. */
  function Undispatch(ds: seq<Dispatched>): (ts: seq<Task>)
    ensures |ts| == |ds|
    ensures forall i :: 0 <= i < |ds| ==> ts[i] == ds[i].task
  {
    if ds == [] then [] else [ds[0].task] + Undispatch(ds[1..])
  }

  lemma {:induction false} UndispatchIds(ds: seq<Dispatched>)
    ensures TaskIds(Undispatch(ds)) == DispatchedIds(ds)
  {
    if ds != [] {
      assert Undispatch(ds)[1..] == Undispatch(ds[1..]);
      UndispatchIds(ds[1..]);
    }
  }

  /**
   * Returns every in-progress task whose timeout has elapsed to the front of
   * `open`; the others stay in progress.
   */
  function CheckTimeouts(q: Queue, now: real): (q': Queue)
    ensures q'.name == q.name && q'.kind == q.kind && q'.completed == q.completed
  {
    var expired := Expired(q.inProgress, now, q.kind.timeout);
    q.(open := Undispatch(expired) + q.open, inProgress := Pending(q.inProgress, now, q.kind.timeout))
  }

  /** A timeout sweep moves tasks between buckets and loses nothing. */
  lemma CheckTimeoutsKeepsIds(q: Queue, now: real)
    ensures Ids(CheckTimeouts(q, now)) == Ids(q)
  {
    var expired := Expired(q.inProgress, now, q.kind.timeout);
    TaskIdsConcat(Undispatch(expired), q.open);
    UndispatchIds(expired);
    SplitIds(q.inProgress, now, q.kind.timeout);
  }

  /**
   * After a timeout sweep nothing timed out is still in progress, every
   * timed-out task is open again, ahead of the tasks that were open before.
   */
  lemma CheckTimeoutsReclaims(q: Queue, now: real)
    ensures var q' := CheckTimeouts(q, now);
      && (forall d :: d in q'.inProgress <==> d in q.inProgress && !TimedOut(d, now, q.kind.timeout))
      && (forall d :: d in q.inProgress && TimedOut(d, now, q.kind.timeout) ==> d.task in q'.open)
      && |q'.open| >= |q.open| && q'.open[|q'.open| - |q.open|..] == q.open
  {
    var expired := Expired(q.inProgress, now, q.kind.timeout);
    var back := Undispatch(expired);
    forall d | d in q.inProgress && TimedOut(d, now, q.kind.timeout)
      ensures d.task in back + q.open
    {
      var i :| 0 <= i < |expired| && expired[i] == d;
      assert (back + q.open)[i] == d.task;
    }
    assert (back + q.open)[|back|..] == q.open;
  }

  // ------------------------------------------------------- completed results

  /** Takes the oldest completed result, if any. */
  function GetCompletedTask(q: Queue): (r: (Option<TaskResult>, Queue))
    ensures r.0.None? <==> q.completed == []
    ensures r.0.None? ==> r.1 == q
    ensures r.0.Some? ==> Ids(r.1) + multiset{r.0.value.taskID} == Ids(q)
                          && [r.0.value] + r.1.completed == q.completed
    ensures r.1.name == q.name && r.1.kind == q.kind
    ensures r.1.open == q.open && r.1.inProgress == q.inProgress
  {
    if q.completed == [] then (None, q)
    else
      assert q.completed == [q.completed[0]] + q.completed[1..];
      (Some(q.completed[0]), q.(completed := q.completed[1..]))
  }

  /** Discards every task in every bucket; the queue itself stays. */
  function Purge(q: Queue): (q': Queue)
    ensures Ids(q') == multiset{}
    ensures q'.name == q.name && q'.kind == q.kind
  {
    q.(open := [], inProgress := [], completed := [])
  }

  // ------------------------------------------------------------------ lemmas

  /** Handing out a task moves it between buckets and loses nothing. */
  lemma GetTaskKeepsIds(q: Queue, index: nat, count: nat, now: real)
    requires index < count
    ensures Ids(GetTask(q, index, count, now).1) == Ids(q)
  {
    if |q.open| > 0 {
      assert q.open == [q.open[0]] + q.open[1..];
      DispatchedIdsConcat(q.inProgress, [Dispatched(q.open[0], now)]);
    }
  }

  /** Handing out a batch moves it between buckets and loses nothing. */
  lemma GetTasksKeepsIds(q: Queue, index: nat, count: nat, now: real)
    requires index < count
    ensures Ids(GetTasks(q, index, count, now).1) == Ids(q)
  {
    var r := GetTasks(q, index, count, now);
    TaskIdsConcat(r.0, r.1.open);
    DispatchedIdsConcat(q.inProgress, Dispatch(r.0, now));
    DispatchIds(r.0, now);
  }

  /** Posting adds exactly the posted tasks' ids. */
  lemma PostTasksIds(q: Queue, ts: seq<Task>)
    ensures Ids(PostTasks(q, ts)) == Ids(q) + TaskIds(ts)
  {
    TaskIdsConcat(q.open, ts);
  }

  /**
   * A task posted to a queue with nothing open is the one the next pull
   * receives, and a second pull receives nothing.
   */
  lemma PostThenTake(q: Queue, t: Task, now: real, later: real)
    requires q.open == []
    ensures GetTask(PostTask(q, t), 0, 1, now).0 == Some(t)
    ensures GetTask(GetTask(PostTask(q, t), 0, 1, now).1, 0, 1, later).0 == None
  {
  }

  /**
   * A task handed out and never completed is back in `open`, exactly once,
   * after a timeout sweep later than its timeout.
   */
  lemma TimedOutTaskRequeued(q: Queue, now: real, later: real)
    requires |q.open| > 0 && TaskIds(q.open)[q.open[0].taskID] == 1
    requires DispatchedIds(q.inProgress)[q.open[0].taskID] == 0
    requires later - now > q.kind.timeout
    ensures var q' := CheckTimeouts(GetTask(q, 0, 1, now).1, later);
            TaskIds(q'.open)[q.open[0].taskID] == 1 && q.open[0].taskID !in DispatchedIds(q'.inProgress)
  {
    var t, id, timeout := q.open[0], q.open[0].taskID, q.kind.timeout;
    var q1 := GetTask(q, 0, 1, now).1;
    var running := q1.inProgress;
    assert running == q.inProgress + [Dispatched(t, now)];
    assert TaskIds(q.open) == multiset{id} + TaskIds(q.open[1..]);
    assert TaskIds(q1.open)[id] == 0;
    DispatchedIdsConcat(q.inProgress, [Dispatched(t, now)]);
    assert DispatchedIds(running)[id] == 1;
    forall d | d in running && d.task.taskID == id
      ensures d.since == now
    {
      if d in q.inProgress {
        DispatchedIdsMember(q.inProgress, d);
      }
    }
    ExpiredPending(running, later, timeout, id, now);
    SplitIds(running, later, timeout);
    var expired := Expired(running, later, timeout);
    assert DispatchedIds(expired)[id] == 1;
    UndispatchIds(expired);
    TaskIdsConcat(Undispatch(expired), q1.open);
  }

  lemma {:induction false} DispatchedIdsMember(ds: seq<Dispatched>, d: Dispatched)
    requires d in ds
    ensures d.task.taskID in DispatchedIds(ds)
  {
    if ds[0] != d {
      DispatchedIdsMember(ds[1..], d);
    }
  }

  /** An id that occurs only on timed-out entries is absent from Pending. */
  lemma {:induction false} ExpiredPending(ds: seq<Dispatched>, now: real, timeout: real, id: nat, since: real)
    requires now - since > timeout
    requires forall d :: d in ds && d.task.taskID == id ==> d.since == since
    ensures id !in DispatchedIds(Pending(ds, now, timeout))
  {
    if ds != [] {
      ExpiredPending(ds[1..], now, timeout, id, since);
    }
  }
}
