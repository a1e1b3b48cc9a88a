/** The admission-control state machine of `TaskQueue`.

    Every transition of cwait's queue runs to completion and reads only
    integers and the backlog, so each is a pure function from one queue
    record to the next. The wall clock is the explicit `now`; calling
    `setTimeout`/`clearTimeout` and resuming a task are returned as an
    `Action` for the caller (see the Traces module) to carry out.
 */
module TaskQueue {
  import opened Tasks
  import opened Backlog

  /** `timerStamp == 0` means that no wake-up timer is armed. */
  datatype Queue<V, E> = Queue(
    concurrency: int,
    busyCount: int,
    backlog: seq<Task<V, E>>,
    timerStamp: int
  )

  /** A new queue: no task running, none waiting, no timer. */
  function NewQueue<V, E>(concurrency: int): (q: Queue<V, E>)
    ensures q.concurrency == concurrency
    ensures q.busyCount == 0 && |q.backlog| == 0 && q.timerStamp == 0
  {
    Queue(concurrency, 0, [], 0)
  }

  /** How `add` answered its caller. */
  datatype Admission<V, E> =
    | Immediate(run: Settlement<V, E>)                // the work started now; this is its own promise
    | Deferred(task: Task<V, E>, promise: PromiseId)  // the task waits; `promise` is `task.delay()`

  datatype AddResult<V, E> = AddResult(queue: Queue<V, E>, admission: Admission<V, E>)

  /** `add(func, delay)`, called at time `now`; `id` is the identity the new
      task (and its outward promise) will have. */
  function Add<V, E>(q: Queue<V, E>, id: nat, call: Call<V, E>, delay: int, now: int): (r: AddResult<V, E>)
    ensures r.queue.concurrency == q.concurrency
    // the work starts at once exactly when a slot is free and no delay is asked
    ensures r.admission.Immediate? <==> q.busyCount < q.concurrency && delay == 0
    ensures r.admission.Immediate? ==>
      && r.queue.busyCount == q.busyCount + 1
      && r.queue.backlog == q.backlog
      && r.queue.timerStamp == q.timerStamp
    // on the immediate path the caller gets the work's own outcome, and the
    // slot is released once (`onFinish`); nothing is forwarded anywhere
    ensures r.admission.Immediate? ==>
      && r.admission.run.promise == (if call.Throws? then Err(call.thrown) else call.settlesAs)
      && FinishCount(r.admission.run.effects) == 1
      && forall p: PromiseId :: DeliveredTo(r.admission.run.effects, p).None?
    // otherwise exactly one task, stamped `now + delay`, joins the backlog
    ensures r.admission.Deferred? ==>
      && r.queue.busyCount == q.busyCount
      && r.queue.timerStamp == q.timerStamp
      && r.queue.backlog == Insert(q.backlog, r.admission.task)
      && r.admission.task.id == id
      && r.admission.task.call == call
      && r.admission.task.stamp == now + delay
      // its outward promise exists before it can ever be resumed
      && r.admission.task.deferred == Some(r.admission.promise)
    // the concurrency bound is kept
    ensures 0 <= q.busyCount <= q.concurrency ==> 0 <= r.queue.busyCount <= r.queue.concurrency
  {
    if q.busyCount < q.concurrency && delay == 0 then
      AddResult(q.(busyCount := q.busyCount + 1), Immediate(TryFinally(call, None)))
    else
      var d := Delay(NewTask(id, call, now + delay), id);
      AddResult(q.(backlog := Insert(q.backlog, d.task)), Deferred(d.task, d.promise))
  }

  /** What `next` asks its caller to do. */
  datatype Action<V, E> =
    | Idle
    | Start(task: Task<V, E>, run: Settlement<V, E>)      // `task.resume(nextBound)`
    | ArmTimer(delay: int, cancelPrevious: bool)          // `clearTimeout` (if asked), then `setTimeout`

  datatype NextResult<V, E> = NextResult(queue: Queue<V, E>, action: Action<V, E>)

  /** `next(ended)`, called at time `now`: release `ended` slots, then start
      the top task if it is due, or make sure a timer will wake the queue. */
  function Next<V, E>(q: Queue<V, E>, ended: int, now: int): (r: NextResult<V, E>)
    ensures r.queue.concurrency == q.concurrency
    // a task starts exactly when, after the release, a slot is free and some
    // waiting task is due
    ensures r.action.Start? <==>
      q.busyCount - ended < q.concurrency && exists j :: 0 <= j < |q.backlog| && q.backlog[j].stamp <= now
    // the started task is one of least stamp; it alone leaves the backlog and
    // takes one slot; it is resumed with the handles its `delay()` captured
    ensures r.action.Start? ==>
      && IsMinStamp(q.backlog, r.action.task.stamp)
      && (exists k :: 0 <= k < |q.backlog| && q.backlog[k] == r.action.task && r.queue.backlog == RemoveAt(q.backlog, k))
      && r.queue.busyCount == q.busyCount - ended + 1
      && r.queue.timerStamp == q.timerStamp
      && r.action.run == Resume(r.action.task)
    // otherwise the backlog is left as it was and only `ended` slots are released
    ensures !r.action.Start? ==>
      && r.queue.backlog == q.backlog
      && r.queue.busyCount == q.busyCount - ended
    // timer coalescing: a timer is (re)armed only for a top task still in the
    // future, and only if no timer is armed or the armed one is more than one
    // millisecond later than that task
    ensures r.action.ArmTimer? <==>
      && q.busyCount - ended < q.concurrency
      && |q.backlog| > 0
      && now < MinStamp(q.backlog)
      && (q.timerStamp == 0 || MinStamp(q.backlog) + 1 < q.timerStamp)
    ensures r.action.ArmTimer? ==>
      && r.queue.timerStamp == MinStamp(q.backlog)
      && r.action.delay == r.queue.timerStamp - now + 1
      && r.action.delay > 1
      && (r.action.cancelPrevious <==> q.timerStamp != 0)
    ensures !r.action.ArmTimer? ==> r.queue.timerStamp == q.timerStamp
    // the concurrency bound is kept when the released slots were taken
    ensures 0 <= ended <= q.busyCount <= q.concurrency ==> 0 <= r.queue.busyCount <= r.queue.concurrency
  {
    var busy := q.busyCount - ended;
    var released := q.(busyCount := busy);
    var top := if busy < q.concurrency then PeekTop(q.backlog) else None;
    match top
    case None => NextResult(released, Idle)
    case Some(task) =>
      if task.stamp <= now then
        var x := ExtractTop(q.backlog);
        assert q.backlog[TopIndex(q.backlog)] == x.top && x.rest == RemoveAt(q.backlog, TopIndex(q.backlog));
        NextResult(released.(busyCount := busy + 1, backlog := x.rest), Start(x.top, Resume(x.top)))
      else if q.timerStamp == 0 || task.stamp + 1 < q.timerStamp then
        NextResult(released.(timerStamp := task.stamp), ArmTimer(task.stamp - now + 1, q.timerStamp != 0))
      else
        NextResult(released, Idle)
  }

  /** The armed timer fires (`nextTickBound`): forget it, then `next(0)`. */
  function TimerFire<V, E>(q: Queue<V, E>, now: int): (r: NextResult<V, E>)
    ensures r.queue.concurrency == q.concurrency
    // no slot is released: the count moves only if a task starts
    ensures r.queue.busyCount == q.busyCount + (if r.action.Start? then 1 else 0)
    ensures r.action.Start? <==>
      q.busyCount < q.concurrency && exists j :: 0 <= j < |q.backlog| && q.backlog[j].stamp <= now
    ensures !r.action.Start? ==> r.queue.backlog == q.backlog
    // the fired timer is gone, so a new one never cancels anything
    ensures r.action.ArmTimer? ==> !r.action.cancelPrevious && |q.backlog| > 0 && r.queue.timerStamp == MinStamp(q.backlog)
    ensures r.action.Start? || r.action.Idle? ==> r.queue.timerStamp == 0
    ensures 0 <= q.busyCount <= q.concurrency ==> 0 <= r.queue.busyCount <= r.queue.concurrency
  {
    Next(q.(timerStamp := 0), 0, now)
  }

  datatype UnblockResult<V, E, P> = UnblockResult(queue: Queue<V, E>, action: Action<V, E>, promise: P)

  /** `unblock(promise)`: lend the caller's slot to the backlog now
      (`next(1)`); `UnblockSettled` takes it back when `promise` settles. */
  function Unblock<V, E, P>(q: Queue<V, E>, promise: P, now: int): (r: UnblockResult<V, E, P>)
    // the promise is handed back untouched
    ensures r.promise == promise
    ensures r.queue.concurrency == q.concurrency
    // one slot is released now; at most one waiting task takes it
    ensures r.queue.busyCount == q.busyCount - 1 + (if r.action.Start? then 1 else 0)
    ensures r.action.Start? <==>
      q.busyCount - 1 < q.concurrency && exists j :: 0 <= j < |q.backlog| && q.backlog[j].stamp <= now
    // once the promise settles the count is net unchanged, apart from the
    // task that the lent slot started
    ensures UnblockSettled(r.queue).busyCount == q.busyCount + (if r.action.Start? then 1 else 0)
    // the lent slot may push the count one past the limit, never further
    ensures 1 <= q.busyCount <= q.concurrency ==> UnblockSettled(r.queue).busyCount <= q.concurrency + 1
  {
    var n := Next(q, 1, now);
    UnblockResult(n.queue, n.action, promise)
  }

  /** The observer `unblock` attached fires: the lent slot is taken back,
      without looking at the limit. */
  function UnblockSettled<V, E>(q: Queue<V, E>): (r: Queue<V, E>)
    ensures r.busyCount == q.busyCount + 1
    ensures r.concurrency == q.concurrency && r.backlog == q.backlog && r.timerStamp == q.timerStamp
  {
    q.(busyCount := q.busyCount + 1)
  }

  datatype WakeResult<V, E> = WakeResult(queue: Queue<V, E>, admission: Admission<V, E>, action: Action<V, E>)

  /** `add` as evidently intended: a deferred task is followed by `next(0)`, so
      that a timer is armed (or the task started) even when nothing else is
      running to call `next` later. */
  function AddAndWake<V, E>(q: Queue<V, E>, id: nat, call: Call<V, E>, delay: int, now: int): (r: WakeResult<V, E>)
    ensures r.queue.concurrency == q.concurrency
    ensures r.admission.Immediate? <==> q.busyCount < q.concurrency && delay == 0
    ensures r.admission.Immediate? ==> r.action.Idle? && r.queue == Add(q, id, call, delay, now).queue
    // with a slot free, a deferred task is either started at once or covered
    // by a timer due no later than one millisecond after the top's stamp
    ensures r.admission.Deferred? && q.busyCount < q.concurrency && 0 <= now ==>
      || r.action.Start?
      || (&& |r.queue.backlog| > 0
          && r.queue.timerStamp != 0
          && r.queue.timerStamp <= MinStamp(r.queue.backlog) + 1)
    ensures r.admission.Deferred? ==> r.queue.busyCount == q.busyCount + (if r.action.Start? then 1 else 0)
    // with every slot busy the backlog is not looked at: the timer stays as it was
    ensures r.admission.Deferred? && q.busyCount >= q.concurrency ==> r.action.Idle? && r.queue.timerStamp == q.timerStamp
    ensures 0 <= q.busyCount <= q.concurrency ==> 0 <= r.queue.busyCount <= r.queue.concurrency
  {
    var a := Add(q, id, call, delay, now);
    match a.admission
    case Immediate(_) => WakeResult(a.queue, a.admission, Idle)
    case Deferred(_, _) =>
      var n := Next(a.queue, 0, now);
      WakeResult(n.queue, a.admission, n.action)
  }
}
