/** The queue driven by the events of its environment.

    The asynchrony of cwait becomes explicit events: a submission, the
    settlement of a running task's promise (whose `onFinish` hook is
    `nextBound`), and the firing of the armed timer (`nextTickBound`). The
    system state adds to the queue record what the runtime holds: the tasks
    whose promises have not settled yet, and the timers `setTimeout` left live.
    Time is the non-negative millisecond clock each event is stamped with.
 */
module Traces {
  import opened Tasks
  import opened Backlog
  import opened TaskQueue

  datatype Event<V, E> =
    | Submit(call: Call<V, E>, delay: int, now: nat)  // `add(func, delay)`
    | Settle(id: nat, now: nat)                         // the promise of running task `id` settles
    | Fire(now: nat)                                    // a live timer fires

  datatype Sys<V, E> = Sys(
    queue: Queue<V, E>,
    running: set<nat>,     // ids of started tasks whose promises have not settled
    started: set<nat>,     // ids of every task whose work was ever invoked
    nextId: nat,           // identity of the next submitted task
    liveTimers: nat        // timers set and neither fired nor cleared
  )

  function Init<V, E>(concurrency: int): Sys<V, E>
  {
    Sys(NewQueue(concurrency), {}, {}, 0, 0)
  }

  /** The runtime can deliver `ev`: only running tasks settle, only live timers fire. */
  predicate Enabled<V, E>(s: Sys<V, E>, ev: Event<V, E>)
  {
    match ev
    case Submit(_, _, _) => true
    case Settle(id, _) => id in s.running
    case Fire(_) => s.liveTimers > 0
  }

  /** Carry out what `next` asked for: resume a task, or clear and set a timer. */
  function Perform<V, E>(q: Queue<V, E>, running: set<nat>, started: set<nat>, nextId: nat, liveTimers: nat, action: Action<V, E>): (s: Sys<V, E>)
    ensures s.queue == q && s.nextId == nextId
    ensures s.running == (if action.Start? then running + {action.task.id} else running)
    ensures s.started == (if action.Start? then started + {action.task.id} else started)
    ensures s.liveTimers == liveTimers + (if action.ArmTimer? && (!action.cancelPrevious || liveTimers == 0) then 1 else 0)
  {
    match action
    case Idle => Sys(q, running, started, nextId, liveTimers)
    case Start(t, _) => Sys(q, running + {t.id}, started + {t.id}, nextId, liveTimers)
    case ArmTimer(_, cancel) =>
      var cleared := if cancel && liveTimers > 0 then liveTimers - 1 else liveTimers;
      Sys(q, running, started, nextId, cleared + 1)
  }

  lemma AtMostOne(a: set<nat>, x: nat)
    requires a <= {x}
    ensures |a| <= 1
  {
    if a != {} { assert a == {x}; }
  }

  /** One event, with `add` as evidently intended (`AddAndWake`). */
  function Step<V, E>(s: Sys<V, E>, ev: Event<V, E>): (r: Sys<V, E>)
    requires Enabled(s, ev)
    // each event starts at most one task
    ensures |r.running - s.running| <= 1
    // only a settlement ends a task, and at most that one
    ensures s.running - r.running <= (if ev.Settle? then {ev.id} else {})
    ensures r.nextId == s.nextId + (if ev.Submit? then 1 else 0)
  {
    match ev
    case Submit(call, delay, now) =>
      var w := AddAndWake(s.queue, s.nextId, call, delay, now);
      var running := if w.admission.Immediate? then s.running + {s.nextId} else s.running;
      var started := if w.admission.Immediate? then s.started + {s.nextId} else s.started;
      Perform(w.queue, running, started, s.nextId + 1, s.liveTimers, w.action)
    case Settle(id, now) =>
      var n := Next(s.queue, 1, now);
      var r := Perform(n.queue, s.running - {id}, s.started, s.nextId, s.liveTimers, n.action);
      if n.action.Start? then
        AtMostOne(r.running - s.running, n.action.task.id);
        r
      else
        assert r.running - s.running == {};
        r
    case Fire(now) =>
      var n := TimerFire(s.queue, now);
      Perform(n.queue, s.running, s.started, s.nextId, s.liveTimers - 1, n.action)
  }

  /** Waiting tasks: issued ids, none ever started, none twice, each with its
      outward promise already created by `delay()`. */
  ghost predicate WaitingOk<V, E>(b: seq<Task<V, E>>, started: set<nat>, nextId: nat)
  {
    && (forall k :: 0 <= k < |b| ==> b[k].id < nextId && b[k].id !in started && b[k].deferred.Some?)
    && (forall j, k :: 0 <= j < k < |b| ==> b[j].id != b[k].id)
  }

  /** The safety invariant, which holds with `add` as written too: the
      concurrency bound, the bookkeeping of waiting, running and started tasks
      (so no task is resumed twice), and a single live timer. */
  ghost predicate Safe<V, E>(s: Sys<V, E>)
  {
    ReadyForNext(s.queue, 0, s.running, s.started, s.nextId, s.liveTimers)
  }

  /** The invariant of every state reachable with `add` as intended. */
  ghost predicate Inv<V, E>(s: Sys<V, E>)
  {
    && Safe(s)
    // something is always coming to call `next` while tasks wait
    && (|s.queue.backlog| > 0 ==> |s.running| > 0 || s.queue.timerStamp != 0)
  }

  /** No event but a new submission can ever happen, yet tasks wait. */
  ghost predicate Stalled<V(!new), E(!new)>(s: Sys<V, E>)
  {
    && |s.queue.backlog| > 0
    && forall ev: Event<V, E> :: Enabled(s, ev) ==> ev.Submit?
  }

  lemma {:induction false} InsertKeepsWaitingOk<V, E>(b: seq<Task<V, E>>, started: set<nat>, nextId: nat, t: Task<V, E>)
    requires WaitingOk(b, started, nextId)
    requires t.id == nextId && nextId !in started && t.deferred.Some?
    ensures WaitingOk(Insert(b, t), started, nextId + 1)
  {
    var r := Insert(b, t);
    forall k | 0 <= k < |r|
      ensures r[k].id < nextId + 1 && r[k].id !in started && r[k].deferred.Some?
    {
      if k < |b| { assert r[k] == b[k]; }
    }
    forall j, k | 0 <= j < k < |r|
      ensures r[j].id != r[k].id
    {
      assert r[j] == b[j];
      if k < |b| { assert r[k] == b[k]; }
    }
  }

  lemma {:induction false} RemoveKeepsWaitingOk<V, E>(b: seq<Task<V, E>>, started: set<nat>, nextId: nat, k: nat)
    requires WaitingOk(b, started, nextId)
    requires k < |b|
    ensures WaitingOk(RemoveAt(b, k), started + {b[k].id}, nextId)
  {
    var r := RemoveAt(b, k);
    forall i | 0 <= i < |r|
      ensures r[i].id < nextId && r[i].id !in started + {b[k].id} && r[i].deferred.Some?
    {
      if i < k { assert r[i] == b[i]; } else { assert r[i] == b[i + 1]; }
    }
    forall i, j | 0 <= i < j < |r|
      ensures r[i].id != r[j].id
    {
      var i' := if i < k then i else i + 1;
      var j' := if j < k then j else j + 1;
      assert r[i] == b[i'] && r[j] == b[j'] && i' < j';
    }
  }

  /** The safety invariant of the state before `next` runs, once the caller
      has taken the released task out of `running`. */
  ghost predicate ReadyForNext<V, E>(q: Queue<V, E>, ended: int, running: set<nat>, started: set<nat>, nextId: nat, liveTimers: nat)
  {
    && q.concurrency >= 1
    // the concurrency bound: the count is exactly the running tasks
    && 0 <= q.busyCount - ended == |running| <= q.concurrency
    // every running task was started, and only issued ids were
    && running <= started
    && (forall i :: i in started ==> i < nextId)
    && WaitingOk(q.backlog, started, nextId)
    // at most one live timer, and it is the one `timerStamp` records
    && liveTimers == (if q.timerStamp != 0 then 1 else 0)
  }

  lemma {:induction false} StartKeepsInv<V, E>(q: Queue<V, E>, ended: int, running: set<nat>, started: set<nat>, nextId: nat, liveTimers: nat, n: NextResult<V, E>, k: nat)
    requires ReadyForNext(q, ended, running, started, nextId, liveTimers)
    requires n.action.Start? && q.busyCount - ended < q.concurrency
    requires k < |q.backlog| && q.backlog[k] == n.action.task && n.queue.backlog == RemoveAt(q.backlog, k)
    requires n.queue == q.(busyCount := q.busyCount - ended + 1, backlog := n.queue.backlog)
    ensures Inv(Perform(n.queue, running, started, nextId, liveTimers, n.action))
  {
    var t := n.action.task;
    RemoveKeepsWaitingOk(q.backlog, started, nextId, k);
    assert t.id !in started;
    var s := Perform(n.queue, running, started, nextId, liveTimers, n.action);
    assert s.running == running + {t.id};
    assert |s.running| == |running| + 1;
  }

  lemma {:induction false} ArmKeepsInv<V, E>(q: Queue<V, E>, ended: int, now: nat, running: set<nat>, started: set<nat>, nextId: nat, liveTimers: nat, n: NextResult<V, E>)
    requires ReadyForNext(q, ended, running, started, nextId, liveTimers)
    requires n.action.ArmTimer? && (n.action.cancelPrevious <==> q.timerStamp != 0)
    requires n.queue == q.(busyCount := q.busyCount - ended, timerStamp := n.queue.timerStamp)
    requires n.queue.timerStamp > now
    ensures Inv(Perform(n.queue, running, started, nextId, liveTimers, n.action))
  {
  }

  lemma {:induction false} IdleKeepsInv<V, E>(q: Queue<V, E>, ended: int, running: set<nat>, started: set<nat>, nextId: nat, liveTimers: nat, n: NextResult<V, E>)
    requires ReadyForNext(q, ended, running, started, nextId, liveTimers)
    requires n.action.Idle?
    requires n.queue == q.(busyCount := q.busyCount - ended)
    requires |q.backlog| > 0 && q.busyCount - ended < q.concurrency ==> q.timerStamp != 0
    ensures Inv(Perform(n.queue, running, started, nextId, liveTimers, n.action))
  {
  }

  /** `next` (after whatever release the caller made) keeps the invariant. */
  lemma {:induction false} NextKeepsInv<V, E>(q: Queue<V, E>, ended: int, now: nat, running: set<nat>, started: set<nat>, nextId: nat, liveTimers: nat)
    requires ReadyForNext(q, ended, running, started, nextId, liveTimers)
    ensures Inv(Perform(Next(q, ended, now).queue, running, started, nextId, liveTimers, Next(q, ended, now).action))
  {
    var n := Next(q, ended, now);
    match n.action
    case Start(t, _) =>
      var k :| 0 <= k < |q.backlog| && q.backlog[k] == t && n.queue.backlog == RemoveAt(q.backlog, k);
      StartKeepsInv(q, ended, running, started, nextId, liveTimers, n, k);
    case ArmTimer(_, _) =>
      ArmKeepsInv(q, ended, now, running, started, nextId, liveTimers, n);
    case Idle =>
      // neither started nor armed: if a slot is free, the top is in the future
      // and a timer no later than one millisecond after it is already armed
      IdleKeepsInv(q, ended, running, started, nextId, liveTimers, n);
  }

  lemma {:induction false} SubmitNowKeepsInv<V, E>(s: Sys<V, E>, call: Call<V, E>, now: nat)
    requires Safe(s) && s.queue.busyCount < s.queue.concurrency
    ensures Inv(Step(s, Submit(call, 0, now)))
  {
    var a := Add(s.queue, s.nextId, call, 0, now);
    assert Step(s, Submit(call, 0, now)) == Sys(a.queue, s.running + {s.nextId}, s.started + {s.nextId}, s.nextId + 1, s.liveTimers);
    assert s.nextId !in s.started;
    assert |s.running + {s.nextId}| == |s.running| + 1;
  }

  /** A deferred submission leaves the queue ready for the `next(0)` that follows it. */
  lemma {:induction false} DeferKeepsReady<V, E>(s: Sys<V, E>, call: Call<V, E>, delay: int, now: nat)
    requires Safe(s) && !(s.queue.busyCount < s.queue.concurrency && delay == 0)
    ensures ReadyForNext(Add(s.queue, s.nextId, call, delay, now).queue, 0, s.running, s.started, s.nextId + 1, s.liveTimers)
  {
    var a := Add(s.queue, s.nextId, call, delay, now);
    assert a.admission.Deferred?;
    assert s.nextId !in s.started;
    InsertKeepsWaitingOk(s.queue.backlog, s.started, s.nextId, a.admission.task);
  }

  lemma {:induction false} SubmitLaterKeepsInv<V, E>(s: Sys<V, E>, call: Call<V, E>, delay: int, now: nat)
    requires Inv(s) && !(s.queue.busyCount < s.queue.concurrency && delay == 0)
    ensures Inv(Step(s, Submit(call, delay, now)))
  {
    var q1 := Add(s.queue, s.nextId, call, delay, now).queue;
    DeferKeepsReady(s, call, delay, now);
    NextKeepsInv(q1, 0, now, s.running, s.started, s.nextId + 1, s.liveTimers);
  }

  lemma {:induction false} SettleKeepsInv<V, E>(s: Sys<V, E>, id: nat, now: nat)
    requires Safe(s) && id in s.running
    ensures Inv(Step(s, Settle(id, now)))
  {
    assert |s.running - {id}| == |s.running| - 1;
    NextKeepsInv(s.queue, 1, now, s.running - {id}, s.started, s.nextId, s.liveTimers);
  }

  lemma {:induction false} FireKeepsInv<V, E>(s: Sys<V, E>, now: nat)
    requires Safe(s) && s.liveTimers > 0
    ensures Inv(Step(s, Fire(now)))
  {
    NextKeepsInv(s.queue.(timerStamp := 0), 0, now, s.running, s.started, s.nextId, s.liveTimers - 1);
  }

  /** `next` only ever resumes a task that was never started before. */
  lemma {:induction false} NextStartsFresh<V, E>(q: Queue<V, E>, ended: int, now: nat, running: set<nat>, started: set<nat>, nextId: nat, liveTimers: nat)
    requires ReadyForNext(q, ended, running, started, nextId, liveTimers)
    ensures Next(q, ended, now).action.Start? ==> Next(q, ended, now).action.task.id !in started
  {
    var n := Next(q, ended, now);
    if n.action.Start? {
      var k :| 0 <= k < |q.backlog| && q.backlog[k] == n.action.task && n.queue.backlog == RemoveAt(q.backlog, k);
      assert q.backlog[k].id !in started;
    }
  }

  /** Resuming a task that was never started records it as started; the
      tasks that were running before stay started. */
  lemma {:induction false} PerformRecordsStart<V, E>(q: Queue<V, E>, before: set<nat>, running: set<nat>, started: set<nat>, nextId: nat, liveTimers: nat, action: Action<V, E>)
    requires running <= before <= started
    requires action.Start? ==> action.task.id !in started
    ensures (Perform(q, running, started, nextId, liveTimers, action).running - before) !! started
    ensures Perform(q, running, started, nextId, liveTimers, action).started == started + (Perform(q, running, started, nextId, liveTimers, action).running - before)
  {
    var r := Perform(q, running, started, nextId, liveTimers, action);
    if action.Start? {
      assert r.running - before == {action.task.id};
    } else {
      assert r.running - before == {};
    }
  }

  lemma {:induction false} SubmitLaterStartsFresh<V, E>(s: Sys<V, E>, call: Call<V, E>, delay: int, now: nat)
    requires Safe(s) && !(s.queue.busyCount < s.queue.concurrency && delay == 0)
    ensures (Step(s, Submit(call, delay, now)).running - s.running) !! s.started
    ensures Step(s, Submit(call, delay, now)).started == s.started + (Step(s, Submit(call, delay, now)).running - s.running)
  {
    DeferKeepsReady(s, call, delay, now);
    var q1 := Add(s.queue, s.nextId, call, delay, now).queue;
    NextStartsFresh(q1, 0, now, s.running, s.started, s.nextId + 1, s.liveTimers);
    var n := Next(q1, 0, now);
    PerformRecordsStart(n.queue, s.running, s.running, s.started, s.nextId + 1, s.liveTimers, n.action);
  }

  lemma {:induction false} SettleStartsFresh<V, E>(s: Sys<V, E>, id: nat, now: nat)
    requires Safe(s) && id in s.running
    ensures (Step(s, Settle(id, now)).running - s.running) !! s.started
    ensures Step(s, Settle(id, now)).started == s.started + (Step(s, Settle(id, now)).running - s.running)
  {
    NextStartsFresh(s.queue, 1, now, s.running - {id}, s.started, s.nextId, s.liveTimers);
    var n := Next(s.queue, 1, now);
    PerformRecordsStart(n.queue, s.running, s.running - {id}, s.started, s.nextId, s.liveTimers, n.action);
  }

  lemma {:induction false} FireStartsFresh<V, E>(s: Sys<V, E>, now: nat)
    requires Safe(s) && s.liveTimers > 0
    ensures (Step(s, Fire(now)).running - s.running) !! s.started
    ensures Step(s, Fire(now)).started == s.started + (Step(s, Fire(now)).running - s.running)
  {
    NextStartsFresh(s.queue.(timerStamp := 0), 0, now, s.running, s.started, s.nextId, s.liveTimers - 1);
    var n := TimerFire(s.queue, now);
    PerformRecordsStart(n.queue, s.running, s.running, s.started, s.nextId, s.liveTimers - 1, n.action);
  }

  /** A task is resumed at most once: with `add` as intended, whatever an
      event starts had never been started before, and from then on it is
      recorded as started. */
  lemma {:induction false} ResumedAtMostOnce<V, E>(s: Sys<V, E>, ev: Event<V, E>)
    requires Safe(s) && Enabled(s, ev)
    ensures (Step(s, ev).running - s.running) !! s.started
    ensures Step(s, ev).started == s.started + (Step(s, ev).running - s.running)
  {
    match ev
    case Submit(call, delay, now) =>
      if s.queue.busyCount < s.queue.concurrency && delay == 0 {
        assert s.nextId !in s.started;
      } else {
        SubmitLaterStartsFresh(s, call, delay, now);
      }
    case Settle(id, now) => SettleStartsFresh(s, id, now);
    case Fire(now) => FireStartsFresh(s, now);
  }

  /** The same with `add` as written. */
  lemma {:induction false} ResumedAtMostOnceAsWritten<V, E>(s: Sys<V, E>, ev: Event<V, E>)
    requires Safe(s) && Enabled(s, ev)
    ensures (StepAsWritten(s, ev).running - s.running) !! s.started
    ensures StepAsWritten(s, ev).started == s.started + (StepAsWritten(s, ev).running - s.running)
  {
    if ev.Submit? {
      assert s.nextId !in s.started;
    } else {
      ResumedAtMostOnce(s, ev);
    }
  }

  /** Every event keeps the invariant and leaves the limit alone. */
  lemma {:induction false} StepKeepsInv<V, E>(s: Sys<V, E>, ev: Event<V, E>)
    requires Enabled(s, ev)
    ensures Inv(s) ==> Inv(Step(s, ev)) && Step(s, ev).queue.concurrency == s.queue.concurrency
  {
    if Inv(s) {
      match ev
      case Submit(call, delay, now) =>
        if s.queue.busyCount < s.queue.concurrency && delay == 0 {
          SubmitNowKeepsInv(s, call, now);
        } else {
          SubmitLaterKeepsInv(s, call, delay, now);
        }
      case Settle(id, now) => SettleKeepsInv(s, id, now);
      case Fire(now) => FireKeepsInv(s, now);
    }
  }

  /** The state a queue of the given limit reaches through `evs`, if every
      event in turn can happen. From a positive limit, every such state keeps
      the invariant. */
  function Replay<V, E>(concurrency: int, evs: seq<Event<V, E>>): (r: Option<Sys<V, E>>)
    ensures concurrency >= 1 && r.Some? ==>
      && Inv(r.value)
      && r.value.queue.concurrency == concurrency
      // the concurrency bound: `busyCount` counts exactly the tasks whose
      // promises have not settled, and they never exceed the limit
      && 0 <= r.value.queue.busyCount == |r.value.running| <= concurrency
  {
    if |evs| == 0 then Some(Init(concurrency))
    else match Replay(concurrency, evs[..|evs| - 1])
      case None => None
      case Some(s) =>
        var ev := evs[|evs| - 1];
        if Enabled(s, ev) then
          StepKeepsInv(s, ev);
          Some(Step(s, ev))
        else None
  }

  /** With `add` as intended, the queue never stalls: in every state that
      keeps the invariant (every state `Replay` reaches), while tasks wait a
      running task can still settle or a live timer can still fire. */
  lemma NeverStalls<V(!new), E(!new)>(s: Sys<V, E>)
    requires Inv(s)
    ensures !Stalled(s)
  {
    if |s.queue.backlog| > 0 {
      if |s.running| > 0 {
        var id :| id in s.running;
        assert Enabled(s, Settle(id, 0));
      } else {
        assert Enabled(s, Fire(0));
      }
    }
  }

  /** A submission handled by `add` exactly as written: nothing follows the
      insertion of a deferred task. */
  function SubmitAsWritten<V, E>(s: Sys<V, E>, call: Call<V, E>, delay: int, now: nat): (r: Sys<V, E>)
    ensures r.liveTimers == s.liveTimers
    ensures r.queue == Add(s.queue, s.nextId, call, delay, now).queue
    ensures r.running == s.running + (if s.queue.busyCount < s.queue.concurrency && delay == 0 then {s.nextId} else {})
    ensures r.started == s.started + (if s.queue.busyCount < s.queue.concurrency && delay == 0 then {s.nextId} else {})
  {
    var a := Add(s.queue, s.nextId, call, delay, now);
    var running := if a.admission.Immediate? then s.running + {s.nextId} else s.running;
    var started := if a.admission.Immediate? then s.started + {s.nextId} else s.started;
    Sys(a.queue, running, started, s.nextId + 1, s.liveTimers)
  }

  /** One event, with `add` exactly as written: a submission is `SubmitAsWritten`. */
  function StepAsWritten<V, E>(s: Sys<V, E>, ev: Event<V, E>): (r: Sys<V, E>)
    requires Enabled(s, ev)
    ensures |r.running - s.running| <= 1
    ensures s.running - r.running <= (if ev.Settle? then {ev.id} else {})
    ensures r.nextId == s.nextId + (if ev.Submit? then 1 else 0)
    // as written, a submission never sets or clears a timer
    ensures ev.Submit? ==> r.liveTimers == s.liveTimers && r.queue.timerStamp == s.queue.timerStamp
  {
    match ev
    case Submit(call, delay, now) =>
      var r := SubmitAsWritten(s, call, delay, now);
      assert r.running - s.running <= {s.nextId};
      AtMostOne(r.running - s.running, s.nextId);
      r
    case _ => Step(s, ev)
  }

  lemma {:induction false} SubmitAsWrittenKeepsSafe<V, E>(s: Sys<V, E>, call: Call<V, E>, delay: int, now: nat)
    requires Safe(s)
    ensures Safe(SubmitAsWritten(s, call, delay, now))
  {
    if s.queue.busyCount < s.queue.concurrency && delay == 0 {
      SubmitNowKeepsInv(s, call, now);
      assert SubmitAsWritten(s, call, delay, now) == Step(s, Submit(call, 0, now));
    } else {
      DeferKeepsReady(s, call, delay, now);
    }
  }

  /** With `add` as written, every event keeps the safety invariant. */
  lemma {:induction false} StepAsWrittenKeepsSafe<V, E>(s: Sys<V, E>, ev: Event<V, E>)
    requires Enabled(s, ev)
    ensures Safe(s) ==> Safe(StepAsWritten(s, ev)) && StepAsWritten(s, ev).queue.concurrency == s.queue.concurrency
  {
    if Safe(s) {
      match ev
      case Submit(call, delay, now) => SubmitAsWrittenKeepsSafe(s, call, delay, now);
      case Settle(id, now) => SettleKeepsInv(s, id, now);
      case Fire(now) => FireKeepsInv(s, now);
    }
  }

  /** The state a queue of the given limit reaches through `evs` with `add`
      exactly as written. The concurrency bound, the bookkeeping and the single
      live timer hold in every such state; only the absence of a stall is lost. */
  function ReplayAsWritten<V, E>(concurrency: int, evs: seq<Event<V, E>>): (r: Option<Sys<V, E>>)
    ensures concurrency >= 1 && r.Some? ==>
      && Safe(r.value)
      && r.value.queue.concurrency == concurrency
      && 0 <= r.value.queue.busyCount == |r.value.running| <= concurrency
  {
    if |evs| == 0 then Some(Init(concurrency))
    else match ReplayAsWritten(concurrency, evs[..|evs| - 1])
      case None => None
      case Some(s) =>
        var ev := evs[|evs| - 1];
        if Enabled(s, ev) then
          StepAsWrittenKeepsSafe(s, ev);
          Some(StepAsWritten(s, ev))
        else None
  }

  /** As written, `add(func, 10)` on a new, idle queue of limit 1 leaves the
      task waiting with no running task and no timer: it is never started.
      That state is reachable, and it keeps the safety invariant. */
  lemma AsWrittenDelayedAddStalls(v: int)
    ensures ReplayAsWritten<int, int>(1, [Submit(Returns(Ok(v)), 10, 0)]) == Some(SubmitAsWritten(Init<int, int>(1), Returns(Ok(v)), 10, 0))
    ensures Stalled(SubmitAsWritten(Init<int, int>(1), Returns(Ok(v)), 10, 0))
    ensures !Inv(SubmitAsWritten(Init<int, int>(1), Returns(Ok(v)), 10, 0))
  {
    var evs: seq<Event<int, int>> := [Submit(Returns(Ok(v)), 10, 0)];
    assert evs[..0] == [];
    var s := SubmitAsWritten(Init<int, int>(1), Returns(Ok(v)), 10, 0);
    assert |s.queue.backlog| == 1;
    forall ev: Event<int, int> | Enabled(s, ev)
      ensures ev.Submit?
    {
    }
  }

  /** The same submission with `add` as intended arms a timer for the task. */
  lemma IntendedDelayedAddArmsTimer(v: int)
    ensures var s := Step(Init<int, int>(1), Submit(Returns(Ok(v)), 10, 0));
      s.liveTimers == 1 && s.queue.timerStamp == 10 && |s.queue.backlog| == 1
  {
    var q1 := Add(NewQueue<int, int>(1), 0, Returns(Ok(v)), 10, 0).queue;
    assert MinStamp(q1.backlog) == 10;
  }
}
