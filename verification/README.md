# cwait task queue, modelled in Dafny

This project models the core of `cwait`, a TypeScript library that limits how
many promise-returning tasks are in flight at once. The model covers two parts:

- **`TaskQueue` admission control** (`src/TaskQueue.ts`). The queue state is
  `busyCount`, `concurrency`, a backlog of tasks ordered by start `stamp`, and
  `timerStamp`, where 0 means no wake-up timer is armed. The transitions are
  `add`, `next`, the timer firing (`nextTickBound`) and `unblock`.
- **The outcome adapter** (`src/Task.ts`): `tryFinally`, and the `Task`
  wrapper with its lazy, idempotent `delay()` and its `resume()`.

Each transition runs to completion, so each one is a pure function over an
immutable record. The clock is passed in as `now`. A promise is modelled by
the outcome it settles with (`Ok`/`Err`). The handlers attached to a promise
are modelled by the ordered effects they produce (`Finished`, `Resolved`,
`Rejected`). Starting a task, and setting or clearing a timer, are returned
as an `Action`.

Files and modules:

- `tasks.dfy`, module `Tasks`: outcomes, `TryFinally`, `Task`, `Delay`, `Resume`.
- `backlog.dfy`, module `Backlog`: the binary heap, specified abstractly as a
  sequence whose top is a task of least stamp.
- `task_queue.dfy`, module `TaskQueue`: the queue record and its transitions,
  plus `AddAndWake`, the corrected `add` (see Findings).
- `traces.dfy`, module `Traces`: the queue driven by explicit events. The
  events are a submission, the settlement of a running task's promise, and a
  live timer firing. Each event is stepped twice over: once with `add` exactly
  as written (`StepAsWritten`, `ReplayAsWritten`), and once with the corrected
  `add` (`Step`, `Replay`). For both, every reachable state keeps the
  concurrency bound and at most one live timer. Only with the corrected `add`
  does no reachable state stall.

Points of the timer logic the model keeps exactly as the code has them:

- **Timer re-arming.** The comment at src/TaskQueue.ts:93-94 asks for "no
  current timer firing before the delay", but the guard re-arms only when
  `top.stamp + 1 < timerStamp`. An armed timer one millisecond after the top's
  stamp is therefore kept.
- **Timer delay.** The requested delay is `top.stamp - now + 1`.
- **Which stamp the timer tracks.** The armed timer is not always for the
  current minimum. It can be stale after its task was started by a released
  slot. With the corrected `add`, while a slot is free, a deferred task is
  started at once or the armed timer is at most one millisecond after the
  least stamp (`TaskQueue.AddAndWake`). With every slot busy, `next` does not
  look at the backlog (src/TaskQueue.ts:83), so the timer stays where it was,
  possibly far later than a newly deferred task; that task is reconsidered
  when a running task settles (`next(1)`). As written, a deferred `add` never
  calls `next` and leaves `timerStamp` alone, even with a slot free, so a task
  inserted ahead of an armed timer waits until that timer fires or a task
  settles.
- **`add` with a delay never calls `next`.** This is the finding below.

## Model

| member | source | states |
|---|---|---|
| Tasks.TryFinally | src/Task.ts:18-38 | a synchronous throw becomes a rejection carrying the thrown value; otherwise the work's own outcome is returned; `onFinish` runs exactly once on either outcome; the outcome reaches the captured handles unchanged, and nothing is delivered when no handles are given |
| Tasks.NewTask | src/Task.ts:44-48 | a new task keeps the given work and stamp and has no outward promise yet |
| Tasks.Delay | src/Task.ts:52-61 | the handles are bound to exactly the promise handed out; the first call creates the promise; a later call returns the existing promise and changes nothing; work and stamp never change |
| Tasks.DelayIdempotent | src/Task.ts:52-61 | two `delay()` calls in a row give the same result as one |
| Tasks.Resume | src/Task.ts:65-67 | resuming runs the work with `onFinish` exactly once; a task whose promise was handed out delivers its outcome to that promise; a task never delayed forwards nothing |
| Backlog.TopIndex | src/TaskQueue.ts:111-113 | the top of the heap is a task whose stamp is no greater than any other waiting task's stamp |
| Backlog.MinStamp | src/TaskQueue.ts:111-113 | the value returned is the least stamp in the backlog |
| Backlog.PeekTop | src/TaskQueue.ts:83 | `peekTop` is empty exactly when the backlog is empty; otherwise it returns a waiting task of least stamp |
| Backlog.Insert | src/TaskQueue.ts:43 | insertion adds exactly the one task and keeps every other task |
| Backlog.ExtractTop | src/TaskQueue.ts:90 | `extractTop` removes the very task `peekTop` showed, which has least stamp, and keeps every other task |
| TaskQueue.NewQueue | src/TaskQueue.ts:110-116 | a new queue has no busy slots, an empty backlog and no timer |
| TaskQueue.Add | src/TaskQueue.ts:29-47 | the work starts at once if and only if a slot is free and the delay is 0; in that case `busyCount` rises by 1, the backlog and timer are untouched, and the caller gets the work's own outcome with nothing forwarded; otherwise exactly one task stamped `now + delay` joins the backlog, already holding its outward promise, with `busyCount` and the timer untouched; `0 <= busyCount <= concurrency` is kept |
| TaskQueue.Next | src/TaskQueue.ts:76-105 | after releasing `ended` slots, a task starts if and only if a slot is free and some waiting task is due; the started task has least stamp, is the only one removed, takes one slot, and is resumed with its captured handles; otherwise the backlog is unchanged; a timer is armed if and only if the top task is in the future and either no timer is armed or `top + 1 <` the armed stamp; after arming, `timerStamp` is the top's stamp, the delay is `top - now + 1 > 1`, and the old timer is cleared exactly when one was armed; the bound is kept |
| TaskQueue.TimerFire | src/TaskQueue.ts:17-21 | the timer firing releases no slot, so `busyCount` changes only by the task it starts; a task starts if and only if a slot is free and one is due; a new timer never cancels anything; if nothing is armed again, `timerStamp` is 0 |
| TaskQueue.Unblock | src/TaskQueue.ts:52-60 | the promise is returned unchanged; one slot is lent at once and at most one waiting task takes it; once the promise settles, `busyCount` has changed only by the started task; so each outstanding `unblock` can push `busyCount` at most one past where it was, and one `unblock` from a state within the limit ends at most one past the limit |
| TaskQueue.UnblockSettled | src/TaskQueue.ts:55-57 | the settlement observer takes the slot back by incrementing `busyCount`, without checking the limit |
| TaskQueue.AddAndWake | src/TaskQueue.ts:29-47 | `add` as intended: it admits exactly as `add` does; with a slot free, a deferred task is either started or covered by a timer due no more than 1 ms after the top's stamp; with every slot busy, nothing starts and the timer is left as it was |
| Traces.Perform | src/TaskQueue.ts:87-104 | resuming a task adds it to the running set and to the set of tasks ever started; setting a timer adds one live timer unless it replaces a cleared one |
| Traces.StepAsWritten | src/TaskQueue.ts:17-105 | with `add` exactly as written, each submission, settlement or timer firing starts at most one task, only a settlement ends one, and a submission never sets or clears a timer |
| Traces.StepAsWrittenKeepsSafe | src/TaskQueue.ts:17-105 | with `add` exactly as written, every submission, settlement and timer firing keeps the safety invariant and leaves `concurrency` unchanged |
| Traces.ReplayAsWritten | src/TaskQueue.ts:17-105 | with `add` exactly as written, every state reachable from a new queue with limit at least 1 keeps the safety invariant: `busyCount` equals the number of running tasks and lies between 0 and `concurrency` (the concurrency bound); every running task is recorded as started; every waiting task has an issued id, was never started, appears once and already holds its outward promise; at most one timer is live, and one is live exactly when `timerStamp != 0` |
| Traces.StepKeepsInv | src/TaskQueue.ts:17-105 | with the corrected `add` (`AddAndWake`), every submission, settlement and timer firing keeps the full invariant (the safety invariant plus "while tasks wait, a task is running or a timer is armed") and leaves `concurrency` unchanged |
| Traces.Step | src/TaskQueue.ts:17-105 | with the corrected `add` (`AddAndWake`), each submission, settlement or timer firing starts at most one task, and only a settlement ends one |
| Traces.NextStartsFresh | src/TaskQueue.ts:87-91 | from a state that keeps the safety invariant, `next` resumes only a task that was never started |
| Traces.ResumedAtMostOnce | src/TaskQueue.ts:87-91 | with the corrected `add`, from a state that keeps the safety invariant, every task an event starts was never started before, and it is recorded as started from then on: a task is resumed at most once |
| Traces.ResumedAtMostOnceAsWritten | src/TaskQueue.ts:87-91 | the same with `add` exactly as written |
| Traces.Replay | src/TaskQueue.ts:17-105 | with the corrected `add` (`AddAndWake`), every state reachable from a new queue with limit at least 1 keeps the full invariant, including the concurrency bound, the started-task bookkeeping that makes every task resumed at most once, and "while tasks wait, a task is running or a timer is armed" |
| Traces.NeverStalls | src/TaskQueue.ts:36-46 | with `add` as intended, in every state that keeps the invariant (so in every state `Replay` reaches), while tasks wait, some running task can still settle or some live timer can still fire |
| Traces.SubmitAsWritten | src/TaskQueue.ts:29-47 | a submission handled by `add` exactly as written leaves the live timers unchanged and runs only an immediately admitted task |
| Traces.AsWrittenDelayedAddStalls | src/TaskQueue.ts:36-46 | as written, `add(func, 10)` on a new idle queue reaches a state where the task waits with no running task and no timer, and the full invariant fails |
| Traces.IntendedDelayedAddArmsTimer | src/TaskQueue.ts:92-103 | with `add` as intended, the same submission arms a single timer for stamp 10 |

## Left out

- Promise library and asynchrony: promises are modelled by their eventual outcome, and the order in which handlers run by the order of effects. Settlement and timer firing are explicit events.
- `setTimeout`, `clearTimeout` and `new Date().getTime()`: the clock is the parameter `now`. Timers are the `ArmTimer` action plus a count of live timers.
- Timer timing: a `Fire` event may carry any non-negative `now`. The model does not require the clock to move forward or the timer to fire after its delay; no proven property depends on either.
- `BinaryHeap` from `cdata`: its source is not part of this model. It is specified as a sequence whose top has least stamp. Ties go to the earliest inserted task, and no property relies on that tie order.
- `wrap` (src/TaskQueue.ts:65-72): a variadic adapter that only calls `add` with delay 0.
- Number semantics: the `~~` 32-bit truncation of the timer delay and floating-point numbers. Stamps and delays are unbounded integers, and `!delay` is read as `delay == 0`.
- Runtime changes to `concurrency` and `unblock` in traces: both can break the strict bound by design, so `Traces` has no event for them. `Unblock` and `UnblockSettled` are stated on their own. Each outstanding `unblock` can push `busyCount` one past the limit, so nested unblocks add up: with limit 1, two nested unblocks that each start a task leave `busyCount` at 3 once both settle.
- Reentrancy: work that calls back into the queue while it is being started is not modelled.
- Traces.NeverStalls: states only that some settlement or timer event can still happen. It does not prove that every task eventually runs, since that needs a fairness assumption about the environment.

## Findings

| source | as written | input that shows it | evidently intended | confidence | as-written member | corrected member |
|---|---|---|---|---|---|---|
| src/TaskQueue.ts:36-46 | when `add` defers a task (nonzero delay, or no free slot), it only inserts it into the backlog and never calls `next`, so no timer is armed | on a new queue with limit 1 at time 0, `add(func, 10)`: nothing is running and no timer is armed, so `func` never runs unless a later submission is admitted at once (delay 0 and a free slot) and then settles, since a later deferred submission does not call `next` either | after inserting, run `next(0)`, so that the task starts or a timer is armed for it | high; not executed | Traces.AsWrittenDelayedAddStalls | TaskQueue.AddAndWake |

With `add` as written, `Traces.ReplayAsWritten` still proves the concurrency
bound and the single live timer for every reachable state, but not the absence
of a stall. For the corrected `add`, `Traces.Replay` proves the invariant of
every reachable state, including "something is still coming to call `next`
while tasks wait". `Traces.NeverStalls` turns that invariant into the absence of a
stall. `Traces.IntendedDelayedAddArmsTimer` shows the corrected `add` on the
same input that `Traces.AsWrittenDelayedAddStalls` uses.
