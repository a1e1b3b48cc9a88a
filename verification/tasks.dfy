/** The outcome adapter of the queue: `tryFinally` and the `Task` wrapper.

    A promise is modelled by the outcome it eventually settles with; the
    handlers attached to it are modelled as the ordered list of effects they
    produce once it settles. Promise and task identity (object identity in
    the TypeScript library) are modelled as natural-number ids.
 */
module Tasks {

  datatype Option<T> = None | Some(value: T)

  /** The eventual settlement of a promise. */
  datatype Outcome<V, E> = Ok(value: V) | Err(error: E)

  /** What calling the submitted function does: it either returns (a value or
      a promise, which `Promise.resolve` adopts; `settlesAs` is what that
      eventually settles with) or throws synchronously. */
  datatype Call<V, E> = Returns(settlesAs: Outcome<V, E>) | Throws(thrown: E)

  /** Identity of a promise created by `Task.delay`. */
  type PromiseId = nat

  /** Observable effect of a handler attached to a settled promise. */
  datatype Effect<V, E> =
    | Finished                                   // the `onFinish` hook ran
    | Resolved(target: PromiseId, value: V)      // captured `resolve` of `target` ran
    | Rejected(target: PromiseId, reason: E)     // captured `reject` of `target` ran

  /** A promise returned by `tryFinally` together with the effects its
      handlers produce, in the order they were attached. */
  datatype Settlement<V, E> = Settlement(promise: Outcome<V, E>, effects: seq<Effect<V, E>>)

  /** Number of times the `onFinish` hook runs. */
  function FinishCount<V, E>(effects: seq<Effect<V, E>>): nat
  {
    if |effects| == 0 then 0
    else (if effects[0].Finished? then 1 else 0) + FinishCount(effects[1..])
  }

  /** The outcome the promise `p` is settled with by these effects: the first
      resolve or reject aimed at it (a promise ignores later ones). */
  function DeliveredTo<V, E>(effects: seq<Effect<V, E>>, p: PromiseId): Option<Outcome<V, E>>
  {
    if |effects| == 0 then None
    else match effects[0]
      case Resolved(q, v) => if q == p then Some(Ok(v)) else DeliveredTo(effects[1..], p)
      case Rejected(q, e) => if q == p then Some(Err(e)) else DeliveredTo(effects[1..], p)
      case Finished => DeliveredTo(effects[1..], p)
  }

  /** The effect of the captured handles of `p` when they observe `o`. */
  function Forward<V, E>(p: PromiseId, o: Outcome<V, E>): Effect<V, E>
  {
    match o
    case Ok(v) => Resolved(p, v)
    case Err(e) => Rejected(p, e)
  }

  /** Call the function and return a promise for its result; `onFinish` runs
      on either outcome, and when `handles` is present the outcome is also
      forwarded to the promise whose resolve/reject were captured. */
  function TryFinally<V, E>(call: Call<V, E>, handles: Option<PromiseId>): (r: Settlement<V, E>)
    // a synchronous throw becomes a rejection carrying the thrown value
    ensures call.Throws? ==> r.promise == Err(call.thrown)
    // otherwise the returned promise settles as the work's own promise does
    ensures call.Returns? ==> r.promise == call.settlesAs
    // the finally hook runs exactly once, whatever the outcome
    ensures FinishCount(r.effects) == 1
    // the outcome reaches the captured handles, unchanged, and nothing else
    ensures forall p: PromiseId :: DeliveredTo(r.effects, p) == (if handles == Some(p) then Some(r.promise) else None)
  {
    var promise := match call
      case Returns(o) => o
      case Throws(e) => Err(e);
    var forwarded := match handles
      case Some(p) => [Forward(p, promise)]
      case None => [];
    var effects := [Finished] + forwarded;
    assert effects[1..] == forwarded;
    assert FinishCount(forwarded) == 0 by {
      if |forwarded| == 1 { assert forwarded[1..] == []; }
    }
    assert forall p: PromiseId :: DeliveredTo(forwarded, p) == (if handles == Some(p) then Some(promise) else None) by {
      if |forwarded| == 1 { assert forwarded[1..] == []; }
    }
    Settlement(promise, effects)
  }

  /** A unit of work waiting in the backlog until it may start. */
  datatype Task<V, E> = Task(id: nat, call: Call<V, E>, stamp: int, deferred: Option<PromiseId>)

  /** A freshly constructed task: no outward promise has been created yet. */
  function NewTask<V, E>(id: nat, call: Call<V, E>, stamp: int): (t: Task<V, E>)
    ensures t.id == id && t.call == call && t.stamp == stamp
    ensures t.deferred.None?
  {
    Task(id, call, stamp, None)
  }

  datatype DelayResult<V, E> = DelayResult(task: Task<V, E>, promise: PromiseId)

  /** Return the task's outward promise, creating it (as `newPromise`) and
      capturing its resolve/reject only on the first call. */
  function Delay<V, E>(t: Task<V, E>, newPromise: PromiseId): (r: DelayResult<V, E>)
    // the handles are bound to exactly the promise handed out
    ensures r.task.deferred == Some(r.promise)
    // only the handles change: the work and the stamp are fixed at construction
    ensures r.task.id == t.id && r.task.call == t.call && r.task.stamp == t.stamp
    // an existing promise is returned again and nothing is rebound
    ensures t.deferred.Some? ==> r.task == t && r.promise == t.deferred.value
    // otherwise the new promise is the one created now
    ensures t.deferred.None? ==> r.promise == newPromise
  {
    match t.deferred
    case Some(p) => DelayResult(t, p)
    case None => DelayResult(t.(deferred := Some(newPromise)), newPromise)
  }

  /** A second `delay()` returns the same promise and leaves the task as the
      first call left it, whatever promise it would otherwise have created. */
  lemma DelayIdempotent<V, E>(t: Task<V, E>, first: PromiseId, second: PromiseId)
    ensures Delay(Delay(t, first).task, second) == Delay(t, first)
  {
  }

  /** Start the task: run its work with `onFinish` and forward the outcome to
      the captured handles, if `delay()` was ever called. */
  function Resume<V, E>(t: Task<V, E>): (r: Settlement<V, E>)
    ensures FinishCount(r.effects) == 1
    ensures t.call.Throws? ==> r.promise == Err(t.call.thrown)
    ensures t.call.Returns? ==> r.promise == t.call.settlesAs
    // a task whose promise was handed out delivers its outcome to it
    ensures t.deferred.Some? ==> DeliveredTo(r.effects, t.deferred.value) == Some(r.promise)
    // a task never delayed forwards its outcome nowhere
    ensures t.deferred.None? ==> forall p: PromiseId :: DeliveredTo(r.effects, p).None?
  {
    TryFinally(t.call, t.deferred)
  }
}
