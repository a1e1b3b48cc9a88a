/** The backlog: a priority queue of waiting tasks ordered by `stamp`.

    The binary heap cwait uses is specified abstractly: its contents are a
    sequence in insertion order, and the top is the task of least stamp. Among
    equal stamps this model picks the earliest inserted one; the heap itself
    leaves that order unspecified, so no property below depends on it.
 */
module Backlog {
  import opened Tasks

  /** `s` is the least stamp in `b`. */
  ghost predicate IsMinStamp<V, E>(b: seq<Task<V, E>>, s: int)
  {
    && (exists j :: 0 <= j < |b| && b[j].stamp == s)
    && (forall j :: 0 <= j < |b| ==> s <= b[j].stamp)
  }

  /** Position of the top of the heap: a task of least stamp. */
  function TopIndex<V, E>(b: seq<Task<V, E>>): (k: nat)
    requires |b| > 0
    ensures k < |b|
    ensures forall j :: 0 <= j < |b| ==> b[k].stamp <= b[j].stamp
    // ties go to the earliest inserted task
    ensures forall j :: 0 <= j < k ==> b[k].stamp < b[j].stamp
  {
    if |b| == 1 then 0
    else
      var k := TopIndex(b[..|b| - 1]);
      if b[|b| - 1].stamp < b[k].stamp then |b| - 1 else k
  }

  /** The least stamp waiting in a non-empty backlog. */
  function MinStamp<V, E>(b: seq<Task<V, E>>): (s: int)
    requires |b| > 0
    ensures IsMinStamp(b, s)
  {
    b[TopIndex(b)].stamp
  }

  /** `peekTop`: the task of least stamp, without removing it. */
  function PeekTop<V, E>(b: seq<Task<V, E>>): (r: Option<Task<V, E>>)
    ensures r.None? <==> |b| == 0
    ensures r.Some? ==> r.value in b && IsMinStamp(b, r.value.stamp)
  {
    if |b| == 0 then None else Some(b[TopIndex(b)])
  }

  /** `insert`: add one task. */
  function Insert<V, E>(b: seq<Task<V, E>>, t: Task<V, E>): (r: seq<Task<V, E>>)
    ensures multiset(r) == multiset(b) + multiset{t}
    ensures |r| == |b| + 1
    ensures forall j :: 0 <= j < |b| ==> r[j] == b[j]
    ensures r[|b|] == t
  {
    b + [t]
  }

  /** The backlog without its `k`-th element, order otherwise kept. */
  function RemoveAt<V, E>(b: seq<Task<V, E>>, k: nat): (r: seq<Task<V, E>>)
    requires k < |b|
    ensures |r| == |b| - 1
    ensures multiset(r) + multiset{b[k]} == multiset(b)
    ensures forall j :: 0 <= j < |r| ==> r[j] == (if j < k then b[j] else b[j + 1])
  {
    assert b == b[..k] + [b[k]] + b[k + 1..];
    b[..k] + b[k + 1..]
  }

  datatype Extracted<V, E> = Extracted(top: Task<V, E>, rest: seq<Task<V, E>>)

  /** `extractTop`: remove and return the task `peekTop` would show. */
  function ExtractTop<V, E>(b: seq<Task<V, E>>): (r: Extracted<V, E>)
    requires |b| > 0
    // it is the very task peeked at
    ensures PeekTop(b) == Some(r.top)
    ensures IsMinStamp(b, r.top.stamp)
    // exactly that one task leaves; the others stay
    ensures multiset(r.rest) + multiset{r.top} == multiset(b)
    ensures |r.rest| == |b| - 1
  {
    var k := TopIndex(b);
    Extracted(b[k], RemoveAt(b, k))
  }
}
