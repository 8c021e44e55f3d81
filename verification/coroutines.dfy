/** The coroutine registry: a sequence of slots, each holding a suspended task
    or nothing, driven one resumption per slot per call to `Update`.

    Tasks are opaque: the registry only ever hands a task's state to a poll
    function and stores the state that comes back. A handle (`Coroutine`) is
    the index of its slot. */
module Coroutines {
  import opened Futures

  /** The registry. `futures[i]` is the slot with index `i`. */
  datatype Context<T> = Context(futures: seq<Option<T>>)

  /** A handle on a started task: the index of its slot. */
  datatype Coroutine = Coroutine(id: nat)

  /** The handle indexes an existing slot of `ctx`; querying or stopping any
      other handle is an out-of-bounds access. */
  predicate Valid<T>(ctx: Context<T>, h: Coroutine)
  {
    h.id < |ctx.futures|
  }

  /** The task behind `h` has completed or has been stopped. */
  predicate IsDone<T>(ctx: Context<T>, h: Coroutine)
    requires Valid(ctx, h)
  {
    ctx.futures[h.id].None?
  }

  /** A fresh registry: no slots, so no handle is valid yet. */
  function New<T>(): (ctx: Context<T>)
    ensures |ctx.futures| == 0
    ensures forall h: Coroutine :: !Valid(ctx, h)
  {
    Context([])
  }

  /** Appends an occupied slot for `task` and returns the new registry together
      with a handle on that slot. */
  function Start<T>(ctx: Context<T>, task: T): (r: (Context<T>, Coroutine))
    ensures |r.0.futures| == |ctx.futures| + 1
    ensures r.1.id == |ctx.futures|
    ensures forall i :: 0 <= i < |ctx.futures| ==> r.0.futures[i] == ctx.futures[i]
    ensures Valid(r.0, r.1) && r.0.futures[r.1.id] == Some(task)
    ensures !IsDone(r.0, r.1)
    ensures forall h :: Valid(ctx, h) ==> Valid(r.0, h) && (IsDone(r.0, h) <==> IsDone(ctx, h))
  {
    var futures := ctx.futures + [Some(task)];
    (Context(futures), Coroutine(|futures| - 1))
  }

  /** Starts `tasks` one after another, in order, and returns the handles in
      the order they were issued. */
  function StartMany<T>(ctx: Context<T>, tasks: seq<T>): (r: (Context<T>, seq<Coroutine>))
    ensures |r.0.futures| == |ctx.futures| + |tasks|
    ensures |r.1| == |tasks|
    ensures forall i :: 0 <= i < |ctx.futures| ==> r.0.futures[i] == ctx.futures[i]
    ensures forall k :: 0 <= k < |tasks| ==> r.1[k].id == |ctx.futures| + k
    ensures forall k :: 0 <= k < |tasks| ==> r.0.futures[|ctx.futures| + k] == Some(tasks[k])
    decreases |tasks|
  {
    if |tasks| == 0 then (ctx, [])
    else
      var (mid, handles) := StartMany(ctx, tasks[..|tasks| - 1]);
      var (last, h) := Start(mid, tasks[|tasks| - 1]);
      (last, handles + [h])
  }

  /** Resumes the task in one slot once: a task that answers `Ready` leaves
      its slot empty, a pending one is stored back with its advanced state,
      and an empty slot is left alone. */
  function Resume<T>(slot: Option<T>, poll: T -> Poll<T>): (r: Option<T>)
    ensures r.None? <==> slot.None? || poll(slot.value).Ready?
    ensures r.Some? ==> r.value == poll(slot.value).next
  {
    match slot
    case None => None
    case Some(task) =>
      match poll(task)
      case Ready => None
      case Pending(next) => Some(next)
  }

  /** The indices of the occupied slots, in ascending order: the slots a tick
      resumes, in the order it resumes them. */
  function Occupied<T>(futures: seq<Option<T>>): (r: seq<nat>)
    ensures forall k :: 0 <= k < |r| ==> r[k] < |futures| && futures[r[k]].Some?
    ensures forall i :: 0 <= i < |futures| && futures[i].Some? ==> i in r
    ensures forall k, l :: 0 <= k < l < |r| ==> r[k] < r[l]
    decreases |futures|
  {
    if |futures| == 0 then []
    else
      var last := |futures| - 1;
      Occupied(futures[..last]) + (if futures[last].Some? then [last] else [])
  }

  /** One tick of the scheduler over the slots present when it starts. Each
      slot is resumed on its own, so the tick is a pointwise `Resume`; the
      second component lists the slots resumed, in the order they were
      resumed. */
  function Update<T>(ctx: Context<T>, poll: T -> Poll<T>): (r: (Context<T>, seq<nat>))
    ensures |r.0.futures| == |ctx.futures|
    ensures forall i :: 0 <= i < |ctx.futures| ==>
              (r.0.futures[i].None? <==> ctx.futures[i].None? || poll(ctx.futures[i].value).Ready?)
    ensures forall i :: 0 <= i < |ctx.futures| && r.0.futures[i].Some? ==>
              r.0.futures[i].value == poll(ctx.futures[i].value).next
    ensures forall k :: 0 <= k < |r.1| ==> r.1[k] < |ctx.futures| && ctx.futures[r.1[k]].Some?
    ensures forall i :: 0 <= i < |ctx.futures| && ctx.futures[i].Some? ==> i in r.1
    ensures forall k, l :: 0 <= k < l < |r.1| ==> r.1[k] < r.1[l]
  {
    var futures := ctx.futures;
    (Context(seq(|futures|, i requires 0 <= i < |futures| => Resume(futures[i], poll))), Occupied(futures))
  }

  /** The tick as the source's loop runs it: the slots from `i` on are
      visited left to right, and each visit resumes its slot and, if the slot
      was occupied, records its index in the same step. `done` and `polled`
      hold what the visits to slots `0 .. i - 1` produced. */
  function UpdateFrom<T>(futures: seq<Option<T>>, poll: T -> Poll<T>, i: nat,
                         done: seq<Option<T>>, polled: seq<nat>): (seq<Option<T>>, seq<nat>)
    requires i <= |futures|
    decreases |futures| - i
  {
    if i == |futures| then (done, polled)
    else
      UpdateFrom(futures, poll, i + 1, done + [Resume(futures[i], poll)],
                 polled + (if futures[i].Some? then [i] else []))
  }

  /** One full left-to-right pass of the loop over a registry. */
  function UpdateLoop<T>(ctx: Context<T>, poll: T -> Poll<T>): (Context<T>, seq<nat>)
  {
    var (done, polled) := UpdateFrom(ctx.futures, poll, 0, [], []);
    (Context(done), polled)
  }

  /** Visiting one more slot extends the list of occupied earlier indices by
      that slot's index exactly when it is occupied. */
  lemma OccupiedExtend<T>(futures: seq<Option<T>>, i: nat)
    requires i < |futures|
    ensures Occupied(futures[..i + 1]) == Occupied(futures[..i]) + (if futures[i].Some? then [i] else [])
  {
    assert futures[..i + 1][..i] == futures[..i];
  }

  /** Slots resumed one by one, in place, give the pointwise tick. */
  lemma ResumedAllIsUpdate<T>(futures: seq<Option<T>>, poll: T -> Poll<T>, done: seq<Option<T>>)
    requires |done| == |futures|
    requires forall j :: 0 <= j < |futures| ==> done[j] == Resume(futures[j], poll)
    ensures done == Update(Context(futures), poll).0.futures
  {
  }

  /** Finishing the loop from slot `i`, after the visits to the earlier slots
      have produced their pointwise results and recorded exactly the occupied
      earlier indices, yields the pointwise tick and the full list of occupied
      indices. */
  lemma {:induction false} UpdateFromIsUpdate<T>(futures: seq<Option<T>>, poll: T -> Poll<T>, i: nat,
                                                 done: seq<Option<T>>, polled: seq<nat>)
    requires i <= |futures|
    requires |done| == i
    requires forall j :: 0 <= j < i ==> done[j] == Resume(futures[j], poll)
    requires polled == Occupied(futures[..i])
    ensures UpdateFrom(futures, poll, i, done, polled).0 == Update(Context(futures), poll).0.futures
    ensures UpdateFrom(futures, poll, i, done, polled).1 == Occupied(futures)
    decreases |futures| - i
  {
    if i == |futures| {
      assert futures[..i] == futures;
      ResumedAllIsUpdate(futures, poll, done);
    } else {
      var done' := done + [Resume(futures[i], poll)];
      var polled' := polled + (if futures[i].Some? then [i] else []);
      OccupiedExtend(futures, i);
      UpdateFromIsUpdate(futures, poll, i + 1, done', polled');
    }
  }

  /** The loop, which resumes each slot and records its index in the same
      left-to-right step, computes exactly `Update`: the same new slots and
      the same list of resumed indices. So the list `Update` returns is the
      order in which the loop resumes the tasks. */
  lemma UpdateLoopIsUpdate<T>(ctx: Context<T>, poll: T -> Poll<T>)
    ensures UpdateLoop(ctx, poll) == Update(ctx, poll)
  {
    assert ctx.futures[..0] == [];
    UpdateFromIsUpdate(ctx.futures, poll, 0, [], []);
  }

  /** Empties the slot of `h`, whatever state its task was in. */
  function Stop<T>(ctx: Context<T>, h: Coroutine): (r: Context<T>)
    requires Valid(ctx, h)
    ensures |r.futures| == |ctx.futures|
    ensures Valid(r, h) && IsDone(r, h)
    ensures forall i :: 0 <= i < |ctx.futures| && i != h.id ==> r.futures[i] == ctx.futures[i]
  {
    Context(ctx.futures[h.id := None])
  }

  /** Drops every slot. The slot sequence becomes empty rather than all-empty,
      so every handle issued before is now out of bounds. */
  function StopAll<T>(ctx: Context<T>): (r: Context<T>)
    ensures |r.futures| == 0
    ensures forall h: Coroutine :: Valid(ctx, h) ==> !Valid(r, h)
  {
    Context([])
  }

  /** Stopping a task twice is the same as stopping it once. */
  lemma StopIdempotent<T>(ctx: Context<T>, h: Coroutine)
    requires Valid(ctx, h)
    ensures Stop(Stop(ctx, h), h) == Stop(ctx, h)
  {
  }

  /** A handle is done exactly when the next tick does not resume its slot. */
  lemma IsDoneIffNotResumed<T>(ctx: Context<T>, h: Coroutine, poll: T -> Poll<T>)
    requires Valid(ctx, h)
    ensures IsDone(ctx, h) <==> h.id !in Update(ctx, poll).1
  {
  }

  /** A slot that is empty stays empty across a tick, whatever the tasks do. */
  lemma UpdateKeepsDone<T>(ctx: Context<T>, h: Coroutine, poll: T -> Poll<T>)
    requires Valid(ctx, h) && IsDone(ctx, h)
    ensures Valid(Update(ctx, poll).0, h) && IsDone(Update(ctx, poll).0, h)
  {
  }

  /** When every slot is occupied, a tick resumes slot 0, then slot 1, and so
      on up to the last slot, each exactly once. */
  lemma {:induction false} AllOccupiedPolledInOrder<T>(ctx: Context<T>, poll: T -> Poll<T>)
    requires forall i :: 0 <= i < |ctx.futures| ==> ctx.futures[i].Some?
    ensures |Update(ctx, poll).1| == |ctx.futures|
    ensures forall k :: 0 <= k < |ctx.futures| ==> Update(ctx, poll).1[k] == k
    decreases |ctx.futures|
  {
    if |ctx.futures| > 0 {
      var last := |ctx.futures| - 1;
      var front := Context(ctx.futures[..last]);
      AllOccupiedPolledInOrder(front, poll);
      assert Occupied(ctx.futures) == Occupied(front.futures) + [last];
    }
  }

  /** Tasks started one after another into a registry with no slots (a new
      one, or one just reset by `StopAll`) receive the ids 0, 1, 2, ... and
      the next tick resumes them in exactly that order. */
  lemma ResumeOrderIsStartOrder<T>(ctx: Context<T>, tasks: seq<T>, poll: T -> Poll<T>)
    requires |ctx.futures| == 0
    ensures forall k :: 0 <= k < |tasks| ==> StartMany(ctx, tasks).1[k].id == k
    ensures |Update(StartMany(ctx, tasks).0, poll).1| == |tasks|
    ensures forall k :: 0 <= k < |tasks| ==>
              Update(StartMany(ctx, tasks).0, poll).1[k] == StartMany(ctx, tasks).1[k].id
  {
    var (started, handles) := StartMany(ctx, tasks);
    assert forall i :: 0 <= i < |started.futures| ==> started.futures[i] == Some(tasks[i]);
    AllOccupiedPolledInOrder(started, poll);
  }

  /** After `StopAll`, ids are handed out from 0 again: a handle issued before
      the reset with id 0 becomes valid again and now reports on the newly
      started, unrelated task, which is not done. */
  lemma StopAllReusesIds<T>(ctx: Context<T>, stale: Coroutine, task: T)
    requires Valid(ctx, stale) && stale.id == 0
    ensures !Valid(StopAll(ctx), stale)
    ensures Start(StopAll(ctx), task).1 == stale
    ensures Valid(Start(StopAll(ctx), task).0, stale) && !IsDone(Start(StopAll(ctx), task).0, stale)
  {
  }

}
