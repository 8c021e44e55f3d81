/** Concrete tasks run by the registry, and what happens to them over a run of
    ticks. A tick is one `Update` at one clock reading.

    `Countdown(n)` stands for a computation that suspends `n` times before it
    completes: `Countdown(0)` completes on its first resumption and
    `Countdown(1)` is a yield-once. `Wait` is the timed-wait primitive. */
module Tasks {
  import opened Futures
  import opened Timer
  import opened Coroutines

  datatype Task = Countdown(remaining: nat) | Wait(timer: TimerDelayFuture)

  /** Resumes a task once at clock reading `now`. */
  function PollTask(task: Task, now: int): Poll<Task>
  {
    match task
    case Countdown(n) => if n == 0 then Ready else Pending(Countdown(n - 1))
    case Wait(t) =>
      match PollTimer(t, now)
      case Ready => Ready
      case Pending(t') => Pending(Wait(t'))
  }

  /** One tick of the registry at clock reading `now`. */
  function Tick(ctx: Context<Task>, now: int): Context<Task>
  {
    Update(ctx, t => PollTask(t, now)).0
  }

  /** One tick per clock reading in `times`, in order. */
  function RunTicks(ctx: Context<Task>, times: seq<int>): (r: Context<Task>)
    ensures |r.futures| == |ctx.futures|
    decreases |times|
  {
    if |times| == 0 then ctx else RunTicks(Tick(ctx, times[0]), times[1..])
  }

  /** The clock never goes backwards over the run. */
  predicate Monotone(times: seq<int>)
  {
    forall i, j :: 0 <= i <= j < |times| ==> times[i] <= times[j]
  }

  /** The slot of `h` after one tick at `now`: emptied if its task answered
      `Ready`, holding the task's next state if it answered `Pending`, and
      still empty if it was empty. */
  lemma TickSlot(ctx: Context<Task>, h: Coroutine, now: int)
    requires Valid(ctx, h)
    ensures Valid(Tick(ctx, now), h)
    ensures ctx.futures[h.id].None? ==> Tick(ctx, now).futures[h.id] == None
    ensures ctx.futures[h.id].Some? && PollTask(ctx.futures[h.id].value, now).Ready? ==>
              Tick(ctx, now).futures[h.id] == None
    ensures ctx.futures[h.id].Some? && PollTask(ctx.futures[h.id].value, now).Pending? ==>
              Tick(ctx, now).futures[h.id] == Some(PollTask(ctx.futures[h.id].value, now).next)
  {
  }

  /** A slot that is empty stays empty over any run of ticks. */
  lemma {:induction false} RunTicksKeepsDone(ctx: Context<Task>, h: Coroutine, times: seq<int>)
    requires Valid(ctx, h) && IsDone(ctx, h)
    ensures Valid(RunTicks(ctx, times), h) && IsDone(RunTicks(ctx, times), h)
    decreases |times|
  {
    if |times| > 0 {
      UpdateKeepsDone(ctx, h, t => PollTask(t, times[0]));
      RunTicksKeepsDone(Tick(ctx, times[0]), h, times[1..]);
    }
  }

  /** A task that suspends `k` times is done after a run of ticks exactly when
      the run has more than `k` ticks; until then it sits in its slot with
      one fewer suspension left per tick. */
  lemma {:induction false} CountdownLifetime(ctx: Context<Task>, h: Coroutine, k: nat, times: seq<int>)
    requires Valid(ctx, h) && ctx.futures[h.id] == Some(Countdown(k))
    ensures Valid(RunTicks(ctx, times), h)
    ensures IsDone(RunTicks(ctx, times), h) <==> |times| > k
    ensures |times| <= k ==> RunTicks(ctx, times).futures[h.id] == Some(Countdown(k - |times|))
    decreases |times|
  {
    if |times| > 0 {
      var next := Tick(ctx, times[0]);
      TickSlot(ctx, h, times[0]);
      if k == 0 {
        RunTicksKeepsDone(next, h, times[1..]);
      } else {
        CountdownLifetime(next, h, k - 1, times[1..]);
      }
    }
  }

  /** A task that completes on its first resumption is not done when started
      and is done after exactly one tick. */
  lemma ReadyTaskDoneAfterOneTick(ctx: Context<Task>, now: int)
    ensures !IsDone(Start(ctx, Countdown(0)).0, Start(ctx, Countdown(0)).1)
    ensures IsDone(RunTicks(Start(ctx, Countdown(0)).0, [now]), Start(ctx, Countdown(0)).1)
  {
    var (c, h) := Start(ctx, Countdown(0));
    CountdownLifetime(c, h, 0, [now]);
  }

  /** A yield-once completes on its second resumption, never on its first. */
  lemma YieldOnceDoneAfterTwoTicks(ctx: Context<Task>, t1: int, t2: int)
    ensures !IsDone(RunTicks(Start(ctx, Countdown(1)).0, [t1]), Start(ctx, Countdown(1)).1)
    ensures IsDone(RunTicks(Start(ctx, Countdown(1)).0, [t1, t2]), Start(ctx, Countdown(1)).1)
  {
    var (c, h) := Start(ctx, Countdown(1));
    CountdownLifetime(c, h, 1, [t1]);
    CountdownLifetime(c, h, 1, [t1, t2]);
  }

  /** A timed wait is done after a run of ticks exactly when one of the ticks'
      clock readings had reached its deadline; until then it stays in its slot
      unchanged. This holds for any clock, monotone or not. */
  lemma {:induction false} WaitLifetime(ctx: Context<Task>, h: Coroutine, t: TimerDelayFuture, times: seq<int>)
    requires Valid(ctx, h) && ctx.futures[h.id] == Some(Wait(t))
    ensures Valid(RunTicks(ctx, times), h)
    ensures IsDone(RunTicks(ctx, times), h) <==> exists j :: 0 <= j < |times| && Elapsed(t, times[j])
    ensures !IsDone(RunTicks(ctx, times), h) ==> RunTicks(ctx, times).futures[h.id] == Some(Wait(t))
    decreases |times|
  {
    if |times| > 0 {
      var next := Tick(ctx, times[0]);
      TickSlot(ctx, h, times[0]);
      if Elapsed(t, times[0]) {
        RunTicksKeepsDone(next, h, times[1..]);
      } else {
        WaitLifetime(next, h, t, times[1..]);
        if exists j :: 0 <= j < |times| && Elapsed(t, times[j]) {
          var j :| 0 <= j < |times| && Elapsed(t, times[j]);
          assert times[1..][j - 1] == times[j];
        }
      }
    }
  }

  /** With a clock that never goes backwards, a wait of `d` units started at
      clock reading `start` is done after a non-empty run of ticks exactly when
      the last reading is at least `start + d`. */
  lemma WaitDoneIffDeadlineReached(ctx: Context<Task>, d: int, start: int, times: seq<int>)
    requires Monotone(times) && |times| > 0
    ensures IsDone(RunTicks(Start(ctx, Wait(WaitSeconds(d, start))).0, times),
                   Start(ctx, Wait(WaitSeconds(d, start))).1)
            <==> times[|times| - 1] >= start + d
  {
    var t := WaitSeconds(d, start);
    var (c, h) := Start(ctx, Wait(t));
    WaitLifetime(c, h, t, times);
    if exists j :: 0 <= j < |times| && Elapsed(t, times[j]) {
      var j :| 0 <= j < |times| && Elapsed(t, times[j]);
      TimerStaysReady(t, times[j], times[|times| - 1]);
    }
  }

}
