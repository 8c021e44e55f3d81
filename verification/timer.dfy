/** The timed-wait primitive: a computation that stays pending until a given
    amount of clock time has passed since it was created.

    The clock is an integer count of time units read by the caller and passed
    in; the model never reads a clock of its own. */
module Timer {
  import opened Futures

  /** A timed wait: the clock reading when it was created and the duration to
      wait. The duration may be zero or negative, in which case the wait is over
      at its first poll. */
  datatype TimerDelayFuture = TimerDelayFuture(startTime: int, time: int)

  /** True when at least `t.time` units have passed since `t.startTime`. */
  predicate Elapsed(t: TimerDelayFuture, now: int)
  {
    now - t.startTime >= t.time
  }

  /** Polls the wait at clock reading `now`. A pending wait keeps its state:
      the deadline is fixed at creation and never drifts. */
  function PollTimer(t: TimerDelayFuture, now: int): (p: Poll<TimerDelayFuture>)
    ensures p.Ready? <==> Elapsed(t, now)
    ensures p.Pending? ==> p.next == t
  {
    if now - t.startTime >= t.time then Ready else Pending(t)
  }

  /** Creates a wait of `time` units that starts at clock reading `now`. */
  function WaitSeconds(time: int, now: int): (t: TimerDelayFuture)
    ensures t.startTime == now
    ensures forall later :: Elapsed(t, later) <==> later >= now + time
  {
    TimerDelayFuture(now, time)
  }

  /** A wait created at `start` for `d` units is ready at `now` exactly when
      `now` has reached the deadline `start + d`. */
  lemma WaitSecondsReadyIff(d: int, start: int, now: int)
    ensures PollTimer(WaitSeconds(d, start), now).Ready? <==> now >= start + d
  {
  }

  /** With a clock that never goes backwards, a wait that has become ready
      stays ready at every later reading. */
  lemma TimerStaysReady(t: TimerDelayFuture, now: int, later: int)
    requires now <= later
    requires PollTimer(t, now).Ready?
    ensures PollTimer(t, later).Ready?
  {
  }

}
