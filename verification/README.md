# Coroutine registry of macroquad, modelled in Dafny

macroquad lets application code be written as sequential `async` code that
suspends across frames. The piece that makes this work is a small
single-threaded, cooperative scheduler in `src/experimental/coroutines.rs`.
`CoroutinesContext` keeps a vector of slots, and each slot holds a suspended
task or nothing. The frame loop calls `update` once per frame, and `update`
resumes every occupied slot once, in index order. `start_coroutine` appends a
slot and returns a `Coroutine` handle, which is just the slot's index.
`Coroutine::is_done` asks whether the slot is empty. `stop_coroutine` empties
one slot, and `stop_all_coroutines` clears the whole vector. `wait_seconds`
builds a `TimerDelayFuture`, a task that stays pending until a given time has
passed since it was created.

The model is pure and functional:

- `futures.dfy` (`Futures`): `Option` for a slot and `Poll` for the answer of
  one resumption (`Ready`, or `Pending` with the task's next state).
- `coroutines.dfy` (`Coroutines`): the registry `Context<T>` is a
  `seq<Option<T>>`, and a `Coroutine` is a slot index. A task is an opaque
  state of type `T`, and resuming it is a caller-supplied function
  `poll: T -> Poll<T>`. This module holds `New`, `Start`, `Update`, `IsDone`,
  `Stop` and `StopAll`. `Update` also returns the indices it resumed, in the
  order it resumed them, so that the resumption order can be stated.
- `timer.dfy` (`Timer`): `TimerDelayFuture`, `PollTimer` and `WaitSeconds`.
  The clock is an integer reading that the caller passes in.
- `tasks.dfy` (`Tasks`): a concrete task type. `Countdown(n)` suspends `n`
  times and then completes (`Countdown(1)` is a yield-once). `Wait` is a timed
  wait. This module also defines ticks at given clock readings and lemmas
  about what a run of ticks does to a task.

`Coroutine::is_done` is the predicate `Coroutines.IsDone`. `IsDoneIffNotResumed`
ties it to the scheduler: a handle is done exactly when the next tick does not
resume its slot.

`Update` computes the tick slot by slot. `UpdateLoop` is the source's loop
written as a left-to-right pass: each step resumes one slot and records its
index. `UpdateLoopIsUpdate` proves the two equal in both the new slots and the
list of resumed indices. So the list that `Update` returns is the order in
which the loop resumes the tasks.

### Handles after a full reset

`stop_all_coroutines` calls `Vec::clear` (`coroutines.rs:68`). After that, an
old handle indexes past the end of the vector in `is_done` (`:46`) and in
`stop_coroutine` (`:74`). The next `start_coroutine` returns id 0 again (`:61`).
The model keeps this behaviour:

- `IsDone` and `Stop` require `Valid(ctx, h)`, meaning `h.id < |futures|`.
- `StopAll` leaves no slots, and its contract says that no earlier handle is
  valid afterwards.
- `StopAllReusesIds` shows that an old handle with id 0 becomes valid again
  after the next start, and that it then reports on the new, unrelated task.

## Model

| member | source | states |
|---|---|---|
| Coroutines.New | src/experimental/coroutines.rs:17-21 | a new registry has no slots, so no handle is valid in it |
| Coroutines.Start | src/experimental/coroutines.rs:50-63 | appends exactly one slot, holding the task; the handle's id is the old length; earlier slots are unchanged; the new handle is not done; every earlier handle stays valid and keeps its done status |
| Coroutines.StartMany | src/experimental/coroutines.rs:56-62 | starting tasks one after another issues handles with consecutive, strictly increasing ids from the old length, each slot holding its own task |
| Coroutines.Update | src/experimental/coroutines.rs:23-34 | keeps the number of slots; after the tick a slot is empty iff it was empty or its task answered Ready; a pending task stays in its slot with its advanced state; exactly the occupied slots are resumed, each once, in ascending index order |
| Coroutines.IsDone | src/experimental/coroutines.rs:43-47 | needs a handle inside the slot vector; true when its slot is empty |
| Coroutines.IsDoneIffNotResumed | src/experimental/coroutines.rs:43-47 | a handle is done exactly when the next tick does not resume its slot |
| Coroutines.Resume | src/experimental/coroutines.rs:25-31 | an occupied slot whose task answers Ready becomes empty; a pending task is stored back with its next state; an empty slot stays empty |
| Coroutines.UpdateFrom | src/experimental/coroutines.rs:24-33 | the loop from slot i onward, visiting slots left to right, resuming each one and recording its index in the same step when it was occupied |
| Coroutines.UpdateLoop | src/experimental/coroutines.rs:24-33 | one full left-to-right pass of the loop over the registry, from slot 0 with nothing done and nothing recorded |
| Coroutines.UpdateFromIsUpdate | src/experimental/coroutines.rs:24-33 | finishing the loop from slot i, after the earlier slots were resumed in place and their occupied indices recorded, gives the pointwise tick and all occupied indices in ascending order |
| Coroutines.UpdateLoopIsUpdate | src/experimental/coroutines.rs:24-33 | the left-to-right loop, which resumes each slot and records its index in the same step, gives the same slots and the same resumed-index list as `Update` |
| Coroutines.Occupied | src/experimental/coroutines.rs:24-25 | the slots a tick resumes are exactly the occupied ones, each listed once, in strictly ascending index order |
| Coroutines.UpdateKeepsDone | src/experimental/coroutines.rs:24-31 | an empty slot is never refilled by a tick |
| Coroutines.AllOccupiedPolledInOrder | src/experimental/coroutines.rs:24-33 | when every slot is occupied, the tick resumes slots 0, 1, ..., n-1 in that order |
| Coroutines.ResumeOrderIsStartOrder | src/experimental/coroutines.rs:23-34 | tasks started in order into a registry with no slots (new or just reset) get ids 0, 1, 2, ..., and the next tick resumes them in the order they were started |
| Coroutines.Stop | src/experimental/coroutines.rs:71-75 | needs a handle inside the slot vector; afterwards the handle is done, the number of slots is unchanged and every other slot is untouched |
| Coroutines.StopIdempotent | src/experimental/coroutines.rs:74 | stopping the same handle twice is the same as stopping it once |
| Coroutines.StopAll | src/experimental/coroutines.rs:65-69 | leaves no slots, so every previously issued handle is out of bounds |
| Coroutines.StopAllReusesIds | src/experimental/coroutines.rs:56-68 | after a reset the next start gets id 0 again; an old id-0 handle becomes valid once more and reports the new task as not done |
| Timer.PollTimer | src/experimental/coroutines.rs:86-92 | the wait is Ready iff the time since its start has reached its duration; a pending wait keeps its start and duration |
| Timer.WaitSeconds | src/experimental/coroutines.rs:95-100 | the wait starts at the current clock reading and has elapsed at exactly the readings at or after start plus duration |
| Timer.WaitSecondsReadyIff | src/experimental/coroutines.rs:86-100 | a wait created at `start` for `d` units polls Ready at `now` iff `now >= start + d` |
| Timer.TimerStaysReady | src/experimental/coroutines.rs:87-88 | with a clock that does not go backwards, a wait that is Ready stays Ready at every later reading |
| Tasks.Tick | src/experimental/coroutines.rs:23-34 | one `update` call, with every task resumed at the same clock reading |
| Tasks.RunTicks | src/experimental/coroutines.rs:23-34 | any run of ticks keeps the number of slots, so handles stay valid |
| Tasks.TickSlot | src/experimental/coroutines.rs:25-31 | after one tick a handle's slot is empty if it was empty or its task answered Ready, and otherwise holds the task's next state |
| Tasks.RunTicksKeepsDone | src/experimental/coroutines.rs:29-31 | a done task stays done over any run of ticks |
| Tasks.CountdownLifetime | src/experimental/coroutines.rs:29-31 | a task that suspends k times is done after a run of ticks iff the run has more than k ticks; before that it holds k minus the number of ticks so far |
| Tasks.ReadyTaskDoneAfterOneTick | src/experimental/coroutines.rs:29-31 | a task that completes on its first resumption is not done when started and is done after exactly one tick |
| Tasks.YieldOnceDoneAfterTwoTicks | src/experimental/coroutines.rs:29-31 | a yield-once is still pending after one tick and done after two |
| Tasks.WaitLifetime | src/experimental/coroutines.rs:86-92 | a timed wait in a slot is done after a run of ticks iff some tick's clock reading reached its deadline; until then its slot holds it unchanged |
| Tasks.WaitDoneIffDeadlineReached | src/experimental/coroutines.rs:95-100 | with a clock that does not go backwards, a wait of d units started at `start` is done after a run of ticks iff the last reading is at least `start + d` |

## Left out

- The Rust `Future`/`Pin`/`Context` machinery, the `ExecState::RunOnce` token
  written before each poll (lines 26 and 58), and the `transmute` casts
  (lines 28 and 54) are left out. A task is an opaque state with a pure poll
  function. The token carries no information the model needs.
- The global `get_context()` lookup is left out. The registry is an explicit
  value that each operation takes and returns.
- Calls to `start_coroutine`, `stop_coroutine`, `stop_all_coroutines` or
  `is_done` made by a task while `update` is iterating are left out. Each of
  them reaches the vector that `update` is looping over through
  `get_context()` (`:44`, `:51`, `:66`, `:72`), which is aliased global
  mutable state. In the model a task's poll is a function of the task's own
  state only, so it can neither see nor change the registry. `Update` resumes
  every slot that is occupied when the tick starts. In the source, a task that
  stops a later slot (`:74`) keeps that slot from being resumed in the same
  tick, and `is_done` called from inside a task sees the earlier slots
  already advanced and the later ones not yet.
- `Vec::with_capacity(1000)` in `new` is left out. It only reserves memory and
  sets no limit on the number of slots.
- The clock is left out. `miniquad::date::now()` becomes a parameter, and the
  `f64` start time and `f32` duration become integers in clock units.
  Floating-point rounding in `now - start_time >= time as f64` is not
  modelled.
- A `TimerDelayFuture` never sits in a slot by itself. Its output is
  `Option<()>` (`:84`), and `start_coroutine` accepts only futures with output
  `()` (`:50`). `Tasks.Wait` in a slot stands for a coroutine that awaits a
  wait created beforehand. When a coroutine's body calls `wait_seconds`
  itself, the start time is the clock reading at the resumption that reaches
  that call, not the reading at `start_coroutine`. The model does not track
  what a coroutine does before its wait.
- Tasks.Tick: gives every task one clock reading per tick. The source reads
  `miniquad::date::now()` at every poll (`:87`), so two waits resumed in the
  same tick can see different readings. The lemmas about a single wait do not
  depend on this.
- Ids are unbounded naturals. `usize` overflow of `len() - 1` cannot happen
  in the source, because the vector is non-empty right after the push.
- A yield-once primitive is not defined in `coroutines.rs`. `Tasks.Countdown`
  stands in for it and for any task that suspends a fixed number of times.
