/** The two small sum types the scheduler is built from: an occupied-or-empty
    slot, and the answer a suspended computation gives when it is resumed once. */
module Futures {

  /** A registry slot: `Some(task)` while the task is alive, `None` once it has
      completed or been stopped. */
  datatype Option<+T> = None | Some(value: T)

  /** The outcome of resuming a computation once. `Pending` carries the
      computation's saved state, which is what the next resumption starts from;
      `Ready` means it has run to completion and has no state left. */
  datatype Poll<+T> = Ready | Pending(next: T)

}
