/** What all modules share. */
module Basics {
  newtype byte = x: int | 0 <= x < 256

  datatype Option<+T> = None | Some(value: T)

  /** The most input that is kept back at a time (crates/client/src/input.rs). */
  const RESUME_INPUT_BOUND: nat := 1024 * 1024 - 1024
}
