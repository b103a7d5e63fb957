/** A minimal optional-value datatype shared by the game modules. */
module Wrappers {

  /** `None` stands for "no value was produced"; `Some(v)` carries the value. */
  datatype Option<+T> = None | Some(value: T)
}
