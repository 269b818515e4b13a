/** Option, used where the source returns nullptr / an invalid index or
    aborts, so that the failure path is modelled instead of excluded. */
module Wrappers {

  datatype Option<+T> = None | Some(value: T)
}
