/** Optional values: `None` stands for "no result", used where the modelled
    code aborts or throws instead of returning. */
module Wrappers {
  datatype Option<+T> = None | Some(value: T)
}
