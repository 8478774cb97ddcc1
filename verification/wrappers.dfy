/** Optional values. `None` stands for JavaScript's `undefined`: an option the
    caller left out, a module variable not yet set by `init`, or an array read
    past the end. */
module Wrappers {

  datatype Option<+T> = None | Some(value: T)
}
