/** Optional values: `None` stands for JavaScript's `null` and for a computation
    that produced no number (NaN or a division by zero). */
module Wrappers {

  datatype Option<+T> = None | Some(value: T)

}
