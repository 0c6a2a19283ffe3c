/** Optional values. `None` stands for a missing table entry, a conversion
    that threw an `Exception`, or a row that `parseRow` returned as `null`. */
module Wrappers {

  datatype Option<+T> = None | Some(value: T)
}
