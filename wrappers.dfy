/** Absent-or-present results: `None` stands for the Java `null` that a lookup returns. */
module Wrappers {

  datatype Option<+T> = None | Some(value: T)

}
