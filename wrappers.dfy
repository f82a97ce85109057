/** The `None`-or-value results the generator hands back. */
module Wrappers {

  datatype Option<+T> = None | Some(value: T)
}
