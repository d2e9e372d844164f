/** The `T | null` fields of the records the screens receive. */
module Nullable {

  datatype Option<+T> = None | Some(value: T)
}
