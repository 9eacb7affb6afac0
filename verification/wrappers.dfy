/** The nullable results of the status-store queries (`MediaStatus?` in the source). */
module Wrappers {
  datatype Option<+T> = None | Some(value: T)
}
