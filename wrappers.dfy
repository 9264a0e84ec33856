/** The nullable references of the Java code become `Option` values. */
module Wrappers {

  datatype Option<+T> = None | Some(value: T)
}
