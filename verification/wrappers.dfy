/** The optional value used for .NET's `null` results and for failures that
    carry no payload. */
module Wrappers {

  datatype Option<+T> = None | Some(value: T)
}
