/** The optional value used wherever the client's C# code has a nullable reference. */
module Wrappers {

  datatype Option<+T> = None | Some(value: T)
}
