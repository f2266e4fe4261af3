// Types shared by several modules.
module Prelude {

  // A value that may be missing; also a pointer that may be null.
  datatype Option<+T> = None | Some(value: T)

  // What a C string can hold.
  type CString = s: string | '\0' !in s
}
