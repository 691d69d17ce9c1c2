/** Kotlin's nullable types (`MeshNode?`) and the result of `find` become an Option. */
module Wrappers {

  datatype Option<+T> = None | Some(value: T)
}
