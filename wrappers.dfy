/** Optional values: Kotlin's nullable types (`T?`) and `readLine()`'s null at end of input. */
module Wrappers {

  datatype Option<+T> = None | Some(value: T)
}
