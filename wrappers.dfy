/** Rust's `Option<T>`, shared by the map, the queues and the memory-graph pipeline. */
module Wrappers {
  datatype Option<T> = None | Some(value: T)
}
