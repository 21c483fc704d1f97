/** Optional values: Go's nil pointers, nil slices and nil interfaces. */
module Options {
  datatype Option<+T> = None | Some(value: T)
}
