/** An optional value: the velocity frame of an equity, the waiting job of a queue. */
module Optional {

  datatype Option<T> = None | Some(value: T)
}
