/** An optional value: what a JavaScript expression yields when it may be `undefined`. */
module Optional {

  datatype Option<+T> = None | Some(value: T)
}
