/** The optional value used for partial operations of the model (a parse that may fail, a file that may be absent). */
module Options {

  datatype Option<+T> = None | Some(value: T)
}
