/** A value that may be absent: the model of a nullable pointer result. */
module Options {

  datatype Option<+T> = None | Some(value: T)

}
