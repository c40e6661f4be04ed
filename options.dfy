/** The optional value used wherever the source tests a property that may be
    `undefined` (a missing first argument, a missing ancestor, a missing
    initializer). */
module Options {

  datatype Option<+T> = None | Some(value: T)

}
