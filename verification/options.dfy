/** An optional value: the model's stand-in for java.util.Optional and for a
    computation that can fail with an exception the program does not catch. */
module Options {

  datatype Option<+T> = None | Some(value: T)
}
