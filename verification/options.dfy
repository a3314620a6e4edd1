/** The model of a C# null reference or `Nullable<T>`: a value that may be absent. */
module Options {

  datatype Option<+T> = None | Some(value: T)
}
