/** A value that may be absent: the model of a TypeScript `T | undefined` or `T | null`. */
module Optional {

  datatype Option<+T> = None | Some(value: T)
}
