/** An optional value, shared by the modules below: `None` where the program
    throws or has nothing to give back. */
module Options {

  datatype Option<T> = None | Some(value: T)
}
