/** The NULL-or-pointer results of the library, as an optional value. */
module Optional {

  datatype Option<T> = None | Some(value: T)

}
