/** The Option type used where the Java code returns a reference that may be null. */
module Optional {

  datatype Option<+T> = None | Some(value: T)

}
