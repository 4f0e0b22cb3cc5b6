/** The usual optional value, used for regex matches that may fail and for
    JavaScript properties that may be absent. */
module Optional {

  datatype Option<T> = None | Some(value: T)

}
