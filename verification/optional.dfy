/** A value that may be absent: an unresolved lookup, a path node without
    a preview id, a caption that is not a count. */
module Optional {
  datatype Option<T> = None | Some(value: T)
}
