/** Names shared by every module: identifiers and the two usual wrappers. */
module Common {

  /** A UUID. UUIDv7 values are time-ordered, so an identifier drawn later compares greater. */
  type Id = nat

  datatype Option<+T> = None | Some(value: T)
}
