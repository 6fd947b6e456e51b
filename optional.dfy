/** The absent-or-present value used for the source's nullable references and
    nullable `DateTime?` fields. */
module Optional {
  datatype Option<+T> = None | Some(value: T)
}
