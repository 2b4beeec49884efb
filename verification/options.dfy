/** The optional value used for task slots, registry slots and lookups. */
module Options {

  /** Mirrors Rust's `Option`: an empty slot or a present value. */
  datatype Option<+T> = None | Some(value: T)
}
