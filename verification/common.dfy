/** Vocabulary shared by every part of the model. */
module Common {

  /** A value that may be absent, like a JavaScript `undefined`. */
  datatype Option<+T> = None | Some(value: T)

  /** A document `_id`. MongoDB ObjectIds are modelled as naturals. */
  type Id = nat
}
