/** The optional value used wherever the admin tool leaves a field `undefined`:
    a record not yet loaded, a preference map that is absent, a lookup that missed. */
module Options {

  datatype Option<+T> = None | Some(value: T)

}
