/** An optional value: used for every DOM lookup or nullable field that the
    converter tests against `null` before using it. */
module Wrappers {

  datatype Option<+T> = None | Some(value: T)

}
