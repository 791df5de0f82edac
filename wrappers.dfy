/** The optional value used where the components have `string | null` or a -1 index. */
module Wrappers {

  datatype Option<+T> = None | Some(value: T)
}
