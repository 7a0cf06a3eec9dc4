/** The optional value used wherever the components read a property that may be absent
    (`target?.images`, a missing translation, a missing `resumePdfUrl`). */
module Wrappers {

  datatype Option<+T> = None | Some(value: T)

}
