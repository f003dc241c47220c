/** The optional value used for SQL NULL cells, absent connections and
    operations that may produce nothing. */
module Wrappers {

  datatype Option<+T> = None | Some(value: T)
}
