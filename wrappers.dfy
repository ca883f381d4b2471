/** The optional value used wherever the client may have "nothing": an absent
    storage entry, an absent response header, a decoding that fails. */
module Wrappers {

  datatype Option<+T> = None | Some(value: T)
}
