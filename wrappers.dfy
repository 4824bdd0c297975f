/** Optional values: Go's nil-able results (`net.IP`, `error`) are modelled with them. */
module Wrappers {

  datatype Option<+T> = None | Some(value: T)

}
