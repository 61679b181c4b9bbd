/** The optional-value wrapper used wherever the modelled code can yield
    "no value" (an unparseable time string, a scan that matched nothing). */
module Wrappers {

  datatype Option<+T> = None | Some(value: T)
}
