/** The one optional-value type the model needs: a tap pointer that may be null,
    an optional start/stop cycle, an optional depth override, a manifest that may fail to load. */
module Wrappers {
  datatype Option<+T> = None | Some(value: T)
}
