/** Optional results: the model's stand-in for the `nullptr` results and
    JSONFailure statuses that parson returns on failure. */
module Wrappers {

  datatype Option<+T> = None | Some(value: T)
}
