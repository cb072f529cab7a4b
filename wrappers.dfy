/** The optional value used wherever the fetcher deals with something that may be absent:
    a version string the semver library cannot parse, an error object without a code. */
module Wrappers {

  datatype Option<+T> = None | Some(value: T)
}
