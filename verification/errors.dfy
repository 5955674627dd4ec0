/** The failures the store and the registry report to their callers. */
module Errors {

  datatype Error =
    | InvalidKeyType    // the key is not a string (TypeError from the format check)
    | InvalidKeyFormat  // the key does not match the key pattern (ValueError from the format check)
    | NotFound          // no `.value` blob at the key's path, or the path is missing
    | NotATree          // the tree walk tried to index into a blob before the end of the path
    | UnknownRevision   // a revision name that does not resolve to a commit
}
