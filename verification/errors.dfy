/** The Python exceptions the core raises. A `KeyError` comes from `d[k]` or
    `del d[k]` on a missing key, whether a user, a record field or an
    authorizer entry; the other three are the authorizer's `ValueError`s. */
module Errors {
  datatype Error =
    | KeyError(key: string)
    | UserExists(name: string)
    | NoSuchDirectory(path: string)
    | NoSuchPermission(letter: char)
}
