/** Optional values and the reader's typed errors. */
module Wrappers {

  datatype Option<+T> = None | Some(value: T)

  datatype Result<+T> = Success(value: T) | Failure(error: XfsError)

  /** The reader's error kinds; the texts the program attaches are not modelled. */
  datatype XfsError =
    | Truncated(need: nat, have: nat)
    | BadMagic(found: nat)
    | UnsupportedDir
    | UnsupportedAttrFork(aformat: nat)
}
