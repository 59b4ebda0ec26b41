/** Absent values and internal-consistency failures shared by the model. */
module Wrappers {

  /** An Immutable.js lookup that may come back `undefined`. */
  datatype Option<+T> = None | Some(value: T)

  /** The fatal `invariant(false, ...)` conditions of the document layer. */
  datatype Error =
    | BlockMapEmpty   // `getFirstBlock`/`getLastBlock` on a map with no entries
    | MissingLeaf     // an offset key that resolves to no leaf of the rendering tree

  /** Either the operation's value or the invariant that stopped it. */
  datatype Result<+T> = Success(value: T) | Failure(error: Error)
}
