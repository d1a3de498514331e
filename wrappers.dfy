/** Small failure-carrying datatypes shared by the modules of the model. */
module Wrappers {

  /** A value that may be absent: Java's nullable references (`Byte`, `String`). */
  datatype Option<+T> = None | Some(value: T)

  /** The Java exceptions the core can raise on its own. */
  datatype JavaException =
    | IndexOutOfBounds   // `nodeList.get(0)` on an empty list
    | NumberFormat       // `Integer.parseInt(s, 2)` on a string that is not binary

  /** The outcome of a Java call: a normal return or an escaping exception. */
  datatype Outcome<+T> = Ok(value: T) | Thrown(exception: JavaException)
}
