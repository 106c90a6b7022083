/** Values for Java's nullable references and for calls that may throw. */
module Wrappers {

  /** A Java reference that may be null: `None` stands for null. */
  datatype Option<+T> = None | Some(value: T)

  /** The unchecked exceptions the modelled code can raise. */
  datatype JavaException =
    | NullPointerException
    | StringIndexOutOfBoundsException

  /** The outcome of a Java call: a returned value or a thrown exception. */
  datatype Result<+T> = Ok(value: T) | Threw(exception: JavaException)
}
