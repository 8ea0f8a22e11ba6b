/** Results shared by the splitter and the join reducer: optional values, the
    runtime exceptions the Java code can raise on its inputs, and whether an
    operation ran to completion. */
module Outcomes {

  datatype Option<T> = None | Some(value: T)

  /** The unchecked Java exceptions that inputs can provoke in the modelled code. */
  datatype JavaException =
    | IllegalArgument         // Arrays.copyOfRange with from > to
    | StringIndexOutOfBounds  // StringBuilder.deleteCharAt(-1) on an empty builder
    | ArrayIndexOutOfBounds   // contents[0] of an empty String.split result
    | NumberFormat            // Integer.valueOf of a malformed or out-of-range number

  /** How an operation ended: normally, or with an exception escaping it. */
  datatype Status = Completed | Threw(exception: JavaException)

  /** A value, or the exception raised while computing it. */
  datatype Outcome<T> = Ok(value: T) | Thrown(exception: JavaException)
}
