/** Error kinds and failure-compatible result types shared by every module.

    The first three error kinds are the exception classes of the optimiser
    (TypeException, ParseException, ASTException); the others are the JVM
    runtime exceptions its code can raise on some inputs. */
module Outcomes {

  datatype Error =
    | ParseError      // ParseException: the text does not match the grammar
    | TypeError       // TypeException: an operand lacks the capability its operator needs
    | AstError        // ASTException: a node kind that composition does not handle
    | SizeError       // a coefficient buffer created with a negative top index
    | NumberFormat    // a numeral that BigInteger cannot read ("" or "-")

  datatype Option<+T> = None | Some(value: T) {
    function GetOr(default: T): T {
      match this
      case Some(v) => v
      case None => default
    }
  }

  datatype Result<+T> = Ok(value: T) | Err(error: Error) {
    predicate IsFailure() {
      Err?
    }

    function PropagateFailure<U>(): Result<U>
      requires Err?
    {
      Err(error)
    }

    function Extract(): T
      requires Ok?
    {
      value
    }
  }
}
