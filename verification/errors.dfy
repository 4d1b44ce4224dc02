/** Failure kinds of the Carlae pipeline and the Result type used to propagate them.

    The source raises two exceptions of its own (`SyntaxError` from the parser,
    `EvaluationError` from the evaluator); Python itself raises a few more on
    malformed programs (an index past the end of a form, a call of a non-function,
    an attribute read on a non-list), and the REPL reports all of them alike. */
module Errors {

  /** Exceptions raised by the Python runtime rather than by the interpreter's code. */
  datatype HostFault =
    | IndexError      // `tokens[0]`, `parsed[2]`, `args[0]` past the end
    | TypeError       // calling a non-function, `len` of a number, unhashable key, `<` on lists
    | AttributeError  // `.elt` / `.next_node` read on something that is not a list node
    | ZeroDivisionError  // `/` by an integer zero
    | OverflowError      // `/` of an int too large for a float, or with a quotient too large for one

  datatype Error =
    | SyntaxError             // unbalanced parentheses
    | EvaluationError         // the interpreter's own evaluation error
    | HostError(fault: HostFault)
    | Diverges                // the source loops forever (a cyclic list)
    | Unmodelled              // a floating-point computation, which this model does not compute
    | OutOfFuel               // the evaluator's step bound ran out

  datatype Result<+T> = Ok(value: T) | Err(error: Error) {
    predicate IsFailure() { Err? }

    function PropagateFailure<U>(): Result<U>
      requires Err?
    {
      Err(error)
    }

    function Extract(): T
      requires Ok?
    {
      value
    }
  }
}
