/** Outcomes of the evaluator: a value or the kind of the `std::runtime_error`
    (or `std::out_of_range`) that the C++ code throws. The first error aborts the
    whole evaluation, so every handler simply propagates it. */
module Outcome {

  datatype Error =
    | IndexOutOfRange      // `std::vector::at` with an index >= size (also a negative int cast to size_t)
    | UnknownNodeType      // no dispatch case matched (closure nodes, plain nodes, a null root)
    | CarError             // "Car error: arg must be Nil or List"
    | CdrError             // "Cdr error: arg must be Nil or List"
    | AddError | SubError | MulError | DiveError | RemError | LeError   // "... requires integer operands"
    | ConsError            // "Cons error: second param must be List or Nil"
    | EqualError           // "Equal operation requires 1 or 2 atom operands"
    | CondError            // "Cond error!"
    | AssocSizeMismatch    // the two matrices have different row counts
    | AssocRowMismatch     // a visited name row and value row differ in size
    | Unbound(name: string) // "Assoc: variable '...' not found"
    | ParamCount           // "Function call: params count error"
    | NotAClosure          // "Function call: first element must be a closure"
    | LetrecKindMismatch   // "Letrec: local definitions can only be closures."
    | UndefinedBehaviour   // C++ leaves the outcome undefined (overflow, division by zero, v[0][i] past the row)
    | OutOfFuel            // the model's recursion budget is exhausted

  datatype Result<+T> = Ok(value: T) | Err(error: Error)

  datatype Option<+T> = None | Some(value: T)
}
