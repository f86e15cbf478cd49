/**
 Failure values of the Taylor model arithmetic. Each error the C++ code
 throws as `TModel<T>::Exceptions` (MCpp/src/mc/tmodel.hpp, lines 478-488)
 is a constructor here, and an operation that can throw returns a `Result`.
 */
module TmResults {

  datatype Option<T> = None | Some(value: T)

  /** The exception kinds of the Taylor model classes. */
  datatype TmError =
    | Div        // division by zero scalar
    | Eigen      // eigenvalue decomposition failed in the eigenvalue bounder
    | Bernstein  // Bernstein bounder failed
    | Size       // environment with zero variables
    | Init       // variable index out of range or no environment
    | Incon      // empty intersection of two bounds
    | TModel     // operands from different environments
    | MaxSize    // more monomials than an unsigned int can index
    | Undef      // feature not yet implemented

  /** The integer code the C++ exception carries. */
  function Code(e: TmError): (c: int)
    ensures c != 0
    ensures c > 0 <==> e in {Div, Eigen, Bernstein}
  {
    match e
    case Div => 1
    case Eigen => 2
    case Bernstein => 3
    case Size => -1
    case Init => -2
    case Incon => -3
    case TModel => -4
    case MaxSize => -5
    case Undef => -33
  }

  lemma CodeInjective(e: TmError, f: TmError)
    ensures Code(e) == Code(f) <==> e == f
  {
  }

  datatype Result<T> = Ok(value: T) | Err(error: TmError)
  {
    predicate IsFailure() { Err? }
  }
}
