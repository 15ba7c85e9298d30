/** Failure-carrying values shared by every module of the model.

    The Python program signals most failures by raising an exception and
    letting it propagate.  The model returns them instead: `Err(e)` names the
    Python exception class that the corresponding statement would raise. */
module Wrappers {

  datatype Option<+T> = None | Some(value: T)

  /** The Python exception classes that the modelled code can raise. */
  datatype Exception =
    | KeyError          // dict or DataFrame lookup of a missing key / column
    | ValueError        // tuple unpacking of the wrong length, list.index / list.remove of a missing item, int() of a non-number
    | IndexError        // list index out of range
    | StopIteration     // next() on an exhausted file
    | ZeroDivisionError // modulo by zero
    | UnboundLocalError // a variable that no branch assigned
    | LibraryError      // raised inside a library call that is not part of this model (Bio.Phylo's trace)

  datatype Result<+T> = Ok(value: T) | Err(error: Exception) {
    predicate IsFailure() { Err? }

    function PropagateFailure<U>(): Result<U>
      requires Err?
    {
      Err(error)
    }

    function Extract(): T
      requires Ok?
    {
      value
    }
  }

  /** What a function that writes an output file line by line leaves behind:
      the lines written so far, and the exception that stopped it, if any. */
  datatype Written = Written(lines: seq<string>, raised: Option<Exception>)
}
