/** The failures the indexing core can raise, as values instead of exceptions. */
module Results {

  /** The three ways the core fails. */
  datatype Error =
    | ValueNotFound   // IndexError: a reverse lookup found no key holding the value
    | NoSuchElement   // IndexError: a CSS selection matched nothing, so `[0]` fails
    | KeyNotFound     // KeyError: a dictionary subscript with a key that is absent

  /** Either a value or the error that stopped the computation; usable with `:-`. */
  datatype Result<+T> = Ok(value: T) | Err(error: Error) {

    predicate IsFailure() {
      Err?
    }

    function PropagateFailure<U>(): Result<U>
      requires Err?
    {
      Err(error)
    }

    function Extract(): T
      requires Ok?
    {
      value
    }
  }
}
