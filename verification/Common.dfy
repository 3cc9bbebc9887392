/** Result and option types shared by every module. */
module Common {

  datatype Option<+T> = None | Some(value: T)

  /** The outcome of an operation that the library reports by throwing `std::invalid_argument`.
      The text of the exception is not part of the model. */
  datatype Result<+T> = Ok(value: T) | InvalidArgument {
    predicate IsFailure() {
      InvalidArgument?
    }

    function PropagateFailure<U>(): Result<U>
      requires InvalidArgument?
    {
      InvalidArgument
    }

    function Extract(): T
      requires Ok?
    {
      value
    }
  }
}
