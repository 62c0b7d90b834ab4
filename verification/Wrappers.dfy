/** An optional value. */
module Options {
  datatype Option<+T> = None | Some(value: T) {
    function GetOr(default: T): T {
      if Some? then value else default
    }
  }
}

/** A result, or a refusal that stands for any exception the script raises. */
module Results {
  datatype Result<+T> = Ok(value: T) | Refused {
    predicate IsFailure() { Refused? }
    function PropagateFailure<U>(): Result<U> requires Refused? { Refused }
    function Extract(): T requires Ok? { value }
  }
}
