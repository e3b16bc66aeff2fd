/** Small wrapper types shared by the whole model.

    Rust's `Option` and `Result` are modelled by `Option` and `Result`.
    A Rust panic (an `unwrap` on an empty vector, `panic!`, an integer
    division by zero) is modelled as a value: an operation that may panic
    returns an `Outcome`, whose `Panic` case names the cause. */
module Outcomes {

  datatype Option<+T> = None | Some(value: T)

  datatype Result<+T, +E> = Ok(value: T) | Err(error: E)

  /** The causes of the panics the modelled code can raise. */
  datatype Fault =
    | ZOfPlanarPoint     // `Point2D::z` is called
    | EmptyCollection    // `first().unwrap()` on an empty collection
    | MissingNortheast   // `unwrap` of an absent north neighbour of the east neighbour
    | DivisionByZero     // `id % nx` with `nx == 0`

  /** The result of a call that either returns a value or panics. */
  datatype Outcome<+T> = Value(value: T) | Panic(fault: Fault)
}
