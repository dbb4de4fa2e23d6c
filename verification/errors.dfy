/** The error conditions the sequence operations report, and a result wrapper. */
module Errors {

  datatype Error =
    | ZeroDivision          // a division by a zero constant coefficient or by the zero polynomial
    | WrongCoefficientType  // from_recurrence was given a non-list coefficient argument
    | WrongValueType        // from_recurrence was given a non-list start-value argument
    | MissingStartValue     // from_recurrence was given an empty start-value list
    | ZeroSliceStep         // a slice with step 0
    | UnboundedSlice        // a slice with neither start nor stop
    | InvalidKey            // an index that is neither an integer nor a slice
    | TooShort              // too few samples for guessing
    | NoNonzeroSample       // the kernel guesser could not locate a nonzero sample
    | WrongEntryCount       // a matrix was given fewer entries than its shape needs

  datatype Result<+T> = Ok(value: T) | Err(error: Error)

  datatype Option<+T> = None | Some(value: T)
}
