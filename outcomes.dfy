/** What a call can end in: a value, or one of the errors the Python code raises. */
module Outcomes {

  datatype Error =
    | TooManyBits    // num_dims * num_bits > 64
    | ShapeMismatch  // the coordinate vector's length is not num_dims
    | GrayTooShort   // Gray decoding of fewer than two bits: the shift is not an integer

  datatype Result<T> = Ok(value: T) | Err(error: Error)
}
