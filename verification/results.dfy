/** The three failures the reconstruction can raise, and a Success/Failure
    wrapper that stands for a value-or-throw in the modelled code. */
module Results {

  /** InvalidDigit: a digit string holds a character that is not a digit of its radix.
      DivisionByZero: a rational is constructed with denominator zero.
      NonIntegerResult: the interpolated constant term is not an integer. */
  datatype Error = InvalidDigit | DivisionByZero | NonIntegerResult

  datatype Result<+T> = Success(value: T) | Failure(error: Error)
}
