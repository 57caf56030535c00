/** Result values that replace the exceptions of the Java class ECPoint. */
module Outcomes {

  datatype Option<T> = None | Some(value: T)

  /** The three ways a computation of the core ends abnormally:
      - ArithmeticError: an ArithmeticException of BigInteger.modInverse or
        BigInteger.mod (no inverse exists, or the modulus is not positive);
      - DegenerateWalk: the SextupleInitializationException thrown by rho when the
        collision gives no usable congruence;
      - Mismatch: the RuntimeException thrown by check when rho recovers a wrong exponent. */
  datatype Failure = ArithmeticError | DegenerateWalk | Mismatch

  datatype Result<T> = Ok(value: T) | Err(error: Failure)
}
