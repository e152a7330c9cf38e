/** The failures the RSA messenger can raise, and a Result that carries them. */
module Outcomes {

  /** One constructor per exception the engine raises. */
  datatype Error =
    | NotInvertible     // modinv: gcd(a, b) != 1
    | ZeroDivision      // modinv: x % b with b == 0
    | EmptyBinary       // int('', 2) on the empty message
    | MissingPublicKey  // encrypt before the partner's key is known
    | ZeroModulus       // pow(m, e, 0)
    | MissingPrivateKey // pow(c, None, n)

  datatype Result<+T> = Ok(value: T) | Err(error: Error)

  /** A key component that may not be set yet (Python's None). */
  datatype Option<+T> = None | Some(value: T)
}
