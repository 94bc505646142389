/** Failure-carrying values shared by the attacks, and the key and result
    records an attack hands back to its caller. */
module Outcomes {

  datatype Option<+T> = None | Some(value: T)

  /** The exceptions the modelled Python code can raise. */
  datatype Error =
    | ZeroDivisionError   // `//` or `%` by zero (mul_inv on non-coprime input)
    | TypeError           // `reduce` over an empty list
    | ValueError          // `int()` or `bytes.fromhex` on malformed text
    | FactorizationError  // solveforp could not parse the factor text
    | IndexError          // indexing an empty list of roots

  datatype Result<+T> = Ok(value: T) | Err(error: Error)

  type Byte = x: int | 0 <= x < 256

  /** An RSA public key: modulus and public exponent. */
  datatype PublicKey = PublicKey(n: int, e: int)

  /** What an attack recovered about a private key. */
  datatype PrivateKey = PrivateKey(n: int, e: int, d: Option<int>, p: Option<int>, q: Option<int>)

  /** The pair `(private_key, plaintext)` every attack returns. */
  datatype AttackResult = AttackResult(privateKey: Option<PrivateKey>, plaintext: Option<seq<Byte>>)

  /** `(None, None)`: the attack did not apply or did not succeed. */
  const NoResult := AttackResult(None, None)
}
