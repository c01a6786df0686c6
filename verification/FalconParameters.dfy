/** The parameters of Falcon-512. */
module FalconParameters {
  /** The degree of the polynomials. */
  const N: nat := 512

  /** The modulus. */
  const Q: nat := 12289
}
