/** The BN254 scalar field as the contracts see it: unsigned integers below the modulus. */
module Bn254 {

  /** The modulus `p`, from the big-endian byte table of the contracts. */
  const P: nat := 21888242871839275222246405745257275088548364400416034343698204186575808495617

  type Fe = x: nat | x < P witness 0

  /** The modulus as the contracts' byte table spells it. */
  lemma ModulusBytes()
    ensures P == 0x30644e72_e131a029_b85045b6_8181585d_2833e848_79b97091_43e1f593_f0000001
  {
  }
}
