# joeecc public-key operations in Dafny

A model of the public-key operations of joeecc, a pure-Python elliptic-curve
library, and proofs of what they promise. A public key in joeecc is a point `Q`
on a curve whose base point `G` has order `n`. Four mixin operations act on it:

- `ecdsa_exploit_reused_nonce` recovers the nonce and the private key from two
  ECDSA signatures over different messages that share `r`;
- `ecdsa_verify_hash` / `ecdsa_verify` check an ECDSA signature:
  `x(u1 * G + u2 * Q) mod n == r` with `u1 = e / s` and `u2 = r / s`;
- `eddsa_verify` checks the EdDSA equation `s * G == R + h * Q`;
- `ecies_encrypt` derives an ECIES shared secret `R = r * G`, `S = r * Q`.

Files:

- `wrappers.dfy` (module `Wrappers`): `Option` and `Result`.
- `field.dfy` (module `ModField`): integers modulo `n`, standing in for
  joeecc's `FieldElement`. It has addition, subtraction and multiplication. The
  inverse comes from the extended Euclidean algorithm, and division is
  multiplication by the inverse. `Div` returns `None` when the divisor has no
  inverse. For a prime `n` that happens exactly for a zero divisor, the case in
  which `FieldElement` raises. That `n` is prime is the predicate `IsPrime`. It
  is required only by the lemmas that need it.
- `group.dfy` (module `CyclicGroup`): the group generated by `G`, standing in
  for `AffineCurvePoint`. A point is its discrete logarithm with respect to `G`.
  Point addition is addition modulo `n` and scalar multiplication is
  multiplication modulo `n`. The affine x coordinate is a function field
  `xCoord` of the curve, so it is left uninterpreted. Reading it from the point
  at infinity gives `None`. `Point(k)` and `Point(k + n)` are the same group
  element. `Add` and `Mul` always return the representative in `[0, n)`
  (`Canonical`), and both the x coordinate and the EdDSA encoding depend only
  on that representative. The lemmas about keys take `Q = d * G`, which is
  always in that form.
- `pubkeyops.dfy` (module `PubKeyOps`): the four operations and their
  properties.

Each Python `assert` on the arguments becomes the error `PreconditionViolated`.
A field division whose divisor has no inverse becomes `NotInvertible`. A read
of `pt.x` from the point at infinity becomes `NoXCoordinate`. None of these
errors is hidden behind a `requires`. The hash functions, the digest-to-integer
conversions and the EdDSA point encoding are uninterpreted function fields of
`Collaborators`. The random nonce of `ecies_encrypt` is the parameter `drawn`,
and its range `[1, n - 1]` is the only thing assumed about it.

## Model

| member | source | states |
|---|---|---|
| ModField.Add | ecc/tests/ModIntTests.py:31-32 | the sum of two field elements, reduced into [0, n) |
| ModField.Sub | ecc/PubKeyOps.py:39 | the difference of two field elements, reduced into [0, n) |
| ModField.Mul | ecc/PubKeyOps.py:60-61 | the product of two field elements, reduced into [0, n) |
| ModField.ExtGcd | ecc/PubKeyOps.py:59 | the extended Euclidean algorithm returns g, x, y with g == a*x + b*y and g dividing both a and b, with g > 0 unless both are zero |
| ModField.Inverse | ecc/PubKeyOps.py:59 | a returned inverse lies in [0, n) and multiplies a to 1; when none is returned, no y with a*y == 1 mod n exists |
| ModField.InverseExists | ecc/PubKeyOps.py:59 | modulo a prime, every a that is non-zero mod n has an inverse |
| ModField.Div | ecc/PubKeyOps.py:39-42 | a quotient q lies in [0, n) and satisfies q*b == a mod n; Div fails exactly when b has no inverse |
| ModField.DivDefinedIff | ecc/PubKeyOps.py:39-42 | modulo a prime, division fails exactly when the divisor is 0 mod n |
| ModField.DivUnique | ecc/PubKeyOps.py:39-42 | a defined quotient is the unique k mod n with k*b == a mod n |
| ModField.SubNonZero | ecc/PubKeyOps.py:39 | for reduced a and b, a - b is zero mod n exactly when a == b |
| ModField.DivByDifferenceIff | ecc/PubKeyOps.py:39 | modulo a prime, dividing by s1 - s2 fails exactly when s1 == s2 mod n |
| ModField.AddSubRoundTrip | ecc/tests/ModIntTests.py:33-38 | (a + b) - b and (a - b) + b both give back a mod n |
| ModField.MulDivRoundTrip | ecc/tests/ModIntTests.py:42-47 | modulo a prime with b non-zero, (a * b) / b == a and (a / b) * b == a mod n |
| ModField.ModIntTestVectors | ecc/tests/ModIntTests.py:29-40 | 15 + 20 == 12, 15 - 20 == 18 and 15 * 20 == 1 modulo 23 |
| ModField.InverseOf20Mod23 | ecc/tests/ModIntTests.py:45 | the inverse of 20 modulo 23 is 15 |
| ModField.ModIntDivTestVector | ecc/tests/ModIntTests.py:45 | the inverse of 20 modulo 23 is 15, and 15 / 20 == 18 modulo 23 |
| CyclicGroup.Add | ecc/PubKeyOps.py:63 | the sum of two points, whose logarithm is the sum of theirs reduced into [0, n) |
| CyclicGroup.Mul | ecc/PubKeyOps.py:110-111 | k * P, whose logarithm is k times that of P reduced into [0, n) |
| CyclicGroup.Canonical | ecc/PubKeyOps.py:79 | the representative of a point with logarithm in [0, n), congruent to the given one |
| CyclicGroup.CanonicalIff | ecc/PubKeyOps.py:79 | two representatives have the same canonical form exactly when their logarithms agree modulo n |
| CyclicGroup.MulGeneratorIdentity | ecc/PubKeyOps.py:108-110 | k * G is the identity exactly when n divides k, so a nonce drawn from [1, n - 1] never gives the identity |
| CyclicGroup.X | ecc/PubKeyOps.py:64 | the x coordinate is missing exactly for the point at infinity |
| CyclicGroup.MulGeneratorInjective | ecc/PubKeyOps.py:110 | a * G == b * G exactly when a == b mod n |
| CyclicGroup.MulDistributes | ecc/PubKeyOps.py:63 | (a + b) * P == a * P + b * P |
| CyclicGroup.MulMul | ecc/PubKeyOps.py:110-111 | a * (b * P) == (a * b) * P |
| PubKeyOps.EcdsaExploitReusedNonce | ecc/PubKeyOps.py:14-44 | the attack reports a violated assertion exactly when the messages are equal or the two r differ; both recovered values lie in [0, n) |
| PubKeyOps.ExploitRecoversKey | ecc/PubKeyOps.py:10-44 | if both signatures were made with nonce k and key d, e1 != e2 mod n and r != 0 mod n, the attack returns exactly k mod n and d mod n |
| PubKeyOps.ExploitResultSignsBoth | ecc/PubKeyOps.py:39-44 | any nonce and key the attack returns satisfy the signing equation of both signatures |
| PubKeyOps.ExploitFailsExactly | ecc/PubKeyOps.py:39-42 | with the assertions met and n prime, the attack fails with a division error exactly when s1 == s2 mod n or r == 0 mod n |
| PubKeyOps.EcdsaVerifyHash | ecc/PubKeyOps.py:51-53 | verification reports a violated assertion exactly when r or s is outside (0, n) |
| PubKeyOps.EcdsaVerify | ecc/PubKeyOps.py:67-73 | verifying a message reports a violated assertion exactly when r or s is outside (0, n), like verifying its digest |
| PubKeyOps.VerifyPoint | ecc/PubKeyOps.py:59-63 | for Q = d * G, the point u1 * G + u2 * Q is ((e + r * d) / s) * G |
| PubKeyOps.EcdsaVerifyHashOutcome | ecc/PubKeyOps.py:56-65 | for Q = d * G and r, s in range, the result is decided by k * G with k = (e + r * d) / s: an error when it is the point at infinity, otherwise whether x(k * G) mod n == r |
| PubKeyOps.EcdsaVerifyAcceptsSigned | ecc/PubKeyOps.py:56-65 | a signature made with nonce k and key d, r = x(k * G) mod n, verifies |
| PubKeyOps.EcdsaVerifySound | ecc/PubKeyOps.py:56-65 | a signature that verifies under Q = d * G satisfies the signing equation for a nonce k with x(k * G) mod n == r |
| PubKeyOps.EcdsaVerifyMessageSigned | ecc/PubKeyOps.py:67-73 | verifying a message verifies the digest taken with the signature's own hash algorithm, so a signed message verifies |
| PubKeyOps.EddsaChallengeRepresentatives | ecc/PubKeyOps.py:79 | the challenge h depends only on the group elements R and Q, not on how they are represented |
| PubKeyOps.EddsaVerify | ecc/PubKeyOps.py:77-80 | EdDSA verification, s * G == R + h * Q, holds exactly when s == log R + h * log Q mod n |
| PubKeyOps.EddsaVerifySigned | ecc/PubKeyOps.py:77-80 | with R = r * G and Q = a * G, verification holds exactly when s == r + h * a mod n |
| PubKeyOps.EciesEncrypt | ecc/PubKeyOps.py:106-111 | a supplied nonce r gives R = (r mod n) * G; without one, R is the drawn value times G and is not the identity; S is the same scalar times Q |
| PubKeyOps.EciesReceiverRecomputes | ecc/PubKeyOps.py:97-114 | the holder of d with Q = d * G recomputes S as d * R |
| PubKeyOps.EciesSecretDeterminesKey | ecc/PubKeyOps.py:97-114 | modulo a prime, when R is not the identity, only scalars congruent to d turn R into S |

## Left out

- Hashing (`hashlib.new`, `Tools.eddsa_hash`), `Tools.ecdsa_msgdigest_to_int` and `Tools.bytestoint_le` are not part of this model. They are uninterpreted functions in `Collaborators`.
- `eddsa_encode` and `eddsa_decode` of a public key (ecc/PubKeyOps.py:84-94) delegate to `AffineCurvePoint`, which is not part of this model. The encoding is an uninterpreted function, and decoding is not modelled.
- `FieldElement` and `AffineCurvePoint` are not part of this model. The field is plain integers modulo `n`, and the curve is the abstract cyclic group generated by `G`. Concrete Weierstrass and Edwards formulas and points outside that group are not modelled.
- `secure_rand_int_between` draws from a randomness source. Its result is the parameter `drawn`, constrained only to `[1, n - 1]`.
- The `isinstance(..., bytes)` assertions are enforced by the types: a message is a `seq` of bytes, so those assertions cannot fail.
- For a composite `n`, `Div` also fails with `NotInvertible` on a non-zero divisor that has no inverse, as `Inverse` finds none. So does `EcdsaVerifyHash` for a 0 < s < n that has no inverse, since it calls `Inverse` directly. What `FieldElement` does then is not part of this model. All lemmas about the protocols take a prime `n`, where only a zero divisor fails.
- Constant-time behaviour and side channels cannot be expressed in this model.
- PubKeyOps.EcdsaVerifySound: does not say that a modified message fails to verify. With uninterpreted hash functions, two messages may share a digest, so the property does not hold in this model.
- ECDSA verification never answers false for an out-of-range r or s. The code asserts on the ranges, so the model gives `PreconditionViolated`.
- Exponentiation and square roots of `ModInt` (ecc/tests/ModIntTests.py:49-59) are not used by the operations modelled here. `ecctest.py` and the Curve25519 tests exercise parts of the library outside this model.
