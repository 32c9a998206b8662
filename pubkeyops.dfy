/**
 * The public-key operations that joeecc mixes into its key objects: the
 * ECDSA nonce-reuse attack, ECDSA and EdDSA verification, and the ECIES
 * shared-secret derivation. Field elements are integers modulo the curve
 * order n (module ModField) and points are elements of the cyclic group
 * generated by G (module CyclicGroup).
 *
 * Each failed `assert` of joeecc's PubKeyOps, each division by a field element
 * without an inverse and each read of the x coordinate of the point at
 * infinity is a Failure value here.
 */
module PubKeyOps {
  import F = ModField
  import opened CyclicGroup
  import opened Wrappers

  type Byte = b: int | 0 <= b < 256
  type Bytes = seq<Byte>

  datatype Error =
    | PreconditionViolated  // an `assert` on the arguments failed
    | NotInvertible         // a field division by an element without an inverse
    | NoXCoordinate         // the x coordinate of the point at infinity was read

  /**
   * The routines the operations call but which are not part of this model:
   * hash(alg, m) is the digest of m under the named hashlib algorithm,
   * digestToInt(dig, n) is Tools.ecdsa_msgdigest_to_int, eddsaHash is
   * Tools.eddsa_hash, bytesToIntLE is Tools.bytestoint_le and eddsaEncode
   * is the EdDSA encoding of a point.
   */
  datatype Collaborators = Collaborators(
    hash: (string, Bytes) -> Bytes,
    digestToInt: (Bytes, int) -> int,
    eddsaHash: Bytes -> Bytes,
    bytesToIntLE: Bytes -> int,
    eddsaEncode: Point -> Bytes)

  /** The key object the operations are mixed into: its curve and its point Q. */
  datatype PublicKey = PublicKey(curve: Curve, point: Point)

  datatype EcdsaSignature = EcdsaSignature(r: int, s: int, hashAlg: string)

  datatype EddsaSignature = EddsaSignature(R: Point, s: int)

  /** The dictionary { "nonce": ..., "privatekey": ... }. */
  datatype NonceRecovery = NonceRecovery(nonce: int, privateKey: int)

  /** The dictionary { "R": ..., "S": ... }. */
  datatype EciesSecret = EciesSecret(R: Point, S: Point)

  /** e: the message hashed with the named algorithm, as an integer for the order n. */
  function MessageInt(tools: Collaborators, alg: string, msg: Bytes, n: F.Modulus): int {
    tools.digestToInt(tools.hash(alg, msg), n)
  }

  /** The ECDSA signing equation s == k^-1 * (e + r * d) mod n, written without the inverse. */
  predicate SigningEquation(n: F.Modulus, e: int, r: int, s: int, k: int, d: int) {
    F.Cong(s * k, e + r * d, n)
  }

  // ---------------------------------------------------------------------
  // Nonce reuse: private key recovery
  // ---------------------------------------------------------------------

  /**
   * From two signatures over different messages that share r (and hence
   * the nonce): nonce = (e1 - e2) / (s1 - s2), privatekey = (nonce * s1 - e1) / r.
   */
  function EcdsaExploitReusedNonce(key: PublicKey, tools: Collaborators,
                                   msg1: Bytes, sig1: EcdsaSignature,
                                   msg2: Bytes, sig2: EcdsaSignature): (res: Result<NonceRecovery, Error>)
    ensures res == Failure(PreconditionViolated) <==> msg1 == msg2 || sig1.r != sig2.r
    ensures res.Success? ==> 0 <= res.value.nonce < key.curve.n && 0 <= res.value.privateKey < key.curve.n
  {
    if msg1 == msg2 || sig1.r != sig2.r then
      Failure(PreconditionViolated)
    else
      var n := key.curve.n;
      var e1 := MessageInt(tools, sig1.hashAlg, msg1, n) % n;
      var e2 := MessageInt(tools, sig2.hashAlg, msg2, n) % n;
      var s1, s2 := sig1.s % n, sig2.s % n;
      var r := sig1.r;
      match F.Div(F.Sub(e1, e2, n), F.Sub(s1, s2, n), n)
      case None => Failure(NotInvertible)
      case Some(nonce) =>
        match F.Div(F.Sub(F.Mul(nonce, s1, n), e1, n), r, n)
        case None => Failure(NotInvertible)
        case Some(priv) => Success(NonceRecovery(nonce, priv))
  }

  /** The reduced difference a mod n - b mod n, reduced again, is a - b modulo n. */
  lemma ReducedDifference(n: F.Modulus, a: int, b: int)
    ensures F.Cong(F.Sub(a % n, b % n, n), a - b, n)
  {
    F.CongReduce(a, n);
    F.CongReduce(b, n);
    F.CongSub(a % n, a, b % n, b, n);
    F.CongReduce(a % n - b % n, n);
  }

  /** The dividend k * s1 - e1 of the second division, computed on reduced values. */
  lemma ReducedNumerator(n: F.Modulus, e1: int, s1: int, k: int)
    ensures F.Cong(F.Sub(F.Mul(k, s1 % n, n), e1 % n, n), k * s1 - e1, n)
  {
    var m := F.Mul(k, s1 % n, n);
    F.CongReduce(s1, n);
    F.CongReduce(k * (s1 % n), n);
    F.CongMul(k, k, s1 % n, s1, n);
    F.CongReduce(e1, n);
    F.CongSub(m, k * s1, e1 % n, e1, n);
    F.CongReduce(m - e1 % n, n);
  }

  /** The divisor s1 - s2 of the recovery, modulo n, times the nonce k is e1 - e2. */
  lemma NonceDifference(n: F.Modulus, e1: int, e2: int, r: int, s1: int, s2: int, k: int, d: int)
    requires SigningEquation(n, e1, r, s1, k, d) && SigningEquation(n, e2, r, s2, k, d)
    ensures F.Cong(k * F.Sub(s1 % n, s2 % n, n), F.Sub(e1 % n, e2 % n, n), n)
  {
    var dS := F.Sub(s1 % n, s2 % n, n);
    ReducedDifference(n, s1, s2);
    F.CongMul(k, k, dS, s1 - s2, n);
    assert k * (s1 - s2) == s1 * k - s2 * k;
    F.CongSub(s1 * k, e1 + r * d, s2 * k, e2 + r * d, n);
    assert (e1 + r * d) - (e2 + r * d) == e1 - e2;
    ReducedDifference(n, e1, e2);
  }

  /** The dividend nonce * s1 - e1 of the second division is r * d, modulo n. */
  lemma KeyNumerator(n: F.Modulus, e1: int, r: int, s1: int, k: int, d: int)
    requires SigningEquation(n, e1, r, s1, k, d)
    ensures F.Cong(d * r, F.Sub(F.Mul(k % n, s1 % n, n), e1 % n, n), n)
  {
    ReducedNumerator(n, e1, s1, k % n);
    F.CongReduce(k, n);
    F.CongMul(k % n, k, s1, s1, n);
    F.CongSub((k % n) * s1, k * s1, e1, e1, n);
    assert k * s1 == s1 * k;
    F.CongSub(s1 * k, e1 + r * d, e1, e1, n);
    assert e1 + r * d - e1 == d * r;
  }

  /** A quotient exists and is k whenever k times a reduced divisor is a non-zero reduced dividend. */
  lemma QuotientOfNonZero(n: F.Modulus, a: int, b: int, k: int)
    requires F.IsPrime(n) && 0 < a < n && 0 <= b < n && F.Cong(k * b, a, n)
    ensures F.Div(a, b, n) == Some(k % n)
  {
    F.ModIdempotent(a, n);
    F.ModIdempotent(b, n);
    assert b != 0 by {
      assert b == 0 ==> k * b == 0;
    }
    F.InverseExists(b, n);
    F.DivUnique(a, b, n, k);
  }

  /** The first division of the recovery yields the nonce. */
  lemma RecoveredNonce(n: F.Modulus, e1: int, e2: int, r: int, s1: int, s2: int, k: int, d: int)
    requires F.IsPrime(n) && !F.Cong(e1, e2, n)
    requires SigningEquation(n, e1, r, s1, k, d) && SigningEquation(n, e2, r, s2, k, d)
    ensures F.Div(F.Sub(e1 % n, e2 % n, n), F.Sub(s1 % n, s2 % n, n), n) == Some(k % n)
  {
    NonceDifference(n, e1, e2, r, s1, s2, k, d);
    F.SubNonZero(e1 % n, e2 % n, n);
    QuotientOfNonZero(n, F.Sub(e1 % n, e2 % n, n), F.Sub(s1 % n, s2 % n, n), k);
  }

  /** The second division of the recovery yields the private key. */
  lemma RecoveredKey(n: F.Modulus, e1: int, r: int, s1: int, k: int, d: int)
    requires F.IsPrime(n) && r % n != 0
    requires SigningEquation(n, e1, r, s1, k, d)
    ensures F.Div(F.Sub(F.Mul(k % n, s1 % n, n), e1 % n, n), r, n) == Some(d % n)
  {
    KeyNumerator(n, e1, r, s1, k, d);
    F.InverseExists(r, n);
    F.DivUnique(F.Sub(F.Mul(k % n, s1 % n, n), e1 % n, n), r, n, d);
  }

  /**
   * Recovery is exact: when both signatures satisfy the signing equation
   * with the same nonce k and private key d, over digests that differ
   * modulo n and with r != 0 modulo n, the attack returns k mod n and d mod n.
   */
  lemma ExploitRecoversKey(key: PublicKey, tools: Collaborators,
                           msg1: Bytes, sig1: EcdsaSignature,
                           msg2: Bytes, sig2: EcdsaSignature, k: int, d: int)
    requires F.IsPrime(key.curve.n)
    requires msg1 != msg2 && sig1.r == sig2.r && sig1.r % key.curve.n != 0
    requires !F.Cong(MessageInt(tools, sig1.hashAlg, msg1, key.curve.n),
                     MessageInt(tools, sig2.hashAlg, msg2, key.curve.n), key.curve.n)
    requires SigningEquation(key.curve.n, MessageInt(tools, sig1.hashAlg, msg1, key.curve.n), sig1.r, sig1.s, k, d)
    requires SigningEquation(key.curve.n, MessageInt(tools, sig2.hashAlg, msg2, key.curve.n), sig2.r, sig2.s, k, d)
    ensures EcdsaExploitReusedNonce(key, tools, msg1, sig1, msg2, sig2) == Success(NonceRecovery(k % key.curve.n, d % key.curve.n))
  {
    var n := key.curve.n;
    var e1 := MessageInt(tools, sig1.hashAlg, msg1, n);
    var e2 := MessageInt(tools, sig2.hashAlg, msg2, n);
    RecoveredNonce(n, e1, e2, sig1.r, sig1.s, sig2.s, k, d);
    RecoveredKey(n, e1, sig1.r, sig1.s, k, d);
  }

  /** A private key p returned by the second division satisfies the first signing equation. */
  lemma FirstEquationHolds(n: F.Modulus, e1: int, r: int, s1: int, k: int, p: int)
    requires F.Div(F.Sub(F.Mul(k, s1 % n, n), e1 % n, n), r, n) == Some(p)
    ensures SigningEquation(n, e1, r, s1, k, p)
  {
    // p * r == k * s1 - e1, so s1 * k == e1 + r * p
    ReducedNumerator(n, e1, s1, k);
    F.CongAdd(p * r, k * s1 - e1, e1, e1, n);
    assert k * s1 - e1 + e1 == s1 * k;
    assert p * r + e1 == e1 + r * p;
  }

  /** A nonce k returned by the first division carries the first signing equation over to the second. */
  lemma SecondEquationHolds(n: F.Modulus, e1: int, e2: int, r: int, s1: int, s2: int, k: int, p: int)
    requires F.Div(F.Sub(e1 % n, e2 % n, n), F.Sub(s1 % n, s2 % n, n), n) == Some(k)
    requires SigningEquation(n, e1, r, s1, k, p)
    ensures SigningEquation(n, e2, r, s2, k, p)
  {
    // k * (s1 - s2) == e1 - e2, so s2 * k == s1 * k - (e1 - e2) == e2 + r * p
    var dS := F.Sub(s1 % n, s2 % n, n);
    ReducedDifference(n, s1, s2);
    ReducedDifference(n, e1, e2);
    F.CongMul(k, k, dS, s1 - s2, n);
    assert k * dS == dS * k;
    F.CongSub(s1 * k, e1 + r * p, k * (s1 - s2), e1 - e2, n);
    assert s1 * k - k * (s1 - s2) == s2 * k;
    assert (e1 + r * p) - (e1 - e2) == e2 + r * p;
  }

  /**
   * Recovery is sound: whatever the attack returns satisfies the signing
   * equation of both signatures, so it is a nonce and private key that
   * would have produced them.
   */
  lemma ExploitResultSignsBoth(key: PublicKey, tools: Collaborators,
                               msg1: Bytes, sig1: EcdsaSignature,
                               msg2: Bytes, sig2: EcdsaSignature)
    requires EcdsaExploitReusedNonce(key, tools, msg1, sig1, msg2, sig2).Success?
    ensures var rec := EcdsaExploitReusedNonce(key, tools, msg1, sig1, msg2, sig2).value;
            SigningEquation(key.curve.n, MessageInt(tools, sig1.hashAlg, msg1, key.curve.n), sig1.r, sig1.s, rec.nonce, rec.privateKey) &&
            SigningEquation(key.curve.n, MessageInt(tools, sig2.hashAlg, msg2, key.curve.n), sig2.r, sig2.s, rec.nonce, rec.privateKey)
  {
    var n := key.curve.n;
    var rec := EcdsaExploitReusedNonce(key, tools, msg1, sig1, msg2, sig2).value;
    var e1 := MessageInt(tools, sig1.hashAlg, msg1, n);
    var e2 := MessageInt(tools, sig2.hashAlg, msg2, n);
    FirstEquationHolds(n, e1, sig1.r, sig1.s, rec.nonce, rec.privateKey);
    SecondEquationHolds(n, e1, e2, sig1.r, sig1.s, sig2.s, rec.nonce, rec.privateKey);
  }

  /**
   * With a prime order and the asserted arguments, the attack fails with a
   * division error exactly when s1 == s2 or r == 0 modulo n.
   */
  lemma ExploitFailsExactly(key: PublicKey, tools: Collaborators,
                            msg1: Bytes, sig1: EcdsaSignature,
                            msg2: Bytes, sig2: EcdsaSignature)
    requires F.IsPrime(key.curve.n)
    requires msg1 != msg2 && sig1.r == sig2.r
    ensures var res := EcdsaExploitReusedNonce(key, tools, msg1, sig1, msg2, sig2);
            res == Failure(NotInvertible) <==>
            F.Cong(sig1.s, sig2.s, key.curve.n) || sig1.r % key.curve.n == 0
  {
    var n := key.curve.n;
    var e1 := MessageInt(tools, sig1.hashAlg, msg1, n) % n;
    var e2 := MessageInt(tools, sig2.hashAlg, msg2, n) % n;
    var s1 := sig1.s % n;
    F.DivByDifferenceIff(F.Sub(e1, e2, n), sig1.s, sig2.s, n);
    var q := F.Div(F.Sub(e1, e2, n), F.Sub(s1, sig2.s % n, n), n);
    if q.Some? {
      F.DivDefinedIff(F.Sub(F.Mul(q.value, s1, n), e1, n), sig1.r, n);
    }
  }

  // ---------------------------------------------------------------------
  // ECDSA verification
  // ---------------------------------------------------------------------

  /** Verification over a message digest: x(u1 * G + u2 * Q) mod n == r with u1 = e / s, u2 = r / s. */
  function EcdsaVerifyHash(key: PublicKey, tools: Collaborators,
                           digest: Bytes, sig: EcdsaSignature): (res: Result<bool, Error>)
    ensures res == Failure(PreconditionViolated) <==> !(0 < sig.r < key.curve.n && 0 < sig.s < key.curve.n)
  {
    var c := key.curve;
    var n := c.n;
    if !(0 < sig.r < n && 0 < sig.s < n) then
      Failure(PreconditionViolated)
    else
      var e := tools.digestToInt(digest, n);
      match F.Inverse(sig.s, n)
      case None => Failure(NotInvertible)
      case Some(w) =>
        var u1 := F.Mul(e, w, n);
        var u2 := F.Mul(sig.r, w, n);
        var pt := Add(c, Mul(c, u1, Generator()), Mul(c, u2, key.point));
        match X(c, pt)
        case None => Failure(NoXCoordinate)
        case Some(x1) => Success(x1 % n == sig.r)
  }

  /** Verification over a message: hash it with the signature's own algorithm, then verify the digest. */
  function EcdsaVerify(key: PublicKey, tools: Collaborators,
                       message: Bytes, sig: EcdsaSignature): (res: Result<bool, Error>)
    ensures res == Failure(PreconditionViolated) <==> !(0 < sig.r < key.curve.n && 0 < sig.s < key.curve.n)
  {
    EcdsaVerifyHash(key, tools, tools.hash(sig.hashAlg, message), sig)
  }

  /** u1 + u2 * d == (e + r * d) * w modulo n, for u1 = e * w and u2 = r * w. */
  lemma ScalarCombination(n: F.Modulus, d: int, e: int, r: int, w: int)
    ensures F.Cong(F.Mul(e, w, n) + F.Mul(r, w, n) * d, (e + r * d) * w, n)
  {
    var u1, u2 := F.Mul(e, w, n), F.Mul(r, w, n);
    F.CongReduce(e * w, n);
    F.CongReduce(r * w, n);
    F.CongMul(u2, r * w, d, d, n);
    F.CongAdd(u1, e * w, u2 * d, (r * w) * d, n);
    F.Distribute(e, r, d, w);
  }

  /** The point u1 * G + u2 * Q that verification computes is k * G for k = (e + r * d) / s. */
  lemma VerifyPoint(c: Curve, d: int, e: int, r: int, s: int, w: int)
    requires F.Inverse(s, c.n) == Some(w)
    ensures F.Div(e + r * d, s, c.n) == Some(F.Mul(e + r * d, w, c.n))
    ensures Add(c, Mul(c, F.Mul(e, w, c.n), Generator()), Mul(c, F.Mul(r, w, c.n), Mul(c, d, Generator())))
            == Mul(c, F.Mul(e + r * d, w, c.n), Generator())
  {
    var n := c.n;
    var u1, u2 := F.Mul(e, w, n), F.Mul(r, w, n);
    MulMul(c, u2, d, Generator());
    MulDistributes(c, u1, u2 * d, Generator());
    ScalarCombination(n, d, e, r, w);
    F.CongReduce((e + r * d) * w, n);
    MulCong(c, u1 + u2 * d, F.Mul(e + r * d, w, n), Generator());
  }

  /** For r, s in range and w the inverse of s, verification looks at x(u1 * G + u2 * Q). */
  lemma EcdsaVerifyHashSteps(key: PublicKey, tools: Collaborators,
                             digest: Bytes, sig: EcdsaSignature, w: int)
    requires 0 < sig.r < key.curve.n && 0 < sig.s < key.curve.n
    requires F.Inverse(sig.s, key.curve.n) == Some(w)
    ensures var c := key.curve;
            var u1 := F.Mul(tools.digestToInt(digest, c.n), w, c.n);
            var u2 := F.Mul(sig.r, w, c.n);
            EcdsaVerifyHash(key, tools, digest, sig) ==
              match X(c, Add(c, Mul(c, u1, Generator()), Mul(c, u2, key.point)))
              case None => Failure(NoXCoordinate)
              case Some(x) => Success(x % c.n == sig.r)
  {
  }

  /**
   * With Q = d * G and r, s in range, verification computes k = (e + r * d) / s
   * and fails only when k * G is the point at infinity; otherwise it
   * accepts exactly when x(k * G) mod n == r.
   */
  lemma EcdsaVerifyHashOutcome(key: PublicKey, tools: Collaborators,
                               digest: Bytes, sig: EcdsaSignature, d: int)
    requires F.IsPrime(key.curve.n) && key.point == Mul(key.curve, d, Generator())
    requires 0 < sig.r < key.curve.n && 0 < sig.s < key.curve.n
    ensures F.Div(tools.digestToInt(digest, key.curve.n) + sig.r * d, sig.s, key.curve.n).Some?
    ensures var k := F.Div(tools.digestToInt(digest, key.curve.n) + sig.r * d, sig.s, key.curve.n).value;
            EcdsaVerifyHash(key, tools, digest, sig) ==
              match X(key.curve, Mul(key.curve, k, Generator()))
              case None => Failure(NoXCoordinate)
              case Some(x) => Success(x % key.curve.n == sig.r)
  {
    var c := key.curve;
    var e := tools.digestToInt(digest, c.n);
    F.InverseExists(sig.s, c.n);
    var w := F.Inverse(sig.s, c.n).value;
    EcdsaVerifyHashSteps(key, tools, digest, sig, w);
    VerifyPoint(c, d, e, sig.r, sig.s, w);
  }

  /**
   * A signature made by the holder of d (Q = d * G) with a nonce k, that is
   * r = x(k * G) mod n and s * k == e + r * d, verifies.
   */
  lemma EcdsaVerifyAcceptsSigned(key: PublicKey, tools: Collaborators,
                                 digest: Bytes, sig: EcdsaSignature, d: int, k: int)
    requires F.IsPrime(key.curve.n) && key.point == Mul(key.curve, d, Generator())
    requires 0 < sig.r < key.curve.n && 0 < sig.s < key.curve.n
    requires SigningEquation(key.curve.n, tools.digestToInt(digest, key.curve.n), sig.r, sig.s, k, d)
    requires X(key.curve, Mul(key.curve, k, Generator())).Some?
    requires X(key.curve, Mul(key.curve, k, Generator())).value % key.curve.n == sig.r
    ensures EcdsaVerifyHash(key, tools, digest, sig) == Success(true)
  {
    var n := key.curve.n;
    var e := tools.digestToInt(digest, n);
    EcdsaVerifyHashOutcome(key, tools, digest, sig, d);
    assert k * sig.s == sig.s * k;
    F.DivUnique(e + sig.r * d, sig.s, n, k);
    F.CongReduce(k, n);
    MulCong(key.curve, F.Div(e + sig.r * d, sig.s, n).value, k, Generator());
  }

  /**
   * Conversely, a signature that verifies under Q = d * G satisfies the
   * signing equation for some nonce k with x(k * G) mod n == r.
   */
  lemma EcdsaVerifySound(key: PublicKey, tools: Collaborators,
                         digest: Bytes, sig: EcdsaSignature, d: int)
    requires F.IsPrime(key.curve.n) && key.point == Mul(key.curve, d, Generator())
    requires EcdsaVerifyHash(key, tools, digest, sig) == Success(true)
    ensures exists k :: SigningEquation(key.curve.n, tools.digestToInt(digest, key.curve.n), sig.r, sig.s, k, d) &&
                        X(key.curve, Mul(key.curve, k, Generator())).Some? &&
                        X(key.curve, Mul(key.curve, k, Generator())).value % key.curve.n == sig.r
  {
    var n := key.curve.n;
    var e := tools.digestToInt(digest, n);
    EcdsaVerifyHashOutcome(key, tools, digest, sig, d);
    var k := F.Div(e + sig.r * d, sig.s, n).value;
    assert sig.s * k == k * sig.s;
    assert SigningEquation(n, e, sig.r, sig.s, k, d);
  }

  /**
   * Verifying a message is verifying the digest that the signature's own
   * hash algorithm gives, so a message signed by the holder of d verifies.
   */
  lemma EcdsaVerifyMessageSigned(key: PublicKey, tools: Collaborators,
                                 message: Bytes, sig: EcdsaSignature, d: int, k: int)
    requires F.IsPrime(key.curve.n) && key.point == Mul(key.curve, d, Generator())
    requires 0 < sig.r < key.curve.n && 0 < sig.s < key.curve.n
    requires SigningEquation(key.curve.n, MessageInt(tools, sig.hashAlg, message, key.curve.n), sig.r, sig.s, k, d)
    requires X(key.curve, Mul(key.curve, k, Generator())).Some?
    requires X(key.curve, Mul(key.curve, k, Generator())).value % key.curve.n == sig.r
    ensures EcdsaVerify(key, tools, message, sig) == Success(true)
  {
    EcdsaVerifyAcceptsSigned(key, tools, tools.hash(sig.hashAlg, message), sig, d, k);
  }

  // ---------------------------------------------------------------------
  // EdDSA verification
  // ---------------------------------------------------------------------

  /**
   * h: the hash of encode(R) || encode(A) || message, read as a little-endian
   * integer. A point is encoded through its canonical representative, so h
   * depends only on the group elements R and A.
   */
  function EddsaChallenge(tools: Collaborators, c: Curve, R: Point, A: Point, message: Bytes): int {
    tools.bytesToIntLE(tools.eddsaHash(tools.eddsaEncode(Canonical(c, R)) + tools.eddsaEncode(Canonical(c, A)) + message))
  }

  /** Representatives of the same group elements give the same challenge. */
  lemma EddsaChallengeRepresentatives(tools: Collaborators, c: Curve, R: Point, R': Point, A: Point, A': Point, message: Bytes)
    requires F.Cong(R.log, R'.log, c.n) && F.Cong(A.log, A'.log, c.n)
    ensures EddsaChallenge(tools, c, R, A, message) == EddsaChallenge(tools, c, R', A', message)
  {
    CanonicalIff(c, R, R');
    CanonicalIff(c, A, A');
  }

  /** s * G == R + h * A, which holds exactly when s == log R + h * log A modulo the group order. */
  function EddsaVerify(key: PublicKey, tools: Collaborators, message: Bytes, sig: EddsaSignature): (ok: bool)
    ensures ok <==> F.Cong(sig.s, sig.R.log + EddsaChallenge(tools, key.curve, sig.R, key.point, message) * key.point.log,
                           key.curve.n)
  {
    var c := key.curve;
    var h := EddsaChallenge(tools, c, sig.R, key.point, message);
    F.CongReduce(h * key.point.log, c.n);
    F.CongAdd(sig.R.log, sig.R.log, F.Mul(h, key.point.log, c.n), h * key.point.log, c.n);
    MulGenerator(c, sig.s);
    Mul(c, sig.s, Generator()) == Add(c, sig.R, Mul(c, h, key.point))
  }

  /**
   * A signature made with R = r * G under the key A = a * G verifies
   * exactly when s == r + h * a modulo the group order.
   */
  lemma EddsaVerifySigned(key: PublicKey, tools: Collaborators, message: Bytes, sig: EddsaSignature, r: int, a: int)
    requires sig.R == Mul(key.curve, r, Generator()) && key.point == Mul(key.curve, a, Generator())
    ensures EddsaVerify(key, tools, message, sig) <==>
            F.Cong(sig.s, r + EddsaChallenge(tools, key.curve, sig.R, key.point, message) * a, key.curve.n)
  {
    var n := key.curve.n;
    var h := EddsaChallenge(tools, key.curve, sig.R, key.point, message);
    MulGenerator(key.curve, r);
    MulGenerator(key.curve, a);
    F.CongReduce(r, n);
    F.CongReduce(a, n);
    F.CongMul(h, h, a % n, a, n);
    F.CongAdd(r % n, r, h * (a % n), h * a, n);
    assert h * a == a * h;
  }

  // ---------------------------------------------------------------------
  // ECIES
  // ---------------------------------------------------------------------

  /**
   * The shared secret for the key Q: R = r * G is sent, S = r * Q is the
   * secret. Without a supplied nonce, r is drawn from [1, n - 1]; drawn
   * stands for the value the randomness source returned.
   */
  function EciesEncrypt(key: PublicKey, nonce: Option<int>, drawn: int): (out: EciesSecret)
    requires nonce.None? ==> 1 <= drawn <= key.curve.n - 1
    ensures nonce.None? ==> out.R != Identity() && out.R.log == drawn
    ensures nonce.Some? ==> out.R.log == nonce.value % key.curve.n
    ensures out.S == Mul(key.curve, out.R.log, key.point)
  {
    var r := if nonce.Some? then nonce.value else drawn;
    MulGeneratorReduced(key.curve, r);
    MulGenerator(key.curve, r);
    F.CongReduce(r, key.curve.n);
    MulCong(key.curve, r % key.curve.n, r, key.point);
    EciesSecret(Mul(key.curve, r, Generator()), Mul(key.curve, r, key.point))
  }

  /** The holder of d with Q = d * G recomputes S from R as d * R. */
  lemma EciesReceiverRecomputes(key: PublicKey, nonce: Option<int>, drawn: int, d: int)
    requires nonce.None? ==> 1 <= drawn <= key.curve.n - 1
    requires key.point == Mul(key.curve, d, Generator())
    ensures var out := EciesEncrypt(key, nonce, drawn);
            Mul(key.curve, d, out.R) == out.S
  {
    var r := if nonce.Some? then nonce.value else drawn;
    MulMul(key.curve, d, r, Generator());
    MulMul(key.curve, r, d, Generator());
    assert d * r == r * d;
  }

  /**
   * Only the private key recomputes S: when R is not the identity and the
   * order is prime, any x with x * R == S equals d modulo n.
   */
  lemma EciesSecretDeterminesKey(key: PublicKey, nonce: Option<int>, drawn: int, d: int, x: int)
    requires nonce.None? ==> 1 <= drawn <= key.curve.n - 1
    requires F.IsPrime(key.curve.n) && key.point == Mul(key.curve, d, Generator())
    requires EciesEncrypt(key, nonce, drawn).R != Identity()
    requires Mul(key.curve, x, EciesEncrypt(key, nonce, drawn).R) == EciesEncrypt(key, nonce, drawn).S
    ensures F.Cong(x, d, key.curve.n)
  {
    var c := key.curve;
    var n := c.n;
    var r := if nonce.Some? then nonce.value else drawn;
    MulMul(c, x, r, Generator());
    MulMul(c, r, d, Generator());
    MulGeneratorInjective(c, x * r, r * d);
    assert x * r == r * x && r * d == d * r;
    F.InverseExists(r, n);
    F.DivUnique(d * r, r, n, x);
    F.DivUnique(d * r, r, n, d);
  }
}
