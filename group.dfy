/**
 * The curve group as the protocol code sees it: a cyclic group of order n
 * generated by the base point G. Every point is written as its discrete
 * logarithm to the base G, so point addition is addition modulo n and
 * scalar multiplication is multiplication modulo n. The affine x
 * coordinate of a point is whatever the curve assigns to it; the point at
 * infinity (the identity) has none.
 */
module CyclicGroup {
  import F = ModField
  import opened Wrappers

  /** n: the order of G. xCoord(k): the affine x coordinate of k * G, for 0 < k < n. */
  datatype Curve = Curve(n: F.Modulus, xCoord: int -> int)

  /** The point log * G. */
  datatype Point = Point(log: int)

  /** The point at infinity of a Weierstrass curve, (0, 1) on an Edwards curve. */
  function Identity(): Point {
    Point(0)
  }

  /** The base point G. */
  function Generator(): Point {
    Point(1)
  }

  function Add(c: Curve, p: Point, q: Point): (r: Point)
    ensures 0 <= r.log < c.n
  {
    Point(F.Add(p.log, q.log, c.n))
  }

  /** k * P for any integer k; a negative k multiplies the negated point. */
  function Mul(c: Curve, k: int, p: Point): (r: Point)
    ensures 0 <= r.log < c.n
  {
    Point(F.Mul(k, p.log, c.n))
  }

  /** The representative of p whose logarithm lies in [0, n): the point as the curve stores it. */
  function Canonical(c: Curve, p: Point): (r: Point)
    ensures 0 <= r.log < c.n && F.Cong(r.log, p.log, c.n)
  {
    F.CongReduce(p.log, c.n);
    Point(p.log % c.n)
  }

  /** Two representatives name the same group element exactly when their logarithms agree modulo n. */
  lemma CanonicalIff(c: Curve, p: Point, q: Point)
    ensures Canonical(c, p) == Canonical(c, q) <==> F.Cong(p.log, q.log, c.n)
  {
  }

  /** The affine x coordinate, which the point at infinity does not have. */
  function X(c: Curve, p: Point): (x: Option<int>)
    ensures x.None? <==> Add(c, p, Identity()) == Identity()
  {
    if p.log % c.n == 0 then None else Some(c.xCoord(p.log % c.n))
  }

  // ---------------------------------------------------------------------
  // Group laws
  // ---------------------------------------------------------------------

  /** k * G is the point whose discrete logarithm is k mod n. */
  lemma MulGenerator(c: Curve, k: int)
    ensures Mul(c, k, Generator()) == Point(k % c.n)
  {
  }

  /** For a reduced scalar k, k * G has discrete logarithm k itself. */
  lemma MulGeneratorReduced(c: Curve, k: int)
    ensures 0 <= k < c.n ==> Mul(c, k, Generator()).log == k
  {
    if 0 <= k < c.n {
      F.ModUnique(k, c.n, 0, k);
    }
  }

  /** k * G is the identity exactly when n divides k; in particular 0 * G and n * G are. */
  lemma MulGeneratorIdentity(c: Curve, k: int)
    ensures Mul(c, k, Generator()) == Identity() <==> k % c.n == 0
  {
  }

  /** Scalars act modulo the group order. */
  lemma MulCong(c: Curve, a: int, b: int, p: Point)
    requires F.Cong(a, b, c.n)
    ensures Mul(c, a, p) == Mul(c, b, p)
  {
    F.CongMul(a, b, p.log, p.log, c.n);
  }

  /** Two multiples of G coincide exactly when their scalars agree modulo n. */
  lemma MulGeneratorInjective(c: Curve, a: int, b: int)
    ensures Mul(c, a, Generator()) == Mul(c, b, Generator()) <==> F.Cong(a, b, c.n)
  {
  }

  /** (a + b) * P == a * P + b * P. */
  lemma MulDistributes(c: Curve, a: int, b: int, p: Point)
    ensures Add(c, Mul(c, a, p), Mul(c, b, p)) == Mul(c, a + b, p)
  {
    var n := c.n;
    F.CongReduce(a * p.log, n);
    F.CongReduce(b * p.log, n);
    F.CongAdd(F.Mul(a, p.log, n), a * p.log, F.Mul(b, p.log, n), b * p.log, n);
    assert a * p.log + b * p.log == (a + b) * p.log;
  }

  /** a * (b * P) == (a * b) * P. */
  lemma MulMul(c: Curve, a: int, b: int, p: Point)
    ensures Mul(c, a, Mul(c, b, p)) == Mul(c, a * b, p)
  {
    var n := c.n;
    F.CongReduce(b * p.log, n);
    F.CongMul(a, a, F.Mul(b, p.log, n), b * p.log, n);
    assert a * (b * p.log) == (a * b) * p.log;
  }
}
