/**
 * Arithmetic modulo n, the way the protocol code uses its field elements:
 * every value is reduced into [0, n), division is multiplication by an
 * inverse found with the extended Euclidean algorithm, and dividing by an
 * element that has no inverse is an error rather than a value.
 */
module ModField {
  import opened Wrappers

  /** A modulus of the residue ring. */
  type Modulus = n: int | n > 1 witness 2

  predicate Divides(d: int, a: int) {
    d != 0 && a % d == 0
  }

  predicate IsPrime(p: int) {
    p > 1 && forall d :: 1 < d < p ==> !Divides(d, p)
  }

  /** a and b are the same element of Z/nZ. */
  predicate Cong(a: int, b: int, n: Modulus) {
    a % n == b % n
  }

  function Add(a: int, b: int, n: Modulus): (r: int)
    ensures 0 <= r < n
  {
    (a + b) % n
  }

  function Sub(a: int, b: int, n: Modulus): (r: int)
    ensures 0 <= r < n
  {
    (a - b) % n
  }

  function Mul(a: int, b: int, n: Modulus): (r: int)
    ensures 0 <= r < n
  {
    (a * b) % n
  }

  // ---------------------------------------------------------------------
  // Facts about Euclidean remainder and multiplication
  // ---------------------------------------------------------------------

  /** A positive factor keeps the sign of the other factor. */
  lemma ProductSign(g: int, c: int)
    requires g > 0
    ensures c >= 1 ==> g * c >= g
    ensures c <= 0 ==> g * c <= 0
  {
    if c >= 1 {
      assert g * c == g * (c - 1) + g;
    }
  }

  /** A multiple of g > 1 is never 1. */
  lemma MultipleNotOne(g: int, t: int)
    requires g > 1
    ensures g * t != 1
  {
    ProductSign(g, t);
  }

  lemma ModUnique(a: int, n: Modulus, q: int, r: int)
    requires a == q * n + r && 0 <= r < n
    ensures a % n == r && a / n == q
  {
    var q0, r0 := a / n, a % n;
    assert (q - q0) * n == r0 - r;
    ProductSign(n, q - q0);
    ProductSign(n, q0 - q);
  }

  lemma ModShift(x: int, k: int, n: Modulus)
    ensures (x + k * n) % n == x % n
  {
    assert x + k * n == (x / n + k) * n + x % n;
    ModUnique(x + k * n, n, x / n + k, x % n);
  }

  lemma ModIdempotent(a: int, n: Modulus)
    ensures (a % n) % n == a % n
  {
    ModUnique(a % n, n, 0, a % n);
  }

  lemma CongDiff(a: int, b: int, n: Modulus)
    requires Cong(a, b, n)
    ensures a - b == (a / n - b / n) * n
  {
  }

  lemma CongFromDiff(a: int, b: int, k: int, n: Modulus)
    requires a - b == k * n
    ensures Cong(a, b, n)
  {
    ModShift(b, k, n);
  }

  lemma CongAdd(a: int, a': int, b: int, b': int, n: Modulus)
    requires Cong(a, a', n) && Cong(b, b', n)
    ensures Cong(a + b, a' + b', n)
  {
    CongDiff(a, a', n);
    CongDiff(b, b', n);
    CongFromDiff(a + b, a' + b', (a / n - a' / n) + (b / n - b' / n), n);
  }

  lemma CongSub(a: int, a': int, b: int, b': int, n: Modulus)
    requires Cong(a, a', n) && Cong(b, b', n)
    ensures Cong(a - b, a' - b', n)
  {
    CongDiff(a, a', n);
    CongDiff(b, b', n);
    CongFromDiff(a - b, a' - b', (a / n - a' / n) - (b / n - b' / n), n);
  }

  /** e * w + (r * w) * d == (e + r * d) * w. */
  lemma Distribute(e: int, r: int, d: int, w: int)
    ensures e * w + (r * w) * d == (e + r * d) * w
  {
  }

  /** The ring identity behind CongMul, free of division and remainder. */
  lemma ProductDifference(a: int, a': int, b: int, b': int, ka: int, kb: int, n: int)
    requires a - a' == ka * n && b - b' == kb * n
    ensures a * b - a' * b' == (ka * b + a' * kb) * n
  {
    assert a * b - a' * b' == (a - a') * b + a' * (b - b');
  }

  lemma CongMul(a: int, a': int, b: int, b': int, n: Modulus)
    requires Cong(a, a', n) && Cong(b, b', n)
    ensures Cong(a * b, a' * b', n)
  {
    var ka, kb := a / n - a' / n, b / n - b' / n;
    CongDiff(a, a', n);
    CongDiff(b, b', n);
    ProductDifference(a, a', b, b', ka, kb, n);
    CongFromDiff(a * b, a' * b', ka * b + a' * kb, n);
  }

  lemma CongReduce(a: int, n: Modulus)
    ensures Cong(a % n, a, n)
  {
    ModIdempotent(a, n);
  }

  // ---------------------------------------------------------------------
  // Extended Euclidean algorithm and the inverse
  // ---------------------------------------------------------------------

  /** g is a common divisor of the two inputs (a == g * ca, b == g * cb)
      written as the integer combination g == a * x + b * y. */
  datatype Bezout = Bezout(g: int, x: int, y: int, ca: int, cb: int)

  /** One step of the extended Euclidean algorithm, as a ring identity on a == q * b + m. */
  lemma EuclidStep(a: int, b: int, q: int, m: int, rest: Bezout)
    requires a == q * b + m
    requires rest.g == b * rest.x + m * rest.y && b == rest.g * rest.ca && m == rest.g * rest.cb
    ensures a == rest.g * (q * rest.ca + rest.cb)
    ensures rest.g == a * rest.y + b * (rest.x - q * rest.y)
  {
    assert q * b == rest.g * (q * rest.ca);
    assert m * rest.y == a * rest.y - (q * b) * rest.y;
  }

  function ExtGcd(a: nat, b: nat): (r: Bezout)
    ensures r.g == a * r.x + b * r.y
    ensures a == r.g * r.ca && b == r.g * r.cb
    ensures a > 0 || b > 0 ==> r.g > 0
    decreases b
  {
    if b == 0 then
      Bezout(a, 1, 0, 1, 0)
    else
      var q := a / b;
      var rest := ExtGcd(b, a % b);
      EuclidStep(a, b, q, a % b, rest);
      Bezout(rest.g, rest.y, rest.x - q * rest.y, q * rest.ca + rest.cb, rest.ca)
  }

  lemma InverseFromBezout(a: int, n: Modulus, b: Bezout)
    requires b.g == (a % n) * b.x + n * b.y && b.g == 1
    ensures Mul(a, b.x % n, n) == 1
  {
    CongReduce(a, n);
    CongReduce(b.x, n);
    CongMul(a, a % n, b.x % n, b.x, n);
    CongFromDiff((a % n) * b.x, 1, -b.y, n);
    ModUnique(1, n, 0, 1);
  }

  lemma NoInverseFromCommonDivisor(a: int, n: Modulus, b: Bezout)
    requires a % n == b.g * b.ca && n == b.g * b.cb && b.g > 1
    ensures forall y :: Mul(a, y, n) != 1
  {
    forall y ensures Mul(a, y, n) != 1 {
      var t := (a % n) * y;
      CongReduce(a, n);
      CongMul(a, a % n, y, y, n);
      var q := t / n;
      assert t % n == b.g * (b.ca * y - q * b.cb) by {
        assert t == q * n + t % n;
        assert t == b.g * (b.ca * y);
        assert q * n == b.g * (q * b.cb);
      }
      MultipleNotOne(b.g, b.ca * y - q * b.cb);
    }
  }

  /** The multiplicative inverse modulo n, when a and n are coprime. */
  function Inverse(a: int, n: Modulus): (w: Option<int>)
    ensures w.Some? ==> 0 <= w.value < n && Mul(a, w.value, n) == 1
    ensures w.None? ==> forall y :: Mul(a, y, n) != 1
  {
    var b := ExtGcd(a % n, n);
    if b.g == 1 then
      InverseFromBezout(a, n, b);
      Some(b.x % n)
    else
      NoInverseFromCommonDivisor(a, n, b);
      None
  }

  /** The inverse is the reduced Bezout coefficient of a whenever the greatest common divisor is 1. */
  lemma InverseFromExtGcd(a: int, n: Modulus, b: Bezout)
    requires ExtGcd(a % n, n) == b && b.g == 1
    ensures Inverse(a, n) == Some(b.x % n)
  {
  }

  /** A positive divisor of a prime is 1 or the prime itself. */
  lemma PrimeDivisor(p: int, g: int, c: int)
    requires IsPrime(p) && g > 0 && p == g * c
    ensures g == 1 || g == p
  {
    ProductSign(g, c);
    if g > 1 {
      ModUnique(p, g, c, 0);
      assert Divides(g, p);
    }
  }

  /** With a prime modulus every non-zero element is invertible. */
  lemma InverseExists(a: int, n: Modulus)
    requires IsPrime(n) && a % n != 0
    ensures Inverse(a, n).Some?
  {
    var b := ExtGcd(a % n, n);
    PrimeDivisor(n, b.g, b.cb);
    ProductSign(b.g, b.ca);
    assert b.g == 1;
  }

  /** Zero, and everything congruent to it, has no inverse. */
  lemma InverseOfZero(a: int, n: Modulus)
    requires a % n == 0
    ensures Inverse(a, n).None?
  {
    forall y ensures Mul(a, y, n) != 1 {
      CongMul(a, 0, y, y, n);
    }
  }

  /** Two distinct reduced values have a non-zero difference. */
  lemma SubNonZero(a: int, b: int, n: Modulus)
    requires 0 <= a < n && 0 <= b < n
    ensures Sub(a, b, n) == 0 <==> a == b
  {
    if a >= b {
      ModUnique(a - b, n, 0, a - b);
    } else {
      ModUnique(a - b, n, -1, a - b + n);
    }
  }

  /** (a * w) * b == a * (b * w), stated apart from any remainder. */
  lemma Regroup(a: int, w: int, b: int)
    ensures (a * w) * b == a * (b * w)
  {
  }

  /** If w is an inverse of b, then (a * w) * b == a. */
  lemma InverseCancels(a: int, b: int, w: int, n: Modulus)
    requires Mul(b, w, n) == 1
    ensures Cong(Mul(a, w, n) * b, a, n)
  {
    CongReduce(a * w, n);
    CongMul(Mul(a, w, n), a * w, b, b, n);
    Regroup(a, w, b);
    CongReduce(b * w, n);
    ModUnique(1, n, 0, 1);
    CongMul(a, a, b * w, 1, n);
  }

  /** a / b in the field: a times the inverse of b. */
  function Div(a: int, b: int, n: Modulus): (q: Option<int>)
    ensures q.Some? ==> 0 <= q.value < n && Cong(q.value * b, a, n)
    ensures q.None? <==> Inverse(b, n).None?
  {
    match Inverse(b, n)
    case None => None
    case Some(w) =>
      InverseCancels(a, b, w, n);
      Some(Mul(a, w, n))
  }

  /** Over a prime modulus, division fails exactly for a zero divisor. */
  lemma DivDefinedIff(a: int, b: int, n: Modulus)
    requires IsPrime(n)
    ensures Div(a, b, n).None? <==> b % n == 0
  {
    if b % n == 0 {
      InverseOfZero(b, n);
    } else {
      InverseExists(b, n);
    }
  }

  /** Over a prime modulus, dividing by a reduced value fails exactly when it is zero. */
  lemma DivByReducedIff(x: int, d: int, n: Modulus)
    requires IsPrime(n) && 0 <= d < n
    ensures Div(x, d, n).None? <==> d == 0
  {
    ModIdempotent(d, n);
    DivDefinedIff(x, d, n);
  }

  /** Over a prime modulus, dividing by a - b fails exactly when a == b. */
  lemma DivByDifferenceIff(x: int, a: int, b: int, n: Modulus)
    requires IsPrime(n)
    ensures Div(x, Sub(a % n, b % n, n), n).None? <==> Cong(a, b, n)
  {
    SubNonZero(a % n, b % n, n);
    DivByReducedIff(x, Sub(a % n, b % n, n), n);
  }

  /** The quotient is the unique solution of k * b == a. */
  lemma DivUnique(a: int, b: int, n: Modulus, k: int)
    requires Div(a, b, n).Some? && Cong(k * b, a, n)
    ensures Div(a, b, n).value == k % n
  {
    var w := Inverse(b, n).value;
    assert Div(a, b, n).value == (a * w) % n;
    // a * w == (k * b) * w == k * (b * w) == k
    CongMul(k * b, a, w, w, n);
    Regroup(k, b, w);
    CongReduce(b * w, n);
    ModUnique(1, n, 0, 1);
    CongMul(k, k, b * w, 1, n);
  }

  // ---------------------------------------------------------------------
  // Field laws
  // ---------------------------------------------------------------------

  /** (a + b) - b == a and (a - b) + b == a. */
  lemma AddSubRoundTrip(a: int, b: int, n: Modulus)
    ensures Sub(Add(a, b, n), b, n) == a % n
    ensures Add(Sub(a, b, n), b, n) == a % n
  {
    CongReduce(a + b, n);
    CongSub(Add(a, b, n), a + b, b, b, n);
    assert a + b - b == a;
    CongReduce(a - b, n);
    CongAdd(Sub(a, b, n), a - b, b, b, n);
    assert a - b + b == a;
  }

  /** (a * b) / b == a for b != 0, and (a / b) * b == a whenever the quotient exists. */
  lemma MulDivRoundTrip(a: int, b: int, n: Modulus)
    requires IsPrime(n) && b % n != 0
    ensures Div(Mul(a, b, n), b, n) == Some(a % n)
    ensures Div(a, b, n).Some? && Mul(Div(a, b, n).value, b, n) == a % n
  {
    InverseExists(b, n);
    CongReduce(a * b, n);
    DivUnique(Mul(a, b, n), b, n, a);
  }

  /** The sums, differences and products of the field tests over Z/23Z. */
  lemma ModIntTestVectors()
    ensures Add(15, 20, 23) == 12 && Add(20, 15, 23) == 12
    ensures Sub(15, 20, 23) == 18
    ensures Mul(15, 20, 23) == 1 && Mul(20, 15, 23) == 1
  {
  }

  /** The steps of the extended Euclidean algorithm on (20, 23), innermost first. */
  lemma ExtGcdStep3()
    ensures ExtGcd(3, 2) == Bezout(1, 1, -1, 3, 2)
  {
    assert ExtGcd(2, 1) == Bezout(1, 0, 1, 2, 1);
  }

  lemma ExtGcdStep20()
    ensures ExtGcd(20, 3) == Bezout(1, -1, 7, 20, 3)
  {
    ExtGcdStep3();
  }

  lemma ExtGcdStep23()
    ensures ExtGcd(23, 20) == Bezout(1, 7, -8, 23, 20)
  {
    ExtGcdStep20();
  }

  lemma ExtGcdOf20And23()
    ensures ExtGcd(20, 23) == Bezout(1, -8, 7, 20, 23)
  {
    ExtGcdStep23();
  }

  /** The inverse of 20 modulo 23 is 15, read off the Bezout coefficient -8. */
  lemma InverseOf20Mod23()
    ensures Inverse(20, 23) == Some(15)
  {
    ExtGcdOf20And23();
    InverseFromExtGcd(20, 23, Bezout(1, -8, 7, 20, 23));
  }

  /** The quotient of the field tests over Z/23Z: 15 / 20 == 18, because 20 * 15 == 1. */
  lemma ModIntDivTestVector()
    ensures Inverse(20, 23) == Some(15)
    ensures Div(15, 20, 23) == Some(18)
  {
    InverseOf20Mod23();
    DivUnique(15, 20, 23, 18);
  }
}
