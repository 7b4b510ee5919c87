/**
 Arithmetic of the scalar field and of the group written additively.

 Ristretto255 is a group of prime order, so it is isomorphic to the integers modulo that order.
 A scalar is an integer and a point is named by its discrete logarithm; both are kept unreduced,
 and every comparison and every encoding takes the residue modulo the order.
 */
module Residues {

  type Scalar = int
  type Point = int

  function Times(k: int, m: int): int { k * m }

  /** x and y denote the same scalar (or the same point) of a group of order m. */
  ghost predicate Cong(m: int, x: int, y: int) {
    exists k: int :: x == y + Times(k, m)
  }

  lemma {:induction false} CongBy(m: int, x: int, y: int, k: int)
    requires x == y + k * m
    ensures Cong(m, x, y)
  {
    assert x == y + Times(k, m);
  }

  lemma {:induction false} CongWitness(m: int, x: int, y: int) returns (k: int)
    requires Cong(m, x, y)
    ensures x == y + k * m
  {
    k :| x == y + Times(k, m);
  }

  lemma {:induction false} CongRefl(m: int, x: int)
    ensures Cong(m, x, x)
  {
    CongBy(m, x, x, 0);
  }

  lemma {:induction false} CongSym(m: int, x: int, y: int)
    requires Cong(m, x, y)
    ensures Cong(m, y, x)
  {
    var k := CongWitness(m, x, y);
    CongBy(m, y, x, -k);
  }

  lemma {:induction false} CongTrans(m: int, x: int, y: int, z: int)
    requires Cong(m, x, y) && Cong(m, y, z)
    ensures Cong(m, x, z)
  {
    var k := CongWitness(m, x, y);
    var l := CongWitness(m, y, z);
    CongBy(m, x, z, k + l);
  }

  lemma {:induction false} CongAdd(m: int, x: int, y: int, x': int, y': int)
    requires Cong(m, x, y) && Cong(m, x', y')
    ensures Cong(m, x + x', y + y')
  {
    var k := CongWitness(m, x, y);
    var l := CongWitness(m, x', y');
    CongBy(m, x + x', y + y', k + l);
  }

  lemma {:induction false} CongScale(m: int, c: int, x: int, y: int)
    requires Cong(m, x, y)
    ensures Cong(m, c * x, c * y)
  {
    var k := CongWitness(m, x, y);
    calc {
      c * x;
      c * (y + k * m);
      c * y + c * (k * m);
      c * y + (c * k) * m;
    }
    CongBy(m, c * x, c * y, c * k);
  }

  lemma {:induction false} CongMul(m: int, x: int, y: int, x': int, y': int)
    requires Cong(m, x, y) && Cong(m, x', y')
    ensures Cong(m, x * x', y * y')
  {
    CongScale(m, x', x, y);
    CongScale(m, y, x', y');
    assert x' * x == x * x' && x' * y == y * x';
    CongTrans(m, x * x', y * x', y * y');
  }

  lemma {:induction false} CongSub(m: int, x: int, y: int, x': int, y': int)
    requires Cong(m, x, y) && Cong(m, x', y')
    ensures Cong(m, x - x', y - y')
  {
    var k := CongWitness(m, x, y);
    var l := CongWitness(m, x', y');
    CongBy(m, x - x', y - y', k - l);
  }

  /** A factor that is one modulo m may be dropped. */
  lemma {:induction false} CongUnit(m: int, one: int, z: int, x: int, y: int)
    requires Cong(m, one, 1)
    requires x == y + (one - 1) * z
    ensures Cong(m, x, y)
  {
    var k := CongWitness(m, one, 1);
    assert (one - 1) * z == (k * m) * z == (k * z) * m;
    CongBy(m, x, y, k * z);
  }

  /** The canonical encoding of a scalar or a point. */
  function Canon(m: int, x: int): (r: int)
    requires m > 0
    ensures 0 <= r < m
  {
    x % m
  }

  lemma {:induction false} CanonCong(m: int, x: int)
    requires m > 0
    ensures Cong(m, Canon(m, x), x)
  {
    CongBy(m, Canon(m, x), x, -(x / m));
  }

  lemma {:induction false} SmallMultiple(m: int, d: int, k: int)
    requires m > 0 && -m < d < m && d == k * m
    ensures d == 0
  {
  }

  /** Two scalars are the same exactly when their encodings are equal. */
  lemma {:induction false} CanonEqual(m: int, x: int, y: int)
    requires m > 0
    ensures Cong(m, x, y) <==> Canon(m, x) == Canon(m, y)
  {
    CanonCong(m, x);
    CanonCong(m, y);
    if Cong(m, x, y) {
      CongTrans(m, Canon(m, x), x, y);
      CongSym(m, Canon(m, y), y);
      CongTrans(m, Canon(m, x), y, Canon(m, y));
      var k := CongWitness(m, Canon(m, x), Canon(m, y));
      SmallMultiple(m, Canon(m, x) - Canon(m, y), k);
    }
    if Canon(m, x) == Canon(m, y) {
      CongSym(m, Canon(m, x), x);
      CongTrans(m, x, Canon(m, x), y);
    }
  }

  lemma {:induction false} CanonIdempotent(m: int, x: int)
    requires m > 0
    ensures Canon(m, Canon(m, x)) == Canon(m, x)
  {
    CanonCong(m, x);
    CanonEqual(m, Canon(m, x), x);
  }

  predicate IsIdentity(m: int, p: Point)
    requires m > 0
  {
    Canon(m, p) == 0
  }

  /** The words that encode points and scalars. */
  predicate Decodes(m: int, word: int) {
    0 <= word < m
  }

  /** A word that encodes a point other than the identity. */
  predicate IsProper(m: int, word: int)
    requires m > 0
  {
    Decodes(m, word) && !IsIdentity(m, word)
  }

  lemma {:induction false} IdentityCong(m: int, p: Point)
    requires m > 0
    ensures IsIdentity(m, p) <==> Cong(m, p, 0)
  {
    CanonEqual(m, p, 0);
  }

  // ----- inverses -----

  ghost predicate Prime(m: int) {
    m > 1 && forall d: int, k: int :: d >= 1 && m == Times(k, d) ==> d == 1 || d == m
  }

  /** Extended Euclid: gcd together with its coefficients. */
  function Bezout(a: nat, b: nat): (r: (nat, int, int))
    decreases b
  {
    if b == 0 then (a, 1, 0)
    else
      var (g, x, y) := Bezout(b, a % b);
      (g, y, x - (a / b) * y)
  }

  lemma {:induction false} BezoutIdentity(a: nat, b: nat)
    ensures Bezout(a, b).1 * a + Bezout(a, b).2 * b == Bezout(a, b).0
    decreases b
  {
    if b != 0 {
      BezoutIdentity(b, a % b);
      var (g, x, y) := Bezout(b, a % b);
      BezoutStep(a, b, a / b, a % b, x, y);
    }
  }

  lemma {:induction false} BezoutStep(a: int, b: int, q: int, r: int, x: int, y: int)
    requires a == q * b + r
    ensures y * a + (x - q * y) * b == x * b + y * r
  {
  }

  lemma {:induction false} BezoutDivides(a: nat, b: nat) returns (ka: int, kb: int)
    requires a > 0 || b > 0
    ensures Bezout(a, b).0 >= 1
    ensures a == Times(ka, Bezout(a, b).0) && b == Times(kb, Bezout(a, b).0)
    decreases b
  {
    if b == 0 {
      ka, kb := 1, 0;
    } else {
      var k1, k2 := BezoutDivides(b, a % b);
      ka, kb := (a / b) * k1 + k2, k1;
      DividesStep(a, b, a / b, a % b, k1, k2, Bezout(b, a % b).0);
    }
  }

  lemma {:induction false} DividesStep(a: int, b: int, q: int, r: int, k1: int, k2: int, g: int)
    requires a == q * b + r && b == k1 * g && r == k2 * g
    ensures a == (q * k1 + k2) * g
  {
    assert q * (k1 * g) == (q * k1) * g;
  }

  /** The library's scalar inversion; zero has no inverse and maps to zero. */
  function Inv(m: int, a: Scalar): (v: Scalar)
    requires m > 0
  {
    if Canon(m, a) == 0 then 0 else Bezout(Canon(m, a), m).1
  }

  lemma {:induction false} InvLaw(m: int, a: Scalar)
    requires Prime(m) && !IsIdentity(m, a)
    ensures Cong(m, a * Inv(m, a), 1)
  {
    var c := Canon(m, a);
    var ka, kb := BezoutDivides(c, m);
    BezoutIdentity(c, m);
    var (g, x, y) := Bezout(c, m);
    assert m == Times(kb, g);
    if g == m {
      SmallMultiple(m, c, ka);
      assert false;
    }
    assert x * c + y * m == 1;
    CongBy(m, c * x, 1, -y);
    CanonCong(m, a);
    CongSym(m, c, a);
    CongScale(m, x, a, c);
    assert x * a == a * x && x * c == c * x;
    CongTrans(m, a * x, c * x, 1);
  }

  // ----- powers -----

  function Pow(b: int, n: nat): (r: int) {
    if n == 0 then 1 else Pow(b, n - 1) * b
  }

  lemma {:induction false} PowAdd(b: int, i: nat, j: nat)
    ensures Pow(b, i + j) == Pow(b, i) * Pow(b, j)
  {
    if j != 0 {
      PowAdd(b, i, j - 1);
      assert Pow(b, i) * Pow(b, j) == (Pow(b, i) * Pow(b, j - 1)) * b;
    }
  }

  /** If v inverts u then every power of v inverts the same power of u. */
  lemma {:induction false} PowUnit(m: int, u: int, v: int, n: nat)
    requires Cong(m, u * v, 1)
    ensures Cong(m, Pow(u, n) * Pow(v, n), 1)
  {
    if n == 0 {
      CongRefl(m, 1);
    } else {
      PowUnit(m, u, v, n - 1);
      var p, q := Pow(u, n - 1), Pow(v, n - 1);
      assert (p * u) * (q * v) == (p * q) * (u * v);
      CongMul(m, p * q, 1, u * v, 1);
    }
  }

  lemma {:induction false} PowPositive(b: int, n: nat)
    requires b > 0
    ensures Pow(b, n) > 0
  {
    if n != 0 {
      PowPositive(b, n - 1);
    }
  }
}
