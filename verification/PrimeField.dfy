/** Arithmetic modulo a prime `q`: the scalar field of Ristretto255, and, because the group
    has prime order, the group itself with every point written as its multiple of the
    basepoint.  Congruences are carried as integer identities, so that the protocol proofs
    are polynomial identities over `int`. */
module PrimeField {

  predicate Divides(d: int, n: int)
    requires d > 0
  {
    n % d == 0
  }

  ghost predicate IsPrime(q: int) {
    2 <= q && forall d :: 2 <= d < q ==> !Divides(d, q)
  }

  predicate Congruent(q: int, a: int, b: int)
    requires q > 0
  {
    a % q == b % q
  }

  lemma SmallMultiple(q: int, m: int)
    requires q > 0 && -q < q * m < q
    ensures m == 0
  {
    assert m >= 1 ==> q * m >= q * 1;
    assert m <= -1 ==> q * m <= q * -1;
  }

  /** Integers that differ by a multiple of `q` are congruent. */
  lemma CongruentBy(q: int, a: int, b: int, k: int)
    requires q > 0 && a == b + k * q
    ensures Congruent(q, a, b)
  {
    var m := k + b / q - a / q;
    assert a % q - b % q == q * m by {
      assert a == q * (a / q) + a % q && b == q * (b / q) + b % q;
      assert q * m == q * k + q * (b / q) - q * (a / q);
    }
    SmallMultiple(q, m);
  }

  lemma Quotient(q: int, a: int, b: int) returns (k: int)
    requires q > 0 && Congruent(q, a, b)
    ensures a == b + k * q
  {
    k := a / q - b / q;
    assert a == q * (a / q) + a % q && b == q * (b / q) + b % q;
    assert k * q == q * (a / q) - q * (b / q);
  }

  lemma AddCongruent(q: int, a: int, a': int, b: int, b': int)
    requires q > 0 && Congruent(q, a, a') && Congruent(q, b, b')
    ensures Congruent(q, a + b, a' + b') && Congruent(q, a - b, a' - b')
  {
    var k := Quotient(q, a, a');
    var l := Quotient(q, b, b');
    assert (k + l) * q == k * q + l * q && (k - l) * q == k * q - l * q;
    CongruentBy(q, a + b, a' + b', k + l);
    CongruentBy(q, a - b, a' - b', k - l);
  }

  lemma MulCongruent(q: int, a: int, a': int, b: int, b': int)
    requires q > 0 && Congruent(q, a, a') && Congruent(q, b, b')
    ensures Congruent(q, a * b, a' * b')
  {
    var k := Quotient(q, a, a');
    var l := Quotient(q, b, b');
    var m := k * b + a' * l;
    assert a * b == a' * b' + m * q by {
      assert a * b == (a' + k * q) * b == a' * b + (k * b) * q;
      assert a' * b == a' * (b' + l * q) == a' * b' + (a' * l) * q;
      assert m * q == (k * b) * q + (a' * l) * q;
    }
    CongruentBy(q, a * b, a' * b', m);
  }

  lemma ReduceCongruent(q: int, a: int)
    requires q > 0
    ensures 0 <= a % q < q && Congruent(q, a % q, a)
  {
    CongruentBy(q, a, a % q, a / q);
  }

  /** Residues are the canonical representatives of their class. */
  lemma CongruentResidues(q: int, a: int, b: int)
    requires 0 <= a < q && 0 <= b < q && Congruent(q, a, b)
    ensures a == b
  {
    var k := Quotient(q, a, b);
    assert q * k == k * q;
    SmallMultiple(q, k);
  }

  /** Extended Euclid: `(g, x, y)` with `g == a * x + b * y` dividing both numbers. */
  function Bezout(a: nat, b: nat): (r: (int, int, int))
    requires a > 0 || b > 0
    ensures r.0 > 0 && r.0 == a * r.1 + b * r.2
    ensures Divides(r.0, a) && Divides(r.0, b)
    decreases b
  {
    if b == 0 then
      (a, 1, 0)
    else
      var (g, x, y) := Bezout(b, a % b);
      BezoutStep(a, b, g, x, y);
      (g, y, x - (a / b) * y)
  }

  lemma BezoutStep(a: int, b: int, g: int, x: int, y: int)
    requires b > 0 && g > 0 && g == b * x + (a % b) * y
    requires Divides(g, b) && Divides(g, a % b)
    ensures g == a * y + b * (x - (a / b) * y) && Divides(g, a)
  {
    assert a == b * (a / b) + a % b;
    assert (a % b) * y == a * y - b * ((a / b) * y) by {
      assert (a % b) * y == (a - b * (a / b)) * y == a * y - (b * (a / b)) * y;
    }
    MulCongruent(g, b, 0, a / b, a / b);
    AddCongruent(g, b * (a / b), 0 * (a / b), a % b, 0);
  }

  /** Every nonzero residue of a prime field has an inverse. */
  function Inverse(q: int, a: int): (inv: int)
    requires IsPrime(q) && !Congruent(q, a, 0)
    ensures 0 <= inv < q && Congruent(q, a * inv, 1)
  {
    var (g, x, y) := Bezout(a % q, q);
    InverseIsBezout(q, a, g, x, y);
    x % q
  }

  lemma CoprimeToPrime(q: int, r: int, g: int)
    requires IsPrime(q) && 0 < r < q && g > 0 && Divides(g, r) && Divides(g, q)
    ensures g == 1
  {
    var k := Quotient(g, r, 0);
    assert k <= 0 ==> k * g <= 0;
    assert k >= 1 ==> k * g >= 1 * g;
  }

  lemma InverseIsBezout(q: int, a: int, g: int, x: int, y: int)
    requires IsPrime(q) && !Congruent(q, a, 0)
    requires g > 0 && g == (a % q) * x + q * y && Divides(g, a % q) && Divides(g, q)
    ensures Congruent(q, a * (x % q), 1)
  {
    var r := a % q;
    assert 0 < r < q;
    CoprimeToPrime(q, r, g);
    assert r * x == 1 + (-y) * q by {
      assert (-y) * q == -(q * y);
    }
    CongruentBy(q, r * x, 1, -y);
    ScaledInverse(q, a, r, x);
  }

  lemma ScaledInverse(q: int, a: int, r: int, x: int)
    requires q > 0 && r == a % q && Congruent(q, r * x, 1)
    ensures Congruent(q, a * (x % q), 1)
  {
    ReduceCongruent(q, a);
    ReduceCongruent(q, x);
    MulCongruent(q, a, r, x % q, x);
  }

  /** A prime field has no zero divisors. */
  lemma ZeroProduct(q: int, a: int, b: int)
    requires IsPrime(q)
    ensures Congruent(q, a * b, 0) <==> Congruent(q, a, 0) || Congruent(q, b, 0)
  {
    if Congruent(q, a * b, 0) && !Congruent(q, a, 0) {
      var inv := Inverse(q, a);
      MulCongruent(q, a * b, 0, inv, inv);
      MulCongruent(q, a * inv, 1, b, b);
      assert a * b * inv == a * inv * b;
    }
    if Congruent(q, a, 0) {
      MulCongruent(q, a, 0, b, b);
    }
    if Congruent(q, b, 0) {
      MulCongruent(q, a, a, b, 0);
    }
  }

  /** When `n` inverts `m`, an equation `m * x == y` gives `x == y * n`. */
  lemma Unscale(q: int, m: int, n: int, x: int, y: int)
    requires q > 0 && Congruent(q, m * n, 1) && Congruent(q, m * x, y)
    ensures Congruent(q, x, y * n)
  {
    MulCongruent(q, m * x, y, n, n);
    MulCongruent(q, m * n, 1, x, x);
    assert (m * x) * n == (m * n) * x;
  }

  /** Solving `m * x == y`: multiply by the inverse. */
  lemma SolveLinear(q: int, m: int, x: int, y: int)
    requires IsPrime(q) && !Congruent(q, m, 0)
    ensures Congruent(q, m * x, y) <==> Congruent(q, x, y * Inverse(q, m))
  {
    var inv := Inverse(q, m);
    if Congruent(q, m * x, y) {
      Unscale(q, m, inv, x, y);
    }
    if Congruent(q, x, y * inv) {
      assert inv * m == m * inv && inv * y == y * inv;
      Unscale(q, inv, m, y, x);
      assert x * m == m * x;
    }
  }

  /** Differences decide congruence. */
  lemma DifferenceCongruent(q: int, a: int, b: int)
    requires q > 0
    ensures Congruent(q, a - b, 0) <==> Congruent(q, a, b)
  {
    if Congruent(q, a - b, 0) {
      AddCongruent(q, a - b, 0, b, b);
    }
    if Congruent(q, a, b) {
      AddCongruent(q, a, b, b, b);
    }
  }
}
