/** Pedersen commitments `C = value * G + blinding * H`.  The group has prime order `q`, so a
    point is its multiple of the basepoint: `G` is 1 and `H` is `h`.  A compressed point is
    the number its 32 bytes spell; only numbers below `q` decompress. */
module Pedersen {
  import opened Optional
  import opened PrimeField

  type Scalar = nat
  type Point = nat

  datatype PedersenParams = PedersenParams(q: nat, h: nat) {
    ghost predicate Valid() {
      IsPrime(q) && 0 < h < q
    }
  }

  datatype Commitment = Commitment(code: nat) {
    function Decompress(pp: PedersenParams): Option<Point> {
      if code < pp.q then Some(code) else None
    }
  }

  const G: Point := 1

  function AddPoints(q: nat, a: Point, b: Point): Point
    requires q > 0
  {
    (a + b) % q
  }

  function SubPoints(q: nat, a: Point, b: Point): Point
    requires q > 0
  {
    (a - b) % q
  }

  function Times(q: nat, s: Scalar, p: Point): Point
    requires q > 0
  {
    (s * p) % q
  }

  function Commit(pp: PedersenParams, value: Scalar, blinding: Scalar): Commitment
    requires pp.q > 0
  {
    Commitment(AddPoints(pp.q, Times(pp.q, value, G), Times(pp.q, blinding, pp.h)))
  }

  predicate VerifyOpen(pp: PedersenParams, commitment: Commitment, value: Scalar, blinding: Scalar)
    requires pp.q > 0
  {
    Commit(pp, value, blinding) == commitment
  }

  lemma AddPointsCongruent(q: nat, a: Point, b: Point, m: int, n: int)
    requires q > 0 && Congruent(q, a, m) && Congruent(q, b, n)
    ensures AddPoints(q, a, b) < q && Congruent(q, AddPoints(q, a, b), m + n)
  {
    AddCongruent(q, a, m, b, n);
    ReduceCongruent(q, a + b);
  }

  lemma SubPointsCongruent(q: nat, a: Point, b: Point, m: int, n: int)
    requires q > 0 && Congruent(q, a, m) && Congruent(q, b, n)
    ensures SubPoints(q, a, b) < q && Congruent(q, SubPoints(q, a, b), m - n)
  {
    AddCongruent(q, a, m, b, n);
    ReduceCongruent(q, a - b);
  }

  /** A commitment is a canonical encoding of `value + blinding * h`. */
  lemma CommitCongruent(pp: PedersenParams, value: Scalar, blinding: Scalar)
    requires pp.q > 0
    ensures Commit(pp, value, blinding).code < pp.q
    ensures Congruent(pp.q, Commit(pp, value, blinding).code, value + blinding * pp.h)
  {
    ReduceCongruent(pp.q, value * G);
    ReduceCongruent(pp.q, blinding * pp.h);
    AddPointsCongruent(pp.q, Times(pp.q, value, G), Times(pp.q, blinding, pp.h), value, blinding * pp.h);
  }

  /** `VerifyOpen` as an equation. */
  lemma OpeningIff(pp: PedersenParams, c: Commitment, value: Scalar, blinding: Scalar)
    requires pp.q > 0 && c.code < pp.q
    ensures VerifyOpen(pp, c, value, blinding) <==> Congruent(pp.q, c.code, value + blinding * pp.h)
  {
    CommitCongruent(pp, value, blinding);
    if Congruent(pp.q, c.code, value + blinding * pp.h) {
      CongruentResidues(pp.q, c.code, Commit(pp, value, blinding).code);
    }
  }

  /** The only blinding that opens `c` to `value`. */
  function BlindingFor(pp: PedersenParams, c: Commitment, value: Scalar): Scalar
    requires pp.Valid()
  {
    GeneratorNonzero(pp);
    ((c.code - value) * Inverse(pp.q, pp.h)) % pp.q
  }

  lemma GeneratorNonzero(pp: PedersenParams)
    requires pp.Valid()
    ensures !Congruent(pp.q, pp.h, 0)
  {
    if Congruent(pp.q, pp.h, 0) {
      CongruentResidues(pp.q, pp.h, 0);
    }
  }

  /** Perfect hiding: every canonical commitment opens to every value, with exactly one
      blinding scalar, so the commitment alone says nothing about the value. */
  lemma Hiding(pp: PedersenParams, c: Commitment, value: Scalar, blinding: Scalar)
    requires pp.Valid() && c.code < pp.q && blinding < pp.q
    ensures VerifyOpen(pp, c, value, blinding) <==> blinding == BlindingFor(pp, c, value)
  {
    var q, h := pp.q, pp.h;
    GeneratorNonzero(pp);
    OpeningIff(pp, c, value, blinding);
    var y := c.code - value;
    var raw := y * Inverse(q, h);
    SolveLinear(q, h, blinding, y);
    ReduceCongruent(q, raw);
    assert Congruent(q, h * blinding, y) <==> Congruent(q, c.code, value + blinding * h) by {
      assert h * blinding == blinding * h;
      DifferenceCongruent(q, h * blinding, y);
      DifferenceCongruent(q, c.code, value + blinding * h);
      NegateCongruent(q, c.code - (value + blinding * h));
      assert h * blinding - y == -(c.code - (value + blinding * h));
    }
    if Congruent(q, blinding, raw) {
      CongruentResidues(q, blinding, BlindingFor(pp, c, value));
    }
  }

  lemma NegateCongruent(q: int, a: int)
    requires q > 0
    ensures Congruent(q, a, 0) <==> Congruent(q, -a, 0)
  {
    if Congruent(q, a, 0) {
      AddCongruent(q, 0, 0, a, 0);
    }
    if Congruent(q, -a, 0) {
      AddCongruent(q, 0, 0, -a, 0);
    }
  }

  /** The discrete logarithm of `H` that two openings of one commitment give away. */
  function TrapdoorFrom(pp: PedersenParams, v: Scalar, r: Scalar, v': Scalar, r': Scalar): Scalar
    requires pp.Valid() && !Congruent(pp.q, r' - r, 0)
  {
    ((v - v') * Inverse(pp.q, r' - r)) % pp.q
  }

  /** Computational binding: two different openings of one commitment compute `log_G(H)`,
      the number nobody is meant to know. */
  lemma Binding(pp: PedersenParams, c: Commitment, v: Scalar, r: Scalar, v': Scalar, r': Scalar)
    requires pp.Valid() && v < pp.q && r < pp.q && v' < pp.q && r' < pp.q
    requires VerifyOpen(pp, c, v, r) && VerifyOpen(pp, c, v', r') && (v, r) != (v', r')
    ensures !Congruent(pp.q, r' - r, 0) && pp.h == TrapdoorFrom(pp, v, r, v', r')
  {
    var q, h := pp.q, pp.h;
    CommitCongruent(pp, v, r);
    CommitCongruent(pp, v', r');
    assert Congruent(q, v - v', (r' - r) * h) by {
      AddCongruent(q, v + r * h, v' + r' * h, v' + r * h, v' + r * h);
      assert (r' - r) * h == (v' + r' * h) - (v' + r * h);
    }
    assert !Congruent(q, r' - r, 0) by {
      if Congruent(q, r' - r, 0) {
        DifferenceCongruent(q, r', r);
        CongruentResidues(q, r', r);
        MulCongruent(q, r' - r, 0, h, h);
        DifferenceCongruent(q, v, v');
        CongruentResidues(q, v, v');
      }
    }
    SolveLinear(q, r' - r, h, v - v');
    var raw := (v - v') * Inverse(q, r' - r);
    ReduceCongruent(q, raw);
    CongruentResidues(q, h, TrapdoorFrom(pp, v, r, v', r'));
  }
}
