/** What the combined proof is for: completeness, special soundness of one packet and of a
    chain of packets, zero knowledge, and binding of a proof to its context. */
module SigmaTheorems {
  import opened PrimeField
  import opened Pedersen
  import opened Transcripts
  import opened SigmaProtocol

  // ---- completeness ---------------------------------------------------------------------

  /** The public statement of a prover that knows its openings; `prev` is the number inside
      the previous sequence commitment. */
  function StatementOf(pp: PedersenParams, w: PacketWitness, prev: Scalar): PacketStatement
    requires pp.q > 0
  {
    PacketStatement(
      Commit(pp, w.value, w.blindingV), Commit(pp, w.sequence, w.blindingS), Commit(pp, prev, w.prevBlindingS))
  }

  /** A leg answered with `v'` for a target that really holds `v` is off by `c * (v - v')`. */
  lemma LegDefect(pp: PedersenParams, t: int, x: int, z: int, r: int, c: int,
                  k: int, l: int, v: int, b: int, v': int)
    requires pp.q > 0
    requires Congruent(pp.q, t, k + l * pp.h) && Congruent(pp.q, x, v + b * pp.h)
    requires Congruent(pp.q, z, k + c * v') && Congruent(pp.q, r, l + c * b)
    ensures Leg(pp, t, x, z, r, c) <==> Congruent(pp.q, c * (v - v'), 0)
  {
    var q, h := pp.q, pp.h;
    var left := (k + l * h) + c * (v + b * h);
    var right := (k + c * v') + (l + c * b) * h;
    assert Congruent(q, t + c * x, left) by {
      MulCongruent(q, c, c, x, v + b * h);
      AddCongruent(q, t, k + l * h, c * x, c * (v + b * h));
    }
    assert Congruent(q, z + r * h, right) by {
      MulCongruent(q, r, l + c * b, h, h);
      AddCongruent(q, z, k + c * v', r * h, (l + c * b) * h);
    }
    assert left - right == c * (v - v') by {
      assert c * (v + b * h) == c * v + c * (b * h);
      assert (l + c * b) * h == l * h + (c * b) * h;
      assert c * (b * h) == (c * b) * h;
      assert c * (v - v') == c * v - c * v';
    }
    DifferenceCongruent(q, left, right);
  }

  /** An honest proof is accepted exactly when the numbers are consecutive, or the challenge
      happens to be zero. */
  lemma Completeness(pp: PedersenParams, w: PacketWitness, prev: Scalar, k: Nonces, c: Scalar)
    requires pp.Valid()
    ensures Accepts(pp, StatementOf(pp, w, prev), HonestProof(pp, w, k, c), c)
       <==> Congruent(pp.q, w.sequence, prev + 1) || Congruent(pp.q, c, 0)
  {
    var q, h := pp.q, pp.h;
    var st, proof := StatementOf(pp, w, prev), HonestProof(pp, w, k, c);
    HonestCongruences(pp, w, prev, k, c);
    LegDefect(pp, proof.t.tV.code, st.commitmentV.code, proof.z.zV, proof.z.zRv, c,
              k.kV, k.kRv, w.value, w.blindingV, w.value);
    LegDefect(pp, proof.t.tS.code, st.commitmentS.code, proof.z.zS, proof.z.zRs, c,
              k.kS, k.kRs, w.sequence, w.blindingS, w.sequence);
    assert c * (w.value - w.value) == 0 && c * (w.sequence - w.sequence) == 0;
    LegDefect(pp, proof.t.tLink.code, st.commitmentS.code - st.prevCommitmentS.code - G, 0, proof.z.zDelta, c,
              0, k.kDelta, w.sequence - prev - 1, w.blindingS - w.prevBlindingS, 0);
    ZeroProduct(q, c, w.sequence - prev - 1);
    DifferenceCongruent(q, w.sequence, prev + 1);
  }

  lemma HonestCongruences(pp: PedersenParams, w: PacketWitness, prev: Scalar, k: Nonces, c: Scalar)
    requires pp.Valid()
    ensures var q, h := pp.q, pp.h;
      var st, p := StatementOf(pp, w, prev), HonestProof(pp, w, k, c);
      && Decodes(pp, st, p.t)
      && Congruent(q, p.t.tV.code, k.kV + k.kRv * h) && Congruent(q, st.commitmentV.code, w.value + w.blindingV * h)
      && Congruent(q, p.z.zV, k.kV + c * w.value) && Congruent(q, p.z.zRv, k.kRv + c * w.blindingV)
      && Congruent(q, p.t.tS.code, k.kS + k.kRs * h) && Congruent(q, st.commitmentS.code, w.sequence + w.blindingS * h)
      && Congruent(q, p.z.zS, k.kS + c * w.sequence) && Congruent(q, p.z.zRs, k.kRs + c * w.blindingS)
      && Congruent(q, p.t.tLink.code, 0 + k.kDelta * h)
      && Congruent(q, st.commitmentS.code - st.prevCommitmentS.code - G,
                   (w.sequence - prev - 1) + (w.blindingS - w.prevBlindingS) * h)
      && Congruent(q, p.z.zDelta, k.kDelta + c * (w.blindingS - w.prevBlindingS))
  {
    var q, h := pp.q, pp.h;
    var st := StatementOf(pp, w, prev);
    CommitCongruent(pp, k.kV, k.kRv);
    CommitCongruent(pp, k.kS, k.kRs);
    CommitCongruent(pp, w.value, w.blindingV);
    CommitCongruent(pp, w.sequence, w.blindingS);
    CommitCongruent(pp, prev, w.prevBlindingS);
    ReduceCongruent(q, k.kV + c * w.value);
    ReduceCongruent(q, k.kRv + c * w.blindingV);
    ReduceCongruent(q, k.kS + c * w.sequence);
    ReduceCongruent(q, k.kRs + c * w.blindingS);
    ReduceCongruent(q, k.kDelta * h);
    var delta := w.blindingS - w.prevBlindingS;
    assert Congruent(q, (k.kDelta + c * (delta % q)) % q, k.kDelta + c * delta) by {
      ReduceCongruent(q, delta);
      MulCongruent(q, c, c, delta % q, delta);
      AddCongruent(q, k.kDelta, k.kDelta, c * (delta % q), c * delta);
      ReduceCongruent(q, k.kDelta + c * (delta % q));
    }
    LinkTarget(pp, st.commitmentS.code, st.prevCommitmentS.code, w.sequence, w.blindingS, prev, w.prevBlindingS);
  }

  lemma LinkTarget(pp: PedersenParams, cS: int, cPrev: int, s: int, rS: int, prev: int, rPrev: int)
    requires pp.q > 0
    requires Congruent(pp.q, cS, s + rS * pp.h) && Congruent(pp.q, cPrev, prev + rPrev * pp.h)
    ensures Congruent(pp.q, cS - cPrev - G, (s - prev - 1) + (rS - rPrev) * pp.h)
  {
    var q, h := pp.q, pp.h;
    var a, b := s + rS * h, prev + rPrev * h;
    assert (s - prev - 1) + (rS - rPrev) * h == a - b - 1 by {
      assert (rS - rPrev) * h == rS * h - rPrev * h;
    }
    DifferenceLess(q, cS, a, cPrev, b);
  }

  lemma DifferenceLess(q: int, x: int, a: int, y: int, b: int)
    requires q > 0 && Congruent(q, x, a) && Congruent(q, y, b)
    ensures Congruent(q, x - y - G, a - b - 1)
  {
    AddCongruent(q, x, a, y, b);
    AddCongruent(q, x - y, a - b, G, 1);
  }

  /** End to end: prover and verifier derive one challenge, and the verdict is `Ok` exactly
      for a consecutive sequence number, or for that challenge being zero. */
  method ProveThenVerify(pp: PedersenParams, sponge: Oracle, w: PacketWitness, prev: Scalar,
                         context: seq<nat>, k: Nonces)
    returns (r: Verdict, c: Scalar)
    requires pp.Valid()
    ensures c == sponge(ProofLog(context, StatementOf(pp, w, prev), Announce(pp, k))) % pp.q
    ensures r != Decompress
    ensures r == Ok <==> Congruent(pp.q, w.sequence, prev + 1) || c == 0
  {
    var st := StatementOf(pp, w, prev);
    var proof := Prove(pp, sponge, w, st, context, k);
    r := Verify(pp, sponge, st, proof, context);
    c := Challenge(pp, sponge, context, st, proof.t);
    Completeness(pp, w, prev, k, c);
    HonestCongruences(pp, w, prev, k, c);
    ReduceCongruent(pp.q, sponge(ProofLog(context, st, proof.t)));
    SameResidue(pp.q, c, 0);
  }

  // ---- special soundness ----------------------------------------------------------------

  /** What two answers to different challenges reveal about one exponent. */
  function ExtractScalar(q: nat, z: int, z': int, c: int, c': int): Scalar
    requires IsPrime(q) && !Congruent(q, c - c', 0)
  {
    ((z - z') * Inverse(q, c - c')) % q
  }

  lemma LegDifference(pp: PedersenParams, t: int, x: int, z: int, r: int, c: int, z': int, r': int, c': int)
    requires pp.q > 0 && Leg(pp, t, x, z, r, c) && Leg(pp, t, x, z', r', c')
    ensures Congruent(pp.q, (c - c') * x, (z - z') + (r - r') * pp.h)
  {
    var h := pp.h;
    AddCongruent(pp.q, t + c * x, z + r * h, t + c' * x, z' + r' * h);
    assert (c - c') * x == (t + c * x) - (t + c' * x);
    assert (r - r') * h == r * h - r' * h;
  }

  lemma ScaleOpening(q: int, a: int, b: int, h: int, inv: int)
    requires q > 0
    ensures Congruent(q, (a + b * h) * inv, (a * inv) % q + ((b * inv) % q) * h)
  {
    assert (a + b * h) * inv == a * inv + (b * inv) * h by {
      assert (b * h) * inv == (b * inv) * h;
    }
    ReduceCongruent(q, a * inv);
    ReduceCongruent(q, b * inv);
    MulCongruent(q, (b * inv) % q, b * inv, h, h);
    AddCongruent(q, (a * inv) % q, a * inv, ((b * inv) % q) * h, (b * inv) * h);
  }

  lemma LegExtract(pp: PedersenParams, t: int, x: int, z: int, r: int, c: int, z': int, r': int, c': int)
    requires pp.Valid() && !Congruent(pp.q, c - c', 0)
    requires Leg(pp, t, x, z, r, c) && Leg(pp, t, x, z', r', c')
    ensures Congruent(pp.q, x, ExtractScalar(pp.q, z, z', c, c') + ExtractScalar(pp.q, r, r', c, c') * pp.h)
  {
    LegDifference(pp, t, x, z, r, c, z', r', c');
    SolveLinear(pp.q, c - c', x, (z - z') + (r - r') * pp.h);
    ScaleOpening(pp.q, z - z', r - r', pp.h, Inverse(pp.q, c - c'));
  }

  /** Two accepting transcripts that share their first messages. */
  datatype Fork = Fork(st: PacketStatement, t: FirstMessage, z: Responses, c: Scalar, z': Responses, c': Scalar) {
    ghost predicate Valid(pp: PedersenParams) {
      && pp.Valid()
      && !Congruent(pp.q, c - c', 0)
      && Accepts(pp, st, CombinedProof(t, z), c)
      && Accepts(pp, st, CombinedProof(t, z'), c')
    }
  }

  datatype Openings = Openings(
    value: Scalar, blindingV: Scalar, sequence: Scalar, blindingS: Scalar, previous: Scalar, blindingPrev: Scalar)

  function Extract(pp: PedersenParams, f: Fork): Openings
    requires pp.Valid() && !Congruent(pp.q, f.c - f.c', 0)
  {
    var s := ExtractScalar(pp.q, f.z.zS, f.z'.zS, f.c, f.c');
    var rS := ExtractScalar(pp.q, f.z.zRs, f.z'.zRs, f.c, f.c');
    var delta := ExtractScalar(pp.q, f.z.zDelta, f.z'.zDelta, f.c, f.c');
    Openings(
      ExtractScalar(pp.q, f.z.zV, f.z'.zV, f.c, f.c'), ExtractScalar(pp.q, f.z.zRv, f.z'.zRv, f.c, f.c'),
      s, rS, (s - 1) % pp.q, (rS - delta) % pp.q)
  }

  /** Special soundness: the extractor opens all three commitments, the previous one to the
      predecessor of the extracted sequence number. */
  lemma SpecialSoundness(pp: PedersenParams, f: Fork)
    requires f.Valid(pp)
    ensures var o := Extract(pp, f);
      && VerifyOpen(pp, f.st.commitmentV, o.value, o.blindingV)
      && VerifyOpen(pp, f.st.commitmentS, o.sequence, o.blindingS)
      && VerifyOpen(pp, f.st.prevCommitmentS, o.previous, o.blindingPrev)
      && Congruent(pp.q, o.sequence, o.previous + 1)
  {
    var q, h := pp.q, pp.h;
    var o := Extract(pp, f);
    var delta := ExtractScalar(q, f.z.zDelta, f.z'.zDelta, f.c, f.c');
    var cS, cPrev := f.st.commitmentS.code, f.st.prevCommitmentS.code;
    LegExtract(pp, f.t.tV.code, f.st.commitmentV.code, f.z.zV, f.z.zRv, f.c, f.z'.zV, f.z'.zRv, f.c');
    LegExtract(pp, f.t.tS.code, cS, f.z.zS, f.z.zRs, f.c, f.z'.zS, f.z'.zRs, f.c');
    LegExtract(pp, f.t.tLink.code, cS - cPrev - G, 0, f.z.zDelta, f.c, 0, f.z'.zDelta, f.c');
    OpeningIff(pp, f.st.commitmentV, o.value, o.blindingV);
    OpeningIff(pp, f.st.commitmentS, o.sequence, o.blindingS);
    OpeningIff(pp, f.st.prevCommitmentS, o.previous, o.blindingPrev);
    assert ExtractScalar(q, 0, 0, f.c, f.c') == 0 by {
      assert (0 - 0) * Inverse(q, f.c - f.c') == 0;
    }
    PreviousOpening(pp, cS, cPrev, o.sequence, o.blindingS, delta);
    ReduceCongruent(q, o.sequence - 1);
    AddCongruent(q, o.previous, o.sequence - 1, 1, 1);
  }

  lemma PreviousOpening(pp: PedersenParams, cS: int, cPrev: int, s: int, rS: int, delta: int)
    requires pp.q > 0
    requires Congruent(pp.q, cS, s + rS * pp.h) && Congruent(pp.q, cS - cPrev - G, 0 + delta * pp.h)
    ensures Congruent(pp.q, cPrev, (s - 1) % pp.q + ((rS - delta) % pp.q) * pp.h)
  {
    var q, h := pp.q, pp.h;
    AddCongruent(q, cS - G, s + rS * h - 1, cS - cPrev - G, delta * h) by {
      AddCongruent(q, cS, s + rS * h, G, 1);
    }
    assert (rS - delta) * h == rS * h - delta * h;
    ReduceCongruent(q, s - 1);
    ReduceCongruent(q, rS - delta);
    MulCongruent(q, (rS - delta) % q, rS - delta, h, h);
    AddCongruent(q, (s - 1) % q, s - 1, ((rS - delta) % q) * h, (rS - delta) * h);
  }

  /** A run of forked proofs in which every packet's previous commitment is the commitment of
      the packet before it. */
  ghost predicate Chained(pp: PedersenParams, run: seq<Fork>) {
    && (forall i :: 0 <= i < |run| ==> run[i].Valid(pp))
    && (forall i :: 0 < i < |run| ==> run[i].st.prevCommitmentS == run[i - 1].st.commitmentS)
  }

  /** The two openings of packet `i`'s sequence commitment, extracted from it and from its
      successor, disagree, and so compute the discrete logarithm of `H`. */
  ghost predicate TrapdoorExposed(pp: PedersenParams, run: seq<Fork>, i: nat)
    requires Chained(pp, run) && i + 1 < |run|
  {
    var a, b := Extract(pp, run[i]), Extract(pp, run[i + 1]);
    && (a.sequence, a.blindingS) != (b.previous, b.blindingPrev)
    && !Congruent(pp.q, b.blindingPrev - a.blindingS, 0)
    && pp.h == TrapdoorFrom(pp, a.sequence, a.blindingS, b.previous, b.blindingPrev)
  }

  /** Soundness of a whole chain: the extracted numbers count up by one from the first, or
      the run gives away `log_G(H)`. */
  lemma ChainSoundness(pp: PedersenParams, run: seq<Fork>)
    requires pp.Valid() && Chained(pp, run)
    ensures (forall i :: 0 <= i < |run| ==>
               Extract(pp, run[i]).sequence == (Extract(pp, run[0]).sequence + i) % pp.q)
         || (exists i: nat :: i + 1 < |run| && TrapdoorExposed(pp, run, i))
  {
    if forall i: nat :: i + 1 < |run| ==> !TrapdoorExposed(pp, run, i) {
      forall i | 0 <= i < |run|
        ensures Extract(pp, run[i]).sequence == (Extract(pp, run[0]).sequence + i) % pp.q
      {
        CountsUp(pp, run, i);
      }
    }
  }

  lemma {:induction false} CountsUp(pp: PedersenParams, run: seq<Fork>, i: nat)
    requires pp.Valid() && Chained(pp, run) && i < |run|
    requires forall j: nat :: j + 1 < |run| ==> !TrapdoorExposed(pp, run, j)
    ensures Extract(pp, run[i]).sequence == (Extract(pp, run[0]).sequence + i) % pp.q
  {
    var q := pp.q;
    var first := Extract(pp, run[0]).sequence;
    if i == 0 {
      ReduceCongruent(q, first);
      ExtractBelow(pp, run[0]);
      CongruentResidues(q, first % q, first);
    } else {
      CountsUp(pp, run, i - 1);
      var a, b := Extract(pp, run[i - 1]), Extract(pp, run[i]);
      SpecialSoundness(pp, run[i - 1]);
      SpecialSoundness(pp, run[i]);
      ExtractBelow(pp, run[i - 1]);
      ExtractBelow(pp, run[i]);
      if (a.sequence, a.blindingS) != (b.previous, b.blindingPrev) {
        Binding(pp, run[i - 1].st.commitmentS, a.sequence, a.blindingS, b.previous, b.blindingPrev);
        assert TrapdoorExposed(pp, run, i - 1);
      }
      ReduceCongruent(q, first + (i - 1));
      AddCongruent(q, a.sequence, first + (i - 1), 1, 1);
      ReduceCongruent(q, first + i);
      CongruentResidues(q, b.sequence, (first + i) % q);
    }
  }

  lemma ExtractBelow(pp: PedersenParams, f: Fork)
    requires f.Valid(pp)
    ensures var o := Extract(pp, f);
      o.sequence < pp.q && o.blindingS < pp.q && o.previous < pp.q && o.blindingPrev < pp.q
  {
  }

  // ---- zero knowledge -------------------------------------------------------------------

  /** The simulator: given the challenge and freely chosen responses, solve for the first
      messages.  It sees the statement only. */
  function Simulate(pp: PedersenParams, st: PacketStatement, c: Scalar, z: Responses): FirstMessage
    requires pp.q > 0
  {
    var target := st.commitmentS.code - st.prevCommitmentS.code - G;
    FirstMessage(
      Commitment((z.zV + z.zRv * pp.h - c * st.commitmentV.code) % pp.q),
      Commitment((z.zS + z.zRs * pp.h - c * st.commitmentS.code) % pp.q),
      Commitment((0 + z.zDelta * pp.h - c * target) % pp.q))
  }

  lemma LegSolved(pp: PedersenParams, t: nat, x: int, z: int, r: int, c: int)
    requires pp.q > 0
    ensures t < pp.q && Leg(pp, t, x, z, r, c) <==> t == (z + r * pp.h - c * x) % pp.q
  {
    var q := pp.q;
    var solved := z + r * pp.h - c * x;
    ReduceCongruent(q, solved);
    if Leg(pp, t, x, z, r, c) {
      AddCongruent(q, t + c * x, z + r * pp.h, c * x, c * x);
      if t < q {
        CongruentResidues(q, t, solved % q);
      }
    }
    if t == solved % q {
      AddCongruent(q, t, solved, c * x, c * x);
    }
  }

  /** The accepting transcripts are exactly the simulated ones: responses and challenge fix
      the first messages, and every choice of responses is accepted. */
  lemma SimulatorExact(pp: PedersenParams, st: PacketStatement, proof: CombinedProof, c: Scalar)
    requires pp.Valid() && StatementDecodes(pp, st)
    ensures Accepts(pp, st, proof, c) <==> proof.t == Simulate(pp, st, c, proof.z)
  {
    var t, z := proof.t, proof.z;
    LegSolved(pp, t.tV.code, st.commitmentV.code, z.zV, z.zRv, c);
    LegSolved(pp, t.tS.code, st.commitmentS.code, z.zS, z.zRs, c);
    LegSolved(pp, t.tLink.code, st.commitmentS.code - st.prevCommitmentS.code - G, 0, z.zDelta, c);
  }

  function Nonce(q: nat, z: Scalar, c: Scalar, secret: int): Scalar
    requires q > 0
  {
    (z - c * secret) % q
  }

  /** The nonces behind a set of responses. */
  function Unrespond(q: nat, w: PacketWitness, z: Responses, c: Scalar): Nonces
    requires q > 0
  {
    var deltaR := (w.blindingS - w.prevBlindingS) % q;
    Nonces(
      Nonce(q, z.zV, c, w.value), Nonce(q, z.zRv, c, w.blindingV),
      Nonce(q, z.zS, c, w.sequence), Nonce(q, z.zRs, c, w.blindingS),
      Nonce(q, z.zDelta, c, deltaR))
  }

  lemma AnswerBijective(q: nat, k: Scalar, c: Scalar, secret: int)
    requires k < q
    ensures Answer(q, k, c, secret) < q && Nonce(q, k, c, secret) < q
    ensures Nonce(q, Answer(q, k, c, secret), c, secret) == k
    ensures Answer(q, Nonce(q, k, c, secret), c, secret) == k
  {
    var s := c * secret;
    ReduceCongruent(q, k + s);
    AddCongruent(q, (k + s) % q, k + s, s, s);
    ReduceCongruent(q, (k + s) % q - s);
    CongruentResidues(q, ((k + s) % q - s) % q, k);
    ReduceCongruent(q, k - s);
    AddCongruent(q, (k - s) % q, k - s, s, s);
    ReduceCongruent(q, (k - s) % q + s);
    CongruentResidues(q, ((k - s) % q + s) % q, k);
  }

  /** For a fixed challenge and witness, answering is a bijection of Z_q^5: uniform nonces
      give uniform responses, whatever the witness. */
  lemma ResponsesBijective(q: nat, w: PacketWitness, c: Scalar, k: Nonces, z: Responses)
    requires q > 0 && k.Below(q) && z.Below(q)
    ensures Respond(q, w, k, c).Below(q) && Unrespond(q, w, z, c).Below(q)
    ensures Unrespond(q, w, Respond(q, w, k, c), c) == k
    ensures Respond(q, w, Unrespond(q, w, z, c), c) == z
  {
    var deltaR := (w.blindingS - w.prevBlindingS) % q;
    AnswerBijective(q, k.kV, c, w.value);
    AnswerBijective(q, k.kRv, c, w.blindingV);
    AnswerBijective(q, k.kS, c, w.sequence);
    AnswerBijective(q, k.kRs, c, w.blindingS);
    AnswerBijective(q, k.kDelta, c, deltaR);
    AnswerBijective(q, z.zV, c, w.value);
    AnswerBijective(q, z.zRv, c, w.blindingV);
    AnswerBijective(q, z.zS, c, w.sequence);
    AnswerBijective(q, z.zRs, c, w.blindingS);
    AnswerBijective(q, z.zDelta, c, deltaR);
  }

  /** Perfect zero knowledge for a given challenge: a transcript with canonical responses is
      accepted iff the simulator makes it iff the honest prover makes it, from exactly one
      choice of nonces. */
  lemma ZeroKnowledge(pp: PedersenParams, w: PacketWitness, prev: Scalar, proof: CombinedProof, c: Scalar)
    requires pp.Valid() && proof.z.Below(pp.q) && Congruent(pp.q, w.sequence, prev + 1)
    ensures var st := StatementOf(pp, w, prev);
      && (Accepts(pp, st, proof, c) <==> proof.t == Simulate(pp, st, c, proof.z))
      && (Accepts(pp, st, proof, c) <==> exists k: Nonces :: k.Below(pp.q) && proof == HonestProof(pp, w, k, c))
      && (forall k: Nonces :: k.Below(pp.q) && proof == HonestProof(pp, w, k, c) ==>
            k == Unrespond(pp.q, w, proof.z, c))
  {
    var q := pp.q;
    var st := StatementOf(pp, w, prev);
    var k0 := Unrespond(q, w, proof.z, c);
    HonestCongruences(pp, w, prev, k0, c);
    SimulatorExact(pp, st, proof, c);
    ResponsesBijective(q, w, c, Nonces(0, 0, 0, 0, 0), proof.z);
    Completeness(pp, w, prev, k0, c);
    SimulatorExact(pp, st, HonestProof(pp, w, k0, c), c);
    forall k: Nonces | k.Below(q) && proof == HonestProof(pp, w, k, c)
      ensures k == k0
    {
      ResponsesBijective(q, w, c, k, proof.z);
    }
  }

  // ---- binding to the context -----------------------------------------------------------

  /** The transcript determines everything public: two logs are equal only for the same
      context, statement and first messages. */
  lemma LogInjective(context: seq<nat>, st: PacketStatement, t: FirstMessage,
                     context': seq<nat>, st': PacketStatement, t': FirstMessage)
    ensures ProofLog(context, st, t) == ProofLog(context', st', t') <==> context == context' && st == st' && t == t'
  {
    var a, b := ProofLog(context, st, t), ProofLog(context', st', t');
    if a == b {
      assert a[1] == b[1] && a[2] == b[2] && a[3] == b[3] && a[4] == b[4];
      assert a[5] == b[5] && a[6] == b[6] && a[7] == b[7];
    }
  }

  /** The point that the link leg is about: `C_s - C_prev - G`. */
  function LinkPoint(st: PacketStatement): int {
    st.commitmentS.code - st.prevCommitmentS.code - G
  }

  lemma LegTransfer(pp: PedersenParams, t: int, x: int, x': int, z: int, r: int, c: int, c': int)
    requires pp.q > 0 && Leg(pp, t, x, z, r, c)
    ensures Leg(pp, t, x', z, r, c') <==> Congruent(pp.q, c * x, c' * x')
  {
    DifferenceCongruent(pp.q, t + c * x, t + c' * x');
    DifferenceCongruent(pp.q, c * x, c' * x');
  }

  /** A proof accepted for one packet is accepted for another, tampered statement or foreign
      context, exactly when challenge times target is the same on all three legs. */
  lemma ProofTransfer(pp: PedersenParams, sponge: Oracle, proof: CombinedProof,
                      st: PacketStatement, context: seq<nat>, st': PacketStatement, context': seq<nat>)
    requires pp.Valid() && StatementDecodes(pp, st')
    requires Accepts(pp, st, proof, Challenge(pp, sponge, context, st, proof.t))
    ensures var c, c' := Challenge(pp, sponge, context, st, proof.t), Challenge(pp, sponge, context', st', proof.t);
      Accepts(pp, st', proof, c')
      <==> && Congruent(pp.q, c * st.commitmentV.code, c' * st'.commitmentV.code)
           && Congruent(pp.q, c * st.commitmentS.code, c' * st'.commitmentS.code)
           && Congruent(pp.q, c * LinkPoint(st), c' * LinkPoint(st'))
  {
    var c, c' := Challenge(pp, sponge, context, st, proof.t), Challenge(pp, sponge, context', st', proof.t);
    var t, z := proof.t, proof.z;
    LegTransfer(pp, t.tV.code, st.commitmentV.code, st'.commitmentV.code, z.zV, z.zRv, c, c');
    LegTransfer(pp, t.tS.code, st.commitmentS.code, st'.commitmentS.code, z.zS, z.zRs, c, c');
    LegTransfer(pp, t.tLink.code, LinkPoint(st), LinkPoint(st'), 0, z.zDelta, c, c');
  }

  /** The statements whose three targets are all the identity. */
  predicate Degenerate(st: PacketStatement, q: nat)
    requires q > 0
  {
    && Congruent(q, st.commitmentV.code, 0)
    && Congruent(q, st.commitmentS.code, 0)
    && Congruent(q, LinkPoint(st), 0)
  }

  lemma Distribute(c: int, c': int, x: int)
    ensures (c - c') * x == c * x - c' * x
  {
  }

  lemma ScaledAlike(q: int, c: int, c': int, x: int)
    requires IsPrime(q)
    ensures Congruent(q, c * x, c' * x) <==> Congruent(q, c, c') || Congruent(q, x, 0)
  {
    Distribute(c, c', x);
    var d := c - c';
    ZeroProduct(q, d, x);
    DifferenceCongruent(q, c, c');
    DifferenceCongruent(q, c * x, c' * x);
  }

  /** A proof accepted for one context is accepted for another exactly when both contexts
      give the same challenge, or the statement is degenerate. */
  lemma ContextBinding(pp: PedersenParams, sponge: Oracle, st: PacketStatement, proof: CombinedProof,
                       context: seq<nat>, context': seq<nat>)
    requires pp.Valid()
    requires Accepts(pp, st, proof, Challenge(pp, sponge, context, st, proof.t))
    ensures Accepts(pp, st, proof, Challenge(pp, sponge, context', st, proof.t))
       <==> Challenge(pp, sponge, context, st, proof.t) == Challenge(pp, sponge, context', st, proof.t)
            || Degenerate(st, pp.q)
  {
    var c := Challenge(pp, sponge, context, st, proof.t);
    var c' := Challenge(pp, sponge, context', st, proof.t);
    ProofTransfer(pp, sponge, proof, st, context, st, context');
    ScaledAlike(pp.q, c, c', st.commitmentV.code);
    ScaledAlike(pp.q, c, c', st.commitmentS.code);
    ScaledAlike(pp.q, c, c', LinkPoint(st));
    ReduceCongruent(pp.q, sponge(ProofLog(context, st, proof.t)));
    ReduceCongruent(pp.q, sponge(ProofLog(context', st, proof.t)));
    SameResidue(pp.q, c, c');
  }

  /** Degenerate statements exist and are provable: value, number and blindings all zero, after
      a packet numbered `q - 1`.  The honest proof of one is accepted in every context. */
  lemma DegenerateReplayed(pp: PedersenParams, sponge: Oracle, k: Nonces, context: seq<nat>, context': seq<nat>)
    requires pp.Valid()
    ensures var w := PacketWitness(0, 0, 0, 0, 0);
      var st, t := StatementOf(pp, w, pp.q - 1), Announce(pp, k);
      var proof := HonestProof(pp, w, k, Challenge(pp, sponge, context, st, t));
      && Degenerate(st, pp.q)
      && Accepts(pp, st, proof, Challenge(pp, sponge, context, st, t))
      && Accepts(pp, st, proof, Challenge(pp, sponge, context', st, t))
  {
    var w := PacketWitness(0, 0, 0, 0, 0);
    var st, t := StatementOf(pp, w, pp.q - 1), Announce(pp, k);
    var c := Challenge(pp, sponge, context, st, t);
    ZeroStatement(pp);
    Completeness(pp, w, pp.q - 1, k, c);
    CongruentBy(pp.q, pp.q - 1 + 1, 0, 1);
    ContextBinding(pp, sponge, st, HonestProof(pp, w, k, c), context, context');
  }

  /** With a zero blinding a commitment is the value itself. */
  lemma PlainCommitment(pp: PedersenParams, value: Scalar)
    requires pp.Valid() && value < pp.q
    ensures Commit(pp, value, 0) == Commitment(value)
  {
    CommitCongruent(pp, value, 0);
    CongruentResidues(pp.q, Commit(pp, value, 0).code, value);
  }

  lemma ZeroStatement(pp: PedersenParams)
    requires pp.Valid()
    ensures Degenerate(StatementOf(pp, PacketWitness(0, 0, 0, 0, 0), pp.q - 1), pp.q)
  {
    PlainCommitment(pp, 0);
    PlainCommitment(pp, pp.q - 1);
    CongruentBy(pp.q, 0 - pp.q, 0, -1);
  }
}
