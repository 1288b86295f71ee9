/** The combined proof: an AND-composition of three Schnorr legs under one challenge. */
module SigmaProtocol {
  import opened PrimeField
  import opened Pedersen
  import opened Transcripts

  datatype PacketWitness = PacketWitness(
    value: Scalar, blindingV: Scalar, sequence: Scalar, blindingS: Scalar, prevBlindingS: Scalar)

  datatype PacketStatement = PacketStatement(
    commitmentV: Commitment, commitmentS: Commitment, prevCommitmentS: Commitment)

  /** The five scalars the prover draws. */
  datatype Nonces = Nonces(kV: Scalar, kRv: Scalar, kS: Scalar, kRs: Scalar, kDelta: Scalar) {
    predicate Below(q: nat) {
      kV < q && kRv < q && kS < q && kRs < q && kDelta < q
    }
  }

  /** The prover's first messages. */
  datatype FirstMessage = FirstMessage(tV: Commitment, tS: Commitment, tLink: Commitment)

  /** The prover's answers to the challenge. */
  datatype Responses = Responses(zV: Scalar, zRv: Scalar, zS: Scalar, zRs: Scalar, zDelta: Scalar) {
    predicate Below(q: nat) {
      zV < q && zRv < q && zS < q && zRs < q && zDelta < q
    }
  }

  datatype CombinedProof = CombinedProof(t: FirstMessage, z: Responses)

  datatype Verdict = Ok | Decompress | VerificationFailed

  /** Everything absorbed before the challenge is squeezed, in order. */
  function ProofLog(context: seq<nat>, st: PacketStatement, t: FirstMessage): seq<Message> {
    Opening(context) + [
      Message("C_v", PointBytes(st.commitmentV.code)),
      Message("C_s", PointBytes(st.commitmentS.code)),
      Message("C_prev", PointBytes(st.prevCommitmentS.code)),
      Message("t_v", PointBytes(t.tV.code)),
      Message("t_s", PointBytes(t.tS.code)),
      Message("t_link", PointBytes(t.tLink.code)),
      Message("challenge", Squeeze)]
  }

  function Challenge(
      pp: PedersenParams, sponge: Oracle, context: seq<nat>, st: PacketStatement, t: FirstMessage): Scalar
    requires pp.q > 0
  {
    sponge(ProofLog(context, st, t)) % pp.q
  }

  function Announce(pp: PedersenParams, k: Nonces): FirstMessage
    requires pp.q > 0
  {
    FirstMessage(
      Commit(pp, k.kV, k.kRv), Commit(pp, k.kS, k.kRs), Commitment(Times(pp.q, k.kDelta, pp.h)))
  }

  /** A secret masked by a nonce. */
  function Answer(q: nat, k: Scalar, c: Scalar, secret: int): Scalar
    requires q > 0
  {
    (k + c * secret) % q
  }

  function Respond(q: nat, w: PacketWitness, k: Nonces, c: Scalar): Responses
    requires q > 0
  {
    var deltaR := (w.blindingS - w.prevBlindingS) % q;
    Responses(
      Answer(q, k.kV, c, w.value), Answer(q, k.kRv, c, w.blindingV),
      Answer(q, k.kS, c, w.sequence), Answer(q, k.kRs, c, w.blindingS),
      Answer(q, k.kDelta, c, deltaR))
  }

  function HonestProof(pp: PedersenParams, w: PacketWitness, k: Nonces, c: Scalar): CombinedProof
    requires pp.q > 0
  {
    CombinedProof(Announce(pp, k), Respond(pp.q, w, k, c))
  }

  predicate StatementDecodes(pp: PedersenParams, st: PacketStatement) {
    st.commitmentV.code < pp.q && st.commitmentS.code < pp.q && st.prevCommitmentS.code < pp.q
  }

  predicate AnnouncementDecodes(pp: PedersenParams, t: FirstMessage) {
    t.tV.code < pp.q && t.tS.code < pp.q && t.tLink.code < pp.q
  }

  predicate Decodes(pp: PedersenParams, st: PacketStatement, t: FirstMessage) {
    StatementDecodes(pp, st) && AnnouncementDecodes(pp, t)
  }

  /** One Schnorr leg: `t + c * X == z * G + r * H`.  The link leg is the one with `z == 0`
      and `X == C_s - C_prev - G`. */
  predicate Leg(pp: PedersenParams, t: int, x: int, z: int, r: int, c: int)
    requires pp.q > 0
  {
    Congruent(pp.q, t + c * x, z + r * pp.h)
  }

  /** What the verifier checks of a transcript `(t, c, z)`: the interactive protocol. */
  predicate Accepts(pp: PedersenParams, st: PacketStatement, proof: CombinedProof, c: Scalar)
    requires pp.q > 0
  {
    && Decodes(pp, st, proof.t)
    && Leg(pp, proof.t.tV.code, st.commitmentV.code, proof.z.zV, proof.z.zRv, c)
    && Leg(pp, proof.t.tS.code, st.commitmentS.code, proof.z.zS, proof.z.zRs, c)
    && Leg(pp, proof.t.tLink.code, st.commitmentS.code - st.prevCommitmentS.code - G, 0, proof.z.zDelta, c)
  }

  /** Prover side: nonces are the prover's random draws. */
  method Prove(pp: PedersenParams, sponge: Oracle, w: PacketWitness, st: PacketStatement,
               context: seq<nat>, k: Nonces)
    returns (proof: CombinedProof)
    requires pp.Valid()
    ensures proof == HonestProof(pp, w, k, Challenge(pp, sponge, context, st, Announce(pp, k)))
  {
    var q, h := pp.q, pp.h;
    var tV := Commitment(AddPoints(q, Times(q, k.kV, G), Times(q, k.kRv, h)));
    var tS := Commitment(AddPoints(q, Times(q, k.kS, G), Times(q, k.kRs, h)));
    var tLink := Commitment(Times(q, k.kDelta, h));

    var transcript := new Transcript(context);
    transcript.AppendPoint("C_v", st.commitmentV);
    transcript.AppendPoint("C_s", st.commitmentS);
    transcript.AppendPoint("C_prev", st.prevCommitmentS);
    transcript.AppendPoint("t_v", tV);
    transcript.AppendPoint("t_s", tS);
    transcript.AppendPoint("t_link", tLink);
    var c := transcript.ChallengeScalar(sponge, q, "challenge");
    assert transcript.log == ProofLog(context, st, Announce(pp, k));

    var zV := (k.kV + c * w.value) % q;
    var zRv := (k.kRv + c * w.blindingV) % q;
    var zS := (k.kS + c * w.sequence) % q;
    var zRs := (k.kRs + c * w.blindingS) % q;
    var deltaR := (w.blindingS - w.prevBlindingS) % q;
    var zDelta := (k.kDelta + c * deltaR) % q;
    proof := CombinedProof(FirstMessage(tV, tS, tLink), Responses(zV, zRv, zS, zRs, zDelta));
  }

  /** Verifier side: the early returns decide exactly decoding and the interactive equations
      under the challenge that the prover's own transcript would give. */
  method Verify(pp: PedersenParams, sponge: Oracle, st: PacketStatement, proof: CombinedProof,
                context: seq<nat>)
    returns (r: Verdict)
    requires pp.Valid()
    ensures r == Decompress <==> !Decodes(pp, st, proof.t)
    ensures r == Ok <==> Accepts(pp, st, proof, Challenge(pp, sponge, context, st, proof.t))
  {
    var q, h := pp.q, pp.h;
    var cV := st.commitmentV.Decompress(pp);
    if cV.None? { return Decompress; }
    var cS := st.commitmentS.Decompress(pp);
    if cS.None? { return Decompress; }
    var cPrev := st.prevCommitmentS.Decompress(pp);
    if cPrev.None? { return Decompress; }
    var tV := proof.t.tV.Decompress(pp);
    if tV.None? { return Decompress; }
    var tS := proof.t.tS.Decompress(pp);
    if tS.None? { return Decompress; }
    var tLink := proof.t.tLink.Decompress(pp);
    if tLink.None? { return Decompress; }

    var transcript := new Transcript(context);
    transcript.AppendPoint("C_v", st.commitmentV);
    transcript.AppendPoint("C_s", st.commitmentS);
    transcript.AppendPoint("C_prev", st.prevCommitmentS);
    transcript.AppendPoint("t_v", proof.t.tV);
    transcript.AppendPoint("t_s", proof.t.tS);
    transcript.AppendPoint("t_link", proof.t.tLink);
    var c := transcript.ChallengeScalar(sponge, q, "challenge");
    assert transcript.log == ProofLog(context, st, proof.t);

    LegChecked(pp, tV.value, cV.value, proof.z.zV, proof.z.zRv, c);
    if AddPoints(q, tV.value, Times(q, c, cV.value))
         != AddPoints(q, Times(q, proof.z.zV, G), Times(q, proof.z.zRv, h)) {
      return VerificationFailed;
    }

    LegChecked(pp, tS.value, cS.value, proof.z.zS, proof.z.zRs, c);
    if AddPoints(q, tS.value, Times(q, c, cS.value))
         != AddPoints(q, Times(q, proof.z.zS, G), Times(q, proof.z.zRs, h)) {
      return VerificationFailed;
    }

    var target := SubPoints(q, SubPoints(q, cS.value, cPrev.value), G);
    LinkChecked(pp, tLink.value, cS.value, cPrev.value, proof.z.zDelta, c);
    if AddPoints(q, tLink.value, Times(q, c, target)) != Times(q, proof.z.zDelta, h) {
      return VerificationFailed;
    }
    return Ok;
  }

  lemma TimesCongruent(q: nat, s: Scalar, p: Point, n: int)
    requires q > 0 && Congruent(q, p, n)
    ensures Times(q, s, p) < q && Congruent(q, Times(q, s, p), s * n)
  {
    MulCongruent(q, s, s, p, n);
    ReduceCongruent(q, s * p);
  }

  lemma LegChecked(pp: PedersenParams, t: Point, x: Point, z: Scalar, r: Scalar, c: Scalar)
    requires pp.q > 0
    ensures AddPoints(pp.q, t, Times(pp.q, c, x)) == AddPoints(pp.q, Times(pp.q, z, G), Times(pp.q, r, pp.h))
       <==> Leg(pp, t, x, z, r, c)
  {
    var q := pp.q;
    TimesCongruent(q, c, x, x);
    TimesCongruent(q, z, G, G);
    TimesCongruent(q, r, pp.h, pp.h);
    AddPointsCongruent(q, t, Times(q, c, x), t, c * x);
    AddPointsCongruent(q, Times(q, z, G), Times(q, r, pp.h), z, r * pp.h);
    SameResidue(q, AddPoints(q, t, Times(q, c, x)), AddPoints(q, Times(q, z, G), Times(q, r, pp.h)));
  }

  lemma LinkChecked(pp: PedersenParams, t: Point, cS: Point, cPrev: Point, r: Scalar, c: Scalar)
    requires pp.q > 0
    ensures AddPoints(pp.q, t, Times(pp.q, c, SubPoints(pp.q, SubPoints(pp.q, cS, cPrev), G))) == Times(pp.q, r, pp.h)
       <==> Leg(pp, t, cS - cPrev - G, 0, r, c)
  {
    var q := pp.q;
    var target := SubPoints(q, SubPoints(q, cS, cPrev), G);
    SubPointsCongruent(q, cS, cPrev, cS, cPrev);
    SubPointsCongruent(q, SubPoints(q, cS, cPrev), G, cS - cPrev, G);
    TimesCongruent(q, c, target, cS - cPrev - G);
    TimesCongruent(q, r, pp.h, pp.h);
    AddPointsCongruent(q, t, Times(q, c, target), t, c * (cS - cPrev - G));
    SameResidue(q, AddPoints(q, t, Times(q, c, target)), Times(q, r, pp.h));
  }

  lemma SameResidue(q: nat, a: nat, b: nat)
    requires q > 0 && a < q && b < q
    ensures a == b <==> Congruent(q, a, b)
  {
    if Congruent(q, a, b) {
      CongruentResidues(q, a, b);
    }
  }
}
