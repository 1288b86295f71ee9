/** Every outcome of the validator and what causes it, written out on the packet's own fields
    and on the numbers that counted for its car before. */
module ValidatorOutcomes {
  import opened HexStrings
  import opened Optional
  import opened Packets
  import opened HeaderCodec
  import opened ReplayWindow
  import opened CheckFindings
  import opened ValidatorSequenceCheckers
  import opened SignatureVerifiers
  import opened ValidatorPipeline
  import opened ValidatorRuns

  predicate Names(field: Option<string>) {
    field.Some? && field.value != ""
  }

  /** Which car a packet is taken for: both components read `original_node`, then `node_id`;
      after that the verifier falls back to the signer and the checker to "unknown". */
  lemma IdentityResolved(p: Packet)
    ensures Names(p.originalNode) ==> VerifiedNode(p) == CheckedNode(p) == p.originalNode.value
    ensures !Names(p.originalNode) && Names(p.nodeId) ==> VerifiedNode(p) == CheckedNode(p) == p.nodeId.value
    ensures !Names(p.originalNode) && !Names(p.nodeId) ==>
      && CheckedNode(p) == (if p.nodeId.None? then "unknown" else "")
      && VerifiedNode(p) == (if p.signerNodeId.Some? then p.signerNodeId.value else "")
  {
  }

  // ---- the stateless front --------------------------------------------------------------

  function Plaintext(env: Env, p: Packet): Option<bytes> {
    if env.engine.Some? && p.nonce.Some? && p.ciphertext.Some?
    then env.engine.value(p.nonce.value, p.ciphertext.value, p.header)
    else None
  }

  /** A 64-byte signature, under the key registered for the packet's car, of its nonempty header
      followed by its nonempty plaintext. */
  predicate CarSigned(env: Env, p: Packet) {
    var node, sig, plain := VerifiedNode(p), ResolvedSignature(p), Plaintext(env, p);
    && node != "" && node in env.registry
    && sig.Some? && |sig.value| == 64
    && p.header.Some? && |p.header.value| > 0 && plain.Some? && |plain.value| > 0
    && env.scheme(env.registry[node], sig.value, p.header.value + plain.value)
  }

  /** Long enough, and opening with the protocol's magic number. */
  predicate HasHeader(p: Packet) {
    p.header.Some? && |p.header.value| >= 64 && FromBigEndian(p.header.value[..4]) == 0x5043_5246
  }

  /** The metadata number is the one in bytes 8 to 16 of the header. */
  predicate NumberAgrees(p: Packet)
    requires HasHeader(p)
  {
    p.sequenceNo == Some(FromBigEndian(p.header.value[8..16]))
  }

  lemma HeaderReads(raw: bytes)
    ensures ParseHeader(raw).Parsed? <==> |raw| >= 64 && FromBigEndian(raw[..4]) == 0x5043_5246
    ensures ParseHeader(raw).Parsed? ==> ParseHeader(raw).fields.seqNo == FromBigEndian(raw[8..16])
  {
    if |raw| >= 64 {
      FieldPositions(raw[..64]);
      assert raw[..64][..4] == raw[..4] && raw[..64][8..16] == raw[8..16];
    }
  }

  /** The first failing stage names the reason, and a packet that passes them all gains its
      plaintext and nothing else. */
  lemma OpenStops(env: Env, p: Packet)
    ensures Open(env, p) == Stop(NoSession) <==> env.engine.None?
    ensures Open(env, p) == Stop(DecryptionFailed) <==> env.engine.Some? && Plaintext(env, p).None?
    ensures Open(env, p) == Stop(SignatureInvalid) <==> Plaintext(env, p).Some? && !CarSigned(env, p)
    ensures Open(env, p) == Stop(InvalidPacketHeader) <==> CarSigned(env, p) && !HasHeader(p)
    ensures Open(env, p) == Stop(HeaderMetadataMismatch) <==> CarSigned(env, p) && HasHeader(p) && !NumberAgrees(p)
    ensures Open(env, p) == Go(p.(payload := Plaintext(env, p)))
       <==> CarSigned(env, p) && HasHeader(p) && NumberAgrees(p)
  {
    assert Decrypted(env, p) == Plaintext(env, p);
    SignedIs(env, p);
    if p.header.Some? {
      HeaderReads(p.header.value);
    }
  }

  lemma SignedIs(env: Env, p: Packet)
    ensures CarSigned(env, p)
       <==> Plaintext(env, p).Some? && Authentic(env.registry, env.scheme, p.(payload := Plaintext(env, p)))
  {
    var q := p.(payload := Plaintext(env, p));
    assert VerifiedNode(q) == VerifiedNode(p) && ResolvedSignature(q) == ResolvedSignature(p);
    if p.header.Some? && Plaintext(env, p).Some? {
      assert Message(q) == p.header.value + Plaintext(env, p).value;
    }
  }

  // ---- the sequence and commitment stages -------------------------------------------------

  function Stamp(p: Packet): int {
    if p.timestamp.Some? then p.timestamp.value else 0
  }

  /** Too old at time `now`. */
  predicate TooOld(cfg: CheckConfig, p: Packet, now: int) {
    cfg.checkTimestamps && Stamp(p) > 0 && now - Stamp(p) > cfg.maxAgeMs
  }

  /** A commitment and a nonce are present, and the nonce is not hexadecimal or the digest of
      plaintext and nonce differs. */
  predicate CommitmentBroken(env: Env, p: Packet) {
    && Names(p.zkpCommitment) && Names(p.zkpNonce)
    && var nonce, plain := FromHex(p.zkpNonce.value), Plaintext(env, p);
       nonce.None? || plain.None? || ToHex(env.sha(plain.value + nonce.value)) != p.zkpCommitment.value
  }

  lemma CommitmentIs(env: Env, p: Packet)
    ensures CommitmentHolds(env.sha, p.(payload := Plaintext(env, p))) <==> !CommitmentBroken(env, p)
  {
  }

  lemma HighWaterUnique(env: Env, inputs: seq<Input>, node: string, a: int, b: int)
    requires HighWater(env, inputs, node, a) && HighWater(env, inputs, node, b)
    ensures a == b
  {
  }

  lemma WarningsIff(cfg: CheckConfig, st: NodeState, n: int, ts: int, now: int)
    requires !Stale(cfg, ts, now)
    ensures Warnings(cfg, st, n, ts, now) != []
       <==> (st.last > 0 && n - st.last > cfg.maxGap) || (cfg.checkTimestamps && ts > 0 && now - ts < -5000)
  {
  }

  /** What happens to packet `i` of a strict run once it is opened; `last` is the largest number
      that counted for its car before.  Old or not newer: rejected.  Newer with a broken
      commitment: rejected.  Otherwise accepted, and flagged exactly for a large gap or a
      stamp more than five seconds ahead. */
  lemma OutcomeIs(env: Env, inputs: seq<Input>, i: nat, last: int)
    requires env.cfg.strict && i < |inputs| && Open(env, inputs[i].packet).Go?
    requires HighWater(env, inputs[..i], CheckedNode(inputs[i].packet), last)
    ensures var p, now, n := inputs[i].packet, inputs[i].now, NumberOf(inputs, i);
      var outcome := OutcomeAt(env, inputs, i);
      && (outcome == Rejected(SequenceInvalid) <==> TooOld(env.cfg, p, now) || n <= last)
      && (outcome == Rejected(ZkpInvalid) <==> !TooOld(env.cfg, p, now) && n > last && CommitmentBroken(env, p))
      && (outcome.Accepted? <==> !TooOld(env.cfg, p, now) && n > last && !CommitmentBroken(env, p))
      && (outcome.Accepted? ==> outcome.packet == p.(payload := Plaintext(env, p)))
  {
    var p, now, n := inputs[i].packet, inputs[i].now, NumberOf(inputs, i);
    var states := RunNode(env, inputs[..i]);
    LastIsHighWater(env, inputs[..i], CheckedNode(p));
    HighWaterUnique(env, inputs[..i], CheckedNode(p), last, Lookup(states, CheckedNode(p)).last);
    OpenStops(env, p);
    OpenKeeps(env, p);
    CommitmentIs(env, p);
    StrictStep(env.Policy(), Lookup(states, CheckedNode(p)), n, !TooOld(env.cfg, p, now));
  }

  /** Accept or flag: an accepted packet of a strict run is flagged iff its number is more than
      the maximum gap above the largest one that counted for its car before, which is not its
      first, or its checked stamp lies more than five seconds ahead. */
  lemma FlaggedIff(env: Env, inputs: seq<Input>, i: nat, last: int)
    requires env.cfg.strict && i < |inputs| && OutcomeAt(env, inputs, i).Accepted?
    requires HighWater(env, inputs[..i], CheckedNode(inputs[i].packet), last)
    ensures OutcomeAt(env, inputs, i).flagged
       <==> || (last > 0 && NumberOf(inputs, i) - last > env.cfg.maxGap)
            || (env.cfg.checkTimestamps && Stamp(inputs[i].packet) > 0
                && inputs[i].now - Stamp(inputs[i].packet) < -5000)
  {
    var p, now := inputs[i].packet, inputs[i].now;
    var st := Lookup(RunNode(env, inputs[..i]), CheckedNode(p));
    OutcomeIs(env, inputs, i, last);
    LastIsHighWater(env, inputs[..i], CheckedNode(p));
    HighWaterUnique(env, inputs[..i], CheckedNode(p), last, st.last);
    OpenKeeps(env, p);
    WarningsIff(env.cfg, st, NumberOf(inputs, i), Stamp(p), now);
  }
}
