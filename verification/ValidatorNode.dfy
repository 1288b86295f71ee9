/** The validator's packet pipeline: decrypt, verify the signature, compare header and
    metadata, check the sequence, check the commitment. */
module ValidatorPipeline {
  import opened HexStrings
  import opened Optional
  import opened Packets
  import opened HeaderCodec
  import opened ReplayWindow
  import opened CheckFindings
  import opened ValidatorSequenceCheckers
  import opened SignatureVerifiers

  /** Authenticated decryption: nonce, ciphertext and associated data to the plaintext. */
  type Aead = (bytes, bytes, Option<bytes>) -> Option<bytes>

  datatype Reason =
    | NoSession | DecryptionFailed | SignatureInvalid | HeaderMetadataMismatch
    | InvalidPacketHeader | SequenceInvalid | ZkpInvalid

  datatype Outcome = Accepted(packet: Packet, flagged: bool) | Rejected(reason: Reason)

  /** Everything that stays fixed while packets are processed. */
  datatype Env = Env(
    engine: Option<Aead>, registry: map<string, bytes>, scheme: SignatureScheme, sha: bytes -> bytes, cfg: CheckConfig)
  {
    ghost function Policy(): ReplayWindow.Policy {
      ReplayWindow.Policy(cfg.strict, REPLAY_WINDOW)
    }
  }

  function Decrypted(env: Env, p: Packet): Option<bytes> {
    if env.engine.None? || p.nonce.None? || p.ciphertext.None? then None
    else env.engine.value(p.nonce.value, p.ciphertext.value, p.header)
  }

  /** The hash commitment, compared in hexadecimal; a packet without one is let through. */
  predicate CommitmentHolds(sha: bytes -> bytes, p: Packet) {
    (Truthy(p.zkpCommitment) && Truthy(p.zkpNonce)) ==>
      var nonce := FromHex(p.zkpNonce.value);
      && p.payload.Some? && nonce.Some?
      && ToHex(sha(p.payload.value + nonce.value)) == p.zkpCommitment.value
  }

  method VerifyCommitment(sha: bytes -> bytes, p: Packet) returns (verified: bool)
    ensures verified == CommitmentHolds(sha, p)
  {
    if !Truthy(p.zkpCommitment) || !Truthy(p.zkpNonce) {
      return true;
    }
    if p.payload.None? {
      return false;
    }
    var nonce := FromHex(p.zkpNonce.value);
    if nonce.None? {
      return false;
    }
    verified := ToHex(sha(p.payload.value + nonce.value)) == p.zkpCommitment.value;
  }

  datatype Opened = Stop(reason: Reason) | Go(packet: Packet)

  /** The stateless front: decryption, signature, and header against metadata. */
  function Open(env: Env, p: Packet): Opened {
    var plaintext := Decrypted(env, p);
    if env.engine.None? then Stop(NoSession)
    else if plaintext.None? then Stop(DecryptionFailed)
    else
      var q := p.(payload := plaintext);
      if !Authentic(env.registry, env.scheme, q) then Stop(SignatureInvalid)
      else match ParseHeader(q.header.value)
        case Parsed(h) => if q.sequenceNo == Some(h.seqNo) then Go(q) else Stop(HeaderMetadataMismatch)
        case _ => Stop(InvalidPacketHeader)
  }

  /** One packet against the checker's state. */
  ghost function Process(env: Env, states: map<string, NodeState>, p: Packet, now: int)
      : (map<string, NodeState>, Outcome)
  {
    match Open(env, p)
    case Stop(reason) => (states, Rejected(reason))
    case Go(q) => CheckSequence(env, states, q, now)
  }

  /** The stateful tail: the state moves on before the commitment is looked at. */
  ghost function CheckSequence(env: Env, states: map<string, NodeState>, q: Packet, now: int)
      : (map<string, NodeState>, Outcome)
  {
    var node, n, ts := CheckedNode(q), q.sequenceNo.GetOr(0), q.timestamp.GetOr(0);
    var clean, st := !Stale(env.cfg, ts, now), Lookup(states, node);
    var next := StepAll(env.Policy(), states, NodeEvent(node, Arrival(n, clean)));
    if !Passes(env.cfg.strict, st, n, clean) then (next, Rejected(SequenceInvalid))
    else if !CommitmentHolds(env.sha, q) then (next, Rejected(ZkpInvalid))
    else (next, Accepted(q, Warnings(env.cfg, st, n, ts, now) != []))
  }

  datatype AuditEntry = LogReject(reason: Reason) | LogFlag | LogAccept

  class ValidatorNode {
    const sigVerifier: ValidatorSignatureVerifier
    const seqChecker: ValidatorSequenceChecker
    const sha: bytes -> bytes
    var engine: Option<Aead>
    var received: nat
    var accepted: nat
    var rejected: nat
    var flagged: nat
    var audit: seq<AuditEntry>

    /** Every packet received is logged exactly once, under one of three counters. */
    ghost predicate Valid()
      reads this, seqChecker
    {
      seqChecker.Valid() && received == accepted + flagged + rejected == |audit|
    }

    ghost function CurrentEnv(): Env
      reads this, sigVerifier
    {
      Env(engine, sigVerifier.registry, sigVerifier.scheme, sha, seqChecker.Config())
    }

    constructor (scheme: SignatureScheme, sha: bytes -> bytes, maxAgeMs: int, maxGap: int,
                 checkTimestamps: bool, strict: bool)
      ensures Valid() && fresh(sigVerifier) && fresh(seqChecker) && seqChecker.States() == map[]
      ensures engine == None && received == 0
    {
      sigVerifier := new ValidatorSignatureVerifier(scheme);
      seqChecker := new ValidatorSequenceChecker(maxAgeMs, maxGap, checkTimestamps, strict);
      this.sha := sha;
      engine := None;
      received, accepted, rejected, flagged, audit := 0, 0, 0, 0, [];
    }

    method Reject(reason: Reason)
      modifies this`rejected, this`audit
      ensures rejected == old(rejected) + 1 && audit == old(audit) + [LogReject(reason)]
    {
      rejected := rejected + 1;
      audit := audit + [LogReject(reason)];
    }

    /** The early returns compute exactly `Process`: its outcome is the returned packet and
        the logged entry, and its state is the checker's. */
    method ProcessPacket(reencrypted: Packet, now: int) returns (r: Option<Packet>)
      requires Valid()
      modifies this, sigVerifier, seqChecker
      ensures Valid() && received == old(received) + 1
      ensures engine == old(engine) && sigVerifier.registry == old(sigVerifier.registry)
      ensures var (states, outcome) := Process(old(CurrentEnv()), old(seqChecker.States()), reencrypted, now);
        && seqChecker.States() == states
        && (match outcome
            case Accepted(packet, warned) =>
              r == Some(packet) && audit == old(audit) + [if warned then LogFlag else LogAccept]
            case Rejected(reason) => r == None && audit == old(audit) + [LogReject(reason)])
      ensures var outcome := Process(old(CurrentEnv()), old(seqChecker.States()), reencrypted, now).1;
        && accepted == old(accepted) + (if outcome.Accepted? && !outcome.flagged then 1 else 0)
        && flagged == old(flagged) + (if outcome.Accepted? && outcome.flagged then 1 else 0)
        && rejected == old(rejected) + (if outcome.Rejected? then 1 else 0)
    {
      received := received + 1;
      var front := OpenPacket(reencrypted);
      if front.Stop? {
        Reject(front.reason);
        return None;
      }
      r := FinishPacket(front.packet, now);
    }

    method OpenPacket(reencrypted: Packet) returns (front: Opened)
      modifies sigVerifier
      ensures front == Open(old(CurrentEnv()), reencrypted)
      ensures sigVerifier.registry == old(sigVerifier.registry)
    {
      if engine.None? {
        return Stop(NoSession);
      }
      var plaintext: Option<bytes> := None;
      if reencrypted.nonce.Some? && reencrypted.ciphertext.Some? {
        plaintext := engine.value(reencrypted.nonce.value, reencrypted.ciphertext.value, reencrypted.header);
      }
      if plaintext.None? {
        return Stop(DecryptionFailed);
      }
      var packet := reencrypted.(payload := plaintext);
      var sig := sigVerifier.Verify(packet);
      if !sig.Valid? {
        return Stop(SignatureInvalid);
      }
      var header := ParseHeader(packet.header.value);
      if !header.Parsed? {
        return Stop(InvalidPacketHeader);
      }
      if packet.sequenceNo != Some(header.fields.seqNo) {
        return Stop(HeaderMetadataMismatch);
      }
      front := Go(packet);
    }

    /** The sequence and commitment stages. */
    method FinishPacket(packet: Packet, now: int) returns (r: Option<Packet>)
      requires seqChecker.Valid() && received == accepted + flagged + rejected + 1 == |audit| + 1
      modifies this`accepted, this`rejected, this`flagged, this`audit, seqChecker
      ensures Valid()
      ensures var (states, outcome) := CheckSequence(old(CurrentEnv()), old(seqChecker.States()), packet, now);
        && seqChecker.States() == states
        && (match outcome
            case Accepted(q, warned) => r == Some(q) && audit == old(audit) + [if warned then LogFlag else LogAccept]
            case Rejected(reason) => r == None && audit == old(audit) + [LogReject(reason)])
      ensures var outcome := CheckSequence(old(CurrentEnv()), old(seqChecker.States()), packet, now).1;
        && accepted == old(accepted) + (if outcome.Accepted? && !outcome.flagged then 1 else 0)
        && flagged == old(flagged) + (if outcome.Accepted? && outcome.flagged then 1 else 0)
        && rejected == old(rejected) + (if outcome.Rejected? then 1 else 0)
    {
      var seqResult := seqChecker.Check(packet, now);
      if !seqResult.passed {
        Reject(SequenceInvalid);
        return None;
      }
      var verified := VerifyCommitment(sha, packet);
      if !verified {
        Reject(ZkpInvalid);
        return None;
      }
      if seqResult.warnings != [] {
        flagged := flagged + 1;
        audit := audit + [LogFlag];
      } else {
        accepted := accepted + 1;
        audit := audit + [LogAccept];
      }
      r := Some(packet);
    }
  }
}
