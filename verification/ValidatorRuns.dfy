/** Safety of the validator over whole runs of arbitrary packets, injected, replayed and
    interleaved over cars. */
module ValidatorRuns {
  import opened HexStrings
  import opened Optional
  import opened Packets
  import opened HeaderCodec
  import opened ReplayWindow
  import opened CheckFindings
  import opened ValidatorSequenceCheckers
  import opened SignatureVerifiers
  import opened ValidatorPipeline

  datatype Input = Input(packet: Packet, now: int)

  ghost function RunNode(env: Env, inputs: seq<Input>): map<string, NodeState> {
    if inputs == [] then map[]
    else
      var last := inputs[|inputs| - 1];
      Process(env, RunNode(env, inputs[..|inputs| - 1]), last.packet, last.now).0
  }

  ghost function OutcomeAt(env: Env, inputs: seq<Input>, i: nat): Outcome
    requires i < |inputs|
  {
    Process(env, RunNode(env, inputs[..i]), inputs[i].packet, inputs[i].now).1
  }

  /** Ideal signatures: whatever verifies under a registered key was signed by its car. */
  ghost predicate Unforgeable(env: Env, signed: set<(string, bytes)>) {
    forall node, sig, data ::
      node in env.registry && env.scheme(env.registry[node], sig, data) ==> (node, data) in signed
  }

  /** The sequence number inside a signed message. */
  function SignedNumber(message: bytes): nat
    requires |message| >= HEADER_SIZE
  {
    Unpack(message[..HEADER_SIZE]).seqNo
  }

  /** The verifier and the sequence checker resolve a packet to the same car. */
  predicate Aligned(p: Packet) {
    VerifiedNode(p) == CheckedNode(p)
  }

  /** Identities agree exactly when one of the two names both components read is nonempty, or
      the signer is called what the checker calls a nameless car. */
  lemma AlignedIff(p: Packet)
    requires VerifiedNode(p) != ""
    ensures Aligned(p) <==>
      || NonEmptyOr(p.originalNode, p.nodeId.GetOr("")) != ""
      || (p.nodeId.None? && p.signerNodeId == Some("unknown"))
  {
  }

  lemma AcceptedFacts(env: Env, states: map<string, NodeState>, p: Packet, now: int)
    requires Process(env, states, p, now).1.Accepted?
    ensures var q := Process(env, states, p, now).1.packet;
      && q == p.(payload := q.payload)
      && Authentic(env.registry, env.scheme, q)
      && |Message(q)| >= HEADER_SIZE && q.sequenceNo == Some(SignedNumber(Message(q)))
      && Passes(env.cfg.strict, Lookup(states, CheckedNode(p)), SignedNumber(Message(q)), true)
      && CommitmentHolds(env.sha, q)
  {
    var q := Process(env, states, p, now).1.packet;
    assert Message(q)[..HEADER_SIZE] == q.header.value[..HEADER_SIZE];
  }

  // ---- what a strict run accepts ----------------------------------------------------------

  function NumberOf(inputs: seq<Input>, i: nat): int
    requires i < |inputs|
  {
    inputs[i].packet.sequenceNo.GetOr(0)
  }

  /** The packet gets past the stateless checks of the car's sequence check. */
  predicate Counts(env: Env, input: Input, node: string) {
    && CheckedNode(input.packet) == node && Open(env, input.packet).Go?
    && !Stale(env.cfg, input.packet.timestamp.GetOr(0), input.now)
  }

  /** The largest number that has counted for the car so far, or zero. */
  ghost predicate HighWater(env: Env, inputs: seq<Input>, node: string, last: int) {
    && last >= 0
    && (forall i: nat :: i < |inputs| && Counts(env, inputs[i], node) ==> NumberOf(inputs, i) <= last)
    && (last == 0 || exists i: nat :: i < |inputs| && Counts(env, inputs[i], node) && NumberOf(inputs, i) == last)
  }

  /** The stateful tail, for one car: a fresh number above the last one moves the state, and is
      accepted if its commitment holds. */
  lemma SequenceStep(env: Env, states: map<string, NodeState>, q: Packet, now: int, node: string)
    requires env.cfg.strict && Ordered(Lookup(states, node))
    ensures var st, n, ts := Lookup(states, node), q.sequenceNo.GetOr(0), q.timestamp.GetOr(0);
      var newer := CheckedNode(q) == node && !Stale(env.cfg, ts, now) && n > st.last;
      var (states', outcome) := CheckSequence(env, states, q, now);
      && Ordered(Lookup(states', node)) && Lookup(states', node).last == (if newer then n else st.last)
      && (CheckedNode(q) == node ==> (outcome.Accepted? <==> newer && CommitmentHolds(env.sha, q)))
  {
    if CheckedNode(q) == node {
      var clean := !Stale(env.cfg, q.timestamp.GetOr(0), now);
      StrictStep(env.Policy(), Lookup(states, node), q.sequenceNo.GetOr(0), clean);
    }
  }

  /** Opening a packet only adds its payload. */
  lemma OpenKeeps(env: Env, p: Packet)
    requires Open(env, p).Go?
    ensures var q := Open(env, p).packet; q == p.(payload := q.payload) && CheckedNode(q) == CheckedNode(p)
  {
  }

  /** One packet moves a car's last number exactly when it counts and is larger, and is accepted
      exactly when its commitment also holds. */
  lemma ProcessStep(env: Env, states: map<string, NodeState>, input: Input, node: string)
    requires env.cfg.strict && Ordered(Lookup(states, node))
    ensures var st, n := Lookup(states, node), input.packet.sequenceNo.GetOr(0);
      var newer := Counts(env, input, node) && n > st.last;
      var (states', outcome) := Process(env, states, input.packet, input.now);
      && Ordered(Lookup(states', node)) && Lookup(states', node).last == (if newer then n else st.last)
      && (CheckedNode(input.packet) == node ==>
            (outcome.Accepted? <==> newer && CommitmentHolds(env.sha, Open(env, input.packet).packet)))
  {
    match Open(env, input.packet)
    case Stop(_) =>
    case Go(q) =>
      OpenKeeps(env, input.packet);
      SequenceStep(env, states, q, input.now, node);
  }

  lemma HighWaterSnoc(env: Env, inputs: seq<Input>, next: Input, node: string, last: int)
    requires HighWater(env, inputs, node, last)
    ensures var n := next.packet.sequenceNo.GetOr(0);
      HighWater(env, inputs + [next], node, if Counts(env, next, node) && n > last then n else last)
  {
    var grown := inputs + [next];
    assert forall i: nat :: i < |inputs| ==> NumberOf(grown, i) == NumberOf(inputs, i) && grown[i] == inputs[i];
    assert NumberOf(grown, |inputs|) == next.packet.sequenceNo.GetOr(0) && grown[|inputs|] == next;
  }

  /** In every strict run a car's last number is the largest that has counted for it, whether
      its packet was accepted or failed at the commitment. */
  lemma {:induction false} LastIsHighWater(env: Env, inputs: seq<Input>, node: string)
    requires env.cfg.strict
    ensures Ordered(Lookup(RunNode(env, inputs), node))
    ensures HighWater(env, inputs, node, Lookup(RunNode(env, inputs), node).last)
  {
    if inputs != [] {
      var front, next := inputs[..|inputs| - 1], inputs[|inputs| - 1];
      LastIsHighWater(env, front, node);
      ProcessStep(env, RunNode(env, front), next, node);
      HighWaterSnoc(env, front, next, node, Lookup(RunNode(env, front), node).last);
      assert front + [next] == inputs;
    }
  }

  /** After any strict run, a packet is accepted exactly when it counts, its number exceeds
      the last one of its car, and its commitment holds. */
  lemma NextAcceptedIff(env: Env, inputs: seq<Input>, p: Packet, now: int)
    requires env.cfg.strict
    ensures Process(env, RunNode(env, inputs), p, now).1.Accepted?
       <==> Counts(env, Input(p, now), CheckedNode(p))
            && p.sequenceNo.GetOr(0) > Lookup(RunNode(env, inputs), CheckedNode(p)).last
            && CommitmentHolds(env.sha, Open(env, p).packet)
  {
    LastIsHighWater(env, inputs, CheckedNode(p));
    ProcessStep(env, RunNode(env, inputs), Input(p, now), CheckedNode(p));
  }

  /** Every number that counted for packet `i`'s car before it is smaller than its own. */
  ghost predicate Newest(env: Env, inputs: seq<Input>, i: nat)
    requires i < |inputs|
  {
    forall k: nat :: k < i && Counts(env, inputs[k], CheckedNode(inputs[i].packet)) ==>
                       NumberOf(inputs, k) < NumberOf(inputs, i)
  }

  /** Which packets of an arbitrary strict run are accepted, with any packets injected,
      replayed, lost or interleaved: those that count, are committed, and carry a positive
      number above all that counted for their car before. */
  lemma AcceptedIff(env: Env, inputs: seq<Input>, i: nat)
    requires env.cfg.strict && i < |inputs|
    ensures OutcomeAt(env, inputs, i).Accepted?
       <==> && Counts(env, inputs[i], CheckedNode(inputs[i].packet))
            && CommitmentHolds(env.sha, Open(env, inputs[i].packet).packet)
            && NumberOf(inputs, i) > 0 && Newest(env, inputs, i)
  {
    var before, node := inputs[..i], CheckedNode(inputs[i].packet);
    var last := Lookup(RunNode(env, before), node).last;
    LastIsHighWater(env, before, node);
    NextAcceptedIff(env, before, inputs[i].packet, inputs[i].now);
    assert forall k: nat :: k < i ==> before[k] == inputs[k] && NumberOf(before, k) == NumberOf(inputs, k);
    if last != 0 {
      var k: nat :| k < i && Counts(env, before[k], node) && NumberOf(before, k) == last;
      assert Counts(env, inputs[k], node);
    }
  }

  /** The state moves on before the commitment check: a packet that fails only there has
      consumed its number, and no later packet of that car with that number or a smaller one
      is accepted. */
  lemma FailedCommitmentConsumes(env: Env, inputs: seq<Input>, i: nat, j: nat)
    requires env.cfg.strict && i < j < |inputs| && OutcomeAt(env, inputs, i) == Rejected(ZkpInvalid)
    requires CheckedNode(inputs[i].packet) == CheckedNode(inputs[j].packet)
    requires NumberOf(inputs, j) <= NumberOf(inputs, i)
    ensures !OutcomeAt(env, inputs, j).Accepted?
  {
    assert Counts(env, inputs[i], CheckedNode(inputs[j].packet));
    AcceptedIff(env, inputs, j);
  }

  /** A packet whose header the producer's builder packed, whose payload decrypts, and whose
      signature verifies under its car's key reaches the sequence check. */
  lemma BuiltOpens(env: Env, p: Packet, h: Header, payload: bytes)
    requires h.Fits() && h.magic == MAGIC && p.header == Some(Pack(h)) && p.sequenceNo == Some(h.seqNo)
    requires env.engine.Some? && Decrypted(env, p) == Some(payload) && payload != []
    requires VerifiedNode(p) != "" && VerifiedNode(p) in env.registry
    requires SizedSignature(p)
    requires env.scheme(env.registry[VerifiedNode(p)], ResolvedSignature(p).value, Pack(h) + payload)
    ensures Open(env, p) == Go(p.(payload := Some(payload)))
  {
    assert Pack(h)[..HEADER_SIZE] == Pack(h);
    UnpackPack(h);
  }

  /** One car's packets at the positions `own` carry their commitments and number upwards;
      any other packet that counts for the car is a replay: it repeats, or undercuts, the
      number of an earlier one of them.  Nothing is said about the other packets of the run. */
  ghost predicate HonestStream(env: Env, inputs: seq<Input>, node: string, own: set<nat>) {
    && (forall i :: i in own ==>
          && i < |inputs| && Counts(env, inputs[i], node) && NumberOf(inputs, i) > 0
          && CommitmentHolds(env.sha, Open(env, inputs[i].packet).packet))
    && (forall i, j :: i in own && j in own && i < j ==> NumberOf(inputs, i) < NumberOf(inputs, j))
    && (forall k: nat :: k < |inputs| && Counts(env, inputs[k], node) && k !in own ==> Repeats(inputs, own, k))
  }

  ghost predicate Repeats(inputs: seq<Input>, own: set<nat>, k: nat)
    requires k < |inputs| && forall i :: i in own ==> i < |inputs|
  {
    exists i :: i in own && i < k && NumberOf(inputs, k) <= NumberOf(inputs, i)
  }

  /** An honest car loses nothing: whatever is injected for other cars, however often its own
      delivered packets are replayed, and whichever of them went missing, every packet of its
      own stream is accepted. */
  lemma HonestStreamAccepted(env: Env, inputs: seq<Input>, node: string, own: set<nat>, i: nat)
    requires env.cfg.strict && HonestStream(env, inputs, node, own) && i in own
    ensures OutcomeAt(env, inputs, i).Accepted?
  {
    forall k: nat | k < i && Counts(env, inputs[k], node)
      ensures NumberOf(inputs, k) < NumberOf(inputs, i)
    {
      if k !in own {
        assert Repeats(inputs, own, k);
      }
    }
    AcceptedIff(env, inputs, i);
  }

  // ---- agreement and injectivity ----------------------------------------------------------

  /** Agreement: an accepted packet carries a message its car signed, and the accepted number
      is the one inside the signature. */
  lemma Agreement(env: Env, signed: set<(string, bytes)>, inputs: seq<Input>, i: nat)
    requires Unforgeable(env, signed) && i < |inputs| && OutcomeAt(env, inputs, i).Accepted?
    ensures var q := OutcomeAt(env, inputs, i).packet;
      && VerifiedNode(q) == VerifiedNode(inputs[i].packet)
      && (VerifiedNode(q), Message(q)) in signed
      && |Message(q)| >= HEADER_SIZE && q.sequenceNo == Some(SignedNumber(Message(q)))
  {
    AcceptedFacts(env, RunNode(env, inputs[..i]), inputs[i].packet, inputs[i].now);
  }

  /** Accepted numbers of one car strictly increase along any run. */
  lemma AcceptedIncrease(env: Env, inputs: seq<Input>, i: nat, j: nat)
    requires env.cfg.strict && i < j < |inputs|
    requires OutcomeAt(env, inputs, i).Accepted? && OutcomeAt(env, inputs, j).Accepted?
    requires CheckedNode(inputs[i].packet) == CheckedNode(inputs[j].packet)
    ensures OutcomeAt(env, inputs, i).packet.sequenceNo.GetOr(0) < OutcomeAt(env, inputs, j).packet.sequenceNo.GetOr(0)
  {
    AcceptedFacts(env, RunNode(env, inputs[..i]), inputs[i].packet, inputs[i].now);
    AcceptedFacts(env, RunNode(env, inputs[..j]), inputs[j].packet, inputs[j].now);
    AcceptedIff(env, inputs, i);
    AcceptedIff(env, inputs, j);
  }

  /** Injectivity: no signed message is accepted twice for one checked car, even when the split
      between header and payload differs. */
  lemma InjectiveAgreement(env: Env, inputs: seq<Input>, i: nat, j: nat)
    requires env.cfg.strict && i < j < |inputs|
    requires OutcomeAt(env, inputs, i).Accepted? && OutcomeAt(env, inputs, j).Accepted?
    requires CheckedNode(inputs[i].packet) == CheckedNode(inputs[j].packet)
    ensures Message(OutcomeAt(env, inputs, i).packet) != Message(OutcomeAt(env, inputs, j).packet)
  {
    AcceptedFacts(env, RunNode(env, inputs[..i]), inputs[i].packet, inputs[i].now);
    AcceptedFacts(env, RunNode(env, inputs[..j]), inputs[j].packet, inputs[j].now);
    AcceptedIncrease(env, inputs, i, j);
  }

  /** So no message of a signer is accepted twice among packets that both components resolve
      alike. */
  lemma AlignedInjective(env: Env, inputs: seq<Input>, i: nat, j: nat)
    requires env.cfg.strict && i < j < |inputs|
    requires OutcomeAt(env, inputs, i).Accepted? && OutcomeAt(env, inputs, j).Accepted?
    requires Aligned(inputs[i].packet) && Aligned(inputs[j].packet)
    ensures var a, b := OutcomeAt(env, inputs, i).packet, OutcomeAt(env, inputs, j).packet;
      (VerifiedNode(a), Message(a)) != (VerifiedNode(b), Message(b))
  {
    AcceptedFacts(env, RunNode(env, inputs[..i]), inputs[i].packet, inputs[i].now);
    AcceptedFacts(env, RunNode(env, inputs[..j]), inputs[j].packet, inputs[j].now);
    if CheckedNode(inputs[i].packet) == CheckedNode(inputs[j].packet) {
      InjectiveAgreement(env, inputs, i, j);
    }
  }

  /** Exactly when one signed message is accepted twice: of two packets with that message, each
      acceptable after the same run, the second is still accepted after the first iff the
      sequence checker takes them for different cars. */
  lemma AcceptedTwiceIff(env: Env, before: seq<Input>, a: Input, b: Input)
    requires env.cfg.strict
    requires Process(env, RunNode(env, before), a.packet, a.now).1.Accepted?
    requires Process(env, RunNode(env, before), b.packet, b.now).1.Accepted?
    requires Message(Open(env, a.packet).packet) == Message(Open(env, b.packet).packet)
    ensures OutcomeAt(env, before + [a, b], |before|).Accepted?
    ensures OutcomeAt(env, before + [a, b], |before| + 1).Accepted? <==> CheckedNode(a.packet) != CheckedNode(b.packet)
  {
    var states, node := RunNode(env, before), CheckedNode(b.packet);
    var inputs, one := before + [a, b], before + [a];
    assert inputs[..|before|] == before && inputs[..|before| + 1] == one && one[..|before|] == before;
    AcceptedFacts(env, states, a.packet, a.now);
    AcceptedFacts(env, states, b.packet, b.now);
    NextAcceptedIff(env, before, a.packet, a.now);
    NextAcceptedIff(env, before, b.packet, b.now);
    NextAcceptedIff(env, one, b.packet, b.now);
    LastIsHighWater(env, before, node);
    ProcessStep(env, states, a, node);
  }

  /** Any accepted packet that the two components resolve differently has such a partner: name
      its signer in `original_node`. */
  lemma InjectivityNeedsAlignment(env: Env, p: Packet, now: int)
    requires Process(env, map[], p, now).1.Accepted? && !Aligned(p)
    ensures var p' := p.(originalNode := Some(VerifiedNode(p)));
      var inputs := [Input(p, now), Input(p', now)];
      && Aligned(p')
      && OutcomeAt(env, inputs, 0).Accepted? && OutcomeAt(env, inputs, 1).Accepted?
      && VerifiedNode(OutcomeAt(env, inputs, 0).packet) == VerifiedNode(OutcomeAt(env, inputs, 1).packet)
      && Message(OutcomeAt(env, inputs, 0).packet) == Message(OutcomeAt(env, inputs, 1).packet)
  {
    var p' := p.(originalNode := Some(VerifiedNode(p)));
    var inputs := [Input(p, now), Input(p', now)];
    AcceptedFacts(env, map[], p, now);
    assert inputs[..0] == [] && inputs[..1] == [inputs[0]] && inputs[..1][..0] == [];
    assert RunNode(env, inputs[..1]) == Process(env, map[], p, now).0;
  }

  /** And there are such packets: car "a" signs one message, and a packet that names only its
      signer is accepted although the sequence checker files it under "unknown". */
  lemma MisalignedAccepted() returns (env: Env, signed: set<(string, bytes)>, p: Packet)
    ensures env.cfg.strict && Unforgeable(env, signed)
    ensures !Aligned(p) && Process(env, map[], p, 0).1.Accepted?
  {
    var h := BuiltHeader(1, 1, 1, 0, [0], seq(CHECKSUM_SIZE, _ => 0));
    var message := Pack(h) + [0];
    env := Env(Some((nonce, ciphertext, header) => Some(ciphertext)), map["a" := []],
               (key, sig, data) => data == message, data => [], CheckConfig(true, false, false, 0, 0));
    signed := {("a", message)};
    p := Packet(None, None, Some("a"), Some(1), None, Some([]), Some([0]), Some(Pack(h)), None, None,
                Some(seq(SIGNATURE_SIZE, _ => 0)), None, None);
    BuiltOpens(env, p, h, [0]);
    NextAcceptedIff(env, [], p, 0);
  }
}
