/** The producer's packet builder.  The JSON payload and SHA-256 are given: `payload` is the
    encoded frame and `sha` the digest. */
module PacketBuilders {
  import opened Optional
  import opened Packets
  import opened HeaderCodec

  type Digest = f: bytes -> bytes | forall p :: |f(p)| == CHECKSUM_SIZE
    witness p => seq(CHECKSUM_SIZE, i => 0)

  datatype BuiltPacket = BuiltPacket(
    rawBytes: bytes, header: bytes, payload: bytes, sequenceNo: nat, timestamp: nat, checksum: bytes,
    team: string, session: string, nodeId: string)

  /** `raw_bytes[64 : 64 + len]`, clamped as a Python slice. */
  function PayloadSlice(raw: bytes, len: nat): bytes
    requires |raw| >= HEADER_SIZE
  {
    if HEADER_SIZE + len <= |raw| then raw[HEADER_SIZE..HEADER_SIZE + len] else raw[HEADER_SIZE..]
  }

  /** `None` where `parse_header` raises. */
  function VerifyChecksum(sha: Digest, raw: bytes): Option<bool> {
    match ParseHeader(raw)
    case Parsed(p) => Some(sha(PayloadSlice(raw, p.payloadLen)) == p.checksum)
    case _ => None
  }

  /** What the wire form of one built packet says. */
  lemma BuiltFacts(sha: Digest, team: string, session: string, n: nat, timestampMs: nat, payload: bytes)
    requires TeamId(team).Some? && SessionId(session).Some?
    requires BuiltHeader(TeamId(team).value, SessionId(session).value, n, timestampMs, payload, sha(payload)).Fits()
    ensures var header :=
        Pack(BuiltHeader(TeamId(team).value, SessionId(session).value, n, timestampMs, payload, sha(payload)));
      && ParseHeader(header) == Parsed(ParsedHeader(
           PROTOCOL_VER, team, session, PACKET_TYPE_TEL, n, timestampMs, |payload|, sha(payload)))
      && VerifyChecksum(sha, header + payload) == Some(true)
  {
    var header :=
        Pack(BuiltHeader(TeamId(team).value, SessionId(session).value, n, timestampMs, payload, sha(payload)));
    ParseBuilt(team, session, n, timestampMs, payload, sha(payload), []);
    ParseBuilt(team, session, n, timestampMs, payload, sha(payload), payload);
    assert header + [] == header;
    assert PayloadSlice(header + payload, |payload|) == payload;
  }

  /** A packet whose payload is replaced on the wire by one of the same length, with anything
      trailing, verifies exactly when the digests agree. */
  lemma ReplacedPayload(sha: Digest, h: Header, other: bytes, trailing: bytes)
    requires h.Fits() && h.magic == MAGIC && |other| == h.payloadLen
    ensures VerifyChecksum(sha, Pack(h) + (other + trailing)) == Some(sha(other) == h.checksum)
  {
    UnpackPack(h);
    SplitAt(Pack(h), other + trailing);
    SplitAt(other, trailing);
    var raw := Pack(h) + (other + trailing);
    assert raw[HEADER_SIZE..HEADER_SIZE + |other|] == raw[HEADER_SIZE..][..|other|];
  }

  /** A payload cut short is digested as far as it goes. */
  lemma ShortPayload(sha: Digest, h: Header, short: bytes)
    requires h.Fits() && h.magic == MAGIC && |short| < h.payloadLen
    ensures VerifyChecksum(sha, Pack(h) + short) == Some(sha(short) == h.checksum)
  {
    UnpackPack(h);
    SplitAt(Pack(h), short);
  }

  /** Bytes that are too few, or open with another magic number, raise. */
  lemma ChecksumRaises(sha: Digest, raw: bytes)
    ensures VerifyChecksum(sha, raw).None? <==> |raw| < 64 || FromBigEndian(raw[0..4]) != 0x5043_5246
  {
    if |raw| >= 64 {
      FieldPositions(raw[..64]);
      assert raw[..64][0..4] == raw[0..4];
    }
  }

  class PacketBuilder {
    const team: string
    const session: string
    const nodeId: string
    const sha: Digest
    var sequence: nat
    var packetsBuilt: nat

    ghost predicate Valid()
      reads this
    {
      TeamId(team).Some? && SessionId(session).Some? && packetsBuilt <= sequence
    }

    constructor (team: string, session: string, nodeId: string, sha: Digest)
      requires TeamId(team).Some? && SessionId(session).Some?
      ensures Valid() && sequence == 0 && packetsBuilt == 0
      ensures this.team == team && this.session == session && this.nodeId == nodeId && this.sha == sha
    {
      this.team, this.session, this.nodeId, this.sha := team, session, nodeId, sha;
      sequence, packetsBuilt := 0, 0;
    }

    method NextSequence() returns (n: nat)
      modifies this`sequence
      ensures n == sequence == old(sequence) + 1
    {
      sequence := sequence + 1;
      n := sequence;
    }

    /** The next packet; `None` is the packing error of a field that does not fit, which
        still consumes the number. */
    method Build(payload: bytes, timestampMs: nat) returns (r: Option<BuiltPacket>)
      requires Valid()
      modifies this`sequence, this`packetsBuilt
      ensures Valid() && sequence == old(sequence) + 1
      ensures r.Some? <==> sequence < Pow256(8) && timestampMs < Pow256(8) && |payload| < Pow256(4)
      ensures packetsBuilt == old(packetsBuilt) + if r.Some? then 1 else 0
      ensures r.Some? ==>
        var p := r.value;
        && p.sequenceNo == sequence && p.timestamp == timestampMs && p.payload == payload
        && p.team == team && p.session == session && p.nodeId == nodeId && p.checksum == sha(payload)
        && p.rawBytes == p.header + p.payload && |p.header| == HEADER_SIZE
        && ParseHeader(p.header) == Parsed(ParsedHeader(
             PROTOCOL_VER, team, session, PACKET_TYPE_TEL, sequence, timestampMs, |payload|, sha(payload)))
        && VerifyChecksum(sha, p.rawBytes) == Some(true)
    {
      var n := NextSequence();
      var checksum := sha(payload);
      var fields := BuiltHeader(TeamId(team).value, SessionId(session).value, n, timestampMs, payload, checksum);
      MagicFits();
      if !fields.Fits() {
        return None;
      }
      var header := Pack(fields);
      packetsBuilt := packetsBuilt + 1;
      BuiltFacts(sha, team, session, n, timestampMs, payload);
      r := Some(BuiltPacket(header + payload, header, payload, n, timestampMs, checksum, team, session, nodeId));
    }
  }

  /** Creating a builder fails for a team or session without an id. */
  method NewPacketBuilder(team: string, session: string, nodeId: string, sha: Digest) returns (r: Option<PacketBuilder>)
    ensures r.Some? <==> TeamId(team).Some? && SessionId(session).Some?
    ensures r.Some? ==> fresh(r.value) && r.value.Valid() && r.value.sequence == 0
    ensures r.Some? ==> r.value.team == team && r.value.session == session && r.value.nodeId == nodeId
  {
    if TeamId(team).None? || SessionId(session).None? {
      return None;
    }
    var builder := new PacketBuilder(team, session, nodeId, sha);
    r := Some(builder);
  }

  /** Every packet the builder can emit, with whatever a reserved field or trailing bytes may
      hold on the wire. */
  datatype WireFrame = WireFrame(
    team: string, session: string, seqNo: nat, timestampMs: nat, payload: bytes, reserved: nat, trailing: bytes)
  {
    ghost predicate Valid(sha: Digest) {
      && TeamId(team).Some? && SessionId(session).Some?
      && seqNo > 0 && timestampMs > 0 && Fields(sha).Fits()
    }

    function Fields(sha: Digest): Header
      requires TeamId(team).Some? && SessionId(session).Some?
    {
      BuiltHeader(TeamId(team).value, SessionId(session).value, seqNo, timestampMs, payload, sha(payload))
        .(reserved := reserved)
    }

    function Encode(sha: Digest): bytes
      requires TeamId(team).Some? && SessionId(session).Some? && Fields(sha).Fits()
    {
      Pack(Fields(sha)) + (payload + trailing)
    }
  }
}
