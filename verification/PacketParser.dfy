/** The relay's structural parser. */
module PacketParsers {
  import opened Optional
  import opened Packets
  import opened HeaderCodec
  import opened PacketBuilders

  datatype ParseError =
    | UnsupportedVersion | UnsupportedType | UnknownTeam | UnknownSession
    | LengthMismatch | ChecksumMismatch | ZeroSequence | ZeroTimestamp

  datatype ParsedPacket = ParsedPacket(
    header: bytes, payload: bytes, fields: Header, team: Option<string>, session: Option<string>,
    checksumValid: bool, isValid: bool, errors: seq<ParseError>)

  /** `Raised` is `PacketParseError`: too short, or the wrong magic. */
  datatype ParseResult = Raised | Returned(packet: ParsedPacket)

  predicate Parses(raw: bytes) {
    |raw| >= HEADER_SIZE && Unpack(raw[..HEADER_SIZE]).magic == MAGIC
  }

  /** No structural defect. */
  predicate Sound(sha: Digest, raw: bytes)
    requires Parses(raw)
  {
    var h := Unpack(raw[..HEADER_SIZE]);
    var payload := PayloadSlice(raw, h.payloadLen);
    && h.version == PROTOCOL_VER && h.packetType == PACKET_TYPE_TEL
    && TeamName(h.teamId).Some? && SessionName(h.sessionId).Some?
    && |payload| == h.payloadLen && sha(payload) == h.checksum
    && h.seqNo != 0 && h.timestampMs != 0
  }

  /** The defects in the order they are looked for. */
  function Defects(sha: Digest, h: Header, payload: bytes): seq<ParseError> {
    var e1 := When(h.version != PROTOCOL_VER, [], UnsupportedVersion);
    var e2 := When(h.packetType != PACKET_TYPE_TEL, e1, UnsupportedType);
    var e3 := When(TeamName(h.teamId).None?, e2, UnknownTeam);
    var e4 := When(SessionName(h.sessionId).None?, e3, UnknownSession);
    var e5 := When(|payload| != h.payloadLen, e4, LengthMismatch);
    var e6 := When(sha(payload) != h.checksum, e5, ChecksumMismatch);
    var e7 := When(h.seqNo == 0, e6, ZeroSequence);
    When(h.timestampMs == 0, e7, ZeroTimestamp)
  }

  /** At most one defect of each kind, in this order, each under its own condition. */
  lemma DefectsAre(sha: Digest, h: Header, payload: bytes)
    ensures Defects(sha, h, payload)
         == (if h.version != 1 then [UnsupportedVersion] else [])
          + (if h.packetType != 1 then [UnsupportedType] else [])
          + (if !(1 <= h.teamId <= 5) then [UnknownTeam] else [])
          + (if !(1 <= h.sessionId <= 3) then [UnknownSession] else [])
          + (if |payload| != h.payloadLen then [LengthMismatch] else [])
          + (if sha(payload) != h.checksum then [ChecksumMismatch] else [])
          + (if h.seqNo == 0 then [ZeroSequence] else [])
          + (if h.timestampMs == 0 then [ZeroTimestamp] else [])
  {
    var e1 := WhenAdds(h.version != PROTOCOL_VER, [], UnsupportedVersion);
    var e2 := WhenAdds(h.packetType != PACKET_TYPE_TEL, e1, UnsupportedType);
    var e3 := WhenAdds(TeamName(h.teamId).None?, e2, UnknownTeam);
    var e4 := WhenAdds(SessionName(h.sessionId).None?, e3, UnknownSession);
    var e5 := WhenAdds(|payload| != h.payloadLen, e4, LengthMismatch);
    var e6 := WhenAdds(sha(payload) != h.checksum, e5, ChecksumMismatch);
    var e7 := WhenAdds(h.seqNo == 0, e6, ZeroSequence);
    var e8 := WhenAdds(h.timestampMs == 0, e7, ZeroTimestamp);
    assert e1 == if h.version != 1 then [UnsupportedVersion] else [];
  }

  lemma WhenAdds(found: bool, list: seq<ParseError>, item: ParseError) returns (grown: seq<ParseError>)
    ensures grown == When(found, list, item) == list + if found then [item] else []
  {
    grown := When(found, list, item);
    assert list + [] == list;
  }

  lemma NoDefectsIff(sha: Digest, raw: bytes)
    requires Parses(raw)
    ensures var h := Unpack(raw[..HEADER_SIZE]);
      Defects(sha, h, PayloadSlice(raw, h.payloadLen)) == [] <==> Sound(sha, raw)
  {
  }

  class PacketParser {
    const sha: Digest
    var parsedCount: nat
    var rejectedCount: nat

    constructor (sha: Digest)
      ensures this.sha == sha && parsedCount == 0 && rejectedCount == 0
    {
      this.sha := sha;
      parsedCount, rejectedCount := 0, 0;
    }

    method CollectErrors(h: Header, payload: bytes, team: Option<string>, session: Option<string>, checksumValid: bool)
      returns (errors: seq<ParseError>)
      requires team == TeamName(h.teamId) && session == SessionName(h.sessionId)
      requires checksumValid <==> sha(payload) == h.checksum
      ensures errors == Defects(sha, h, payload)
    {
      errors := [];
      errors := When(h.version != PROTOCOL_VER, errors, UnsupportedVersion);
      errors := When(h.packetType != PACKET_TYPE_TEL, errors, UnsupportedType);
      errors := When(team.None?, errors, UnknownTeam);
      errors := When(session.None?, errors, UnknownSession);
      errors := When(|payload| != h.payloadLen, errors, LengthMismatch);
      errors := When(!checksumValid, errors, ChecksumMismatch);
      errors := When(h.seqNo == 0, errors, ZeroSequence);
      errors := When(h.timestampMs == 0, errors, ZeroTimestamp);
    }

    /** A packet is valid exactly when it is a builder's frame, up to the reserved field and
        trailing bytes; each call is counted once. */
    method Parse(raw: bytes) returns (r: ParseResult)
      modifies this
      ensures r.Raised? <==> !Parses(raw)
      ensures r.Returned? ==> r.packet.isValid == Sound(sha, raw)
      ensures r.Returned? && r.packet.isValid <==> IsBuilderFrame(sha, raw)
      ensures r.Returned? ==>
        && r.packet.header == raw[..HEADER_SIZE] && r.packet.fields == Unpack(raw[..HEADER_SIZE])
        && r.packet.payload == PayloadSlice(raw, r.packet.fields.payloadLen)
        && r.packet.team == TeamName(r.packet.fields.teamId)
        && r.packet.session == SessionName(r.packet.fields.sessionId)
        && (r.packet.checksumValid <==> sha(r.packet.payload) == r.packet.fields.checksum)
        && (r.packet.isValid <==> r.packet.errors == [])
        && r.packet.errors == Defects(sha, r.packet.fields, r.packet.payload)
      ensures var valid := r.Returned? && r.packet.isValid;
        && parsedCount == old(parsedCount) + (if valid then 1 else 0)
        && rejectedCount == old(rejectedCount) + (if valid then 0 else 1)
    {
      SoundIffBuilt(sha, raw);
      if |raw| < HEADER_SIZE {
        rejectedCount := rejectedCount + 1;
        return Raised;
      }
      var h := Unpack(raw[..HEADER_SIZE]);
      if h.magic != MAGIC {
        rejectedCount := rejectedCount + 1;
        return Raised;
      }
      var team, session := TeamName(h.teamId), SessionName(h.sessionId);
      var payload := PayloadSlice(raw, h.payloadLen);
      var checksumValid := sha(payload) == h.checksum;
      var errors := CollectErrors(h, payload, team, session, checksumValid);
      NoDefectsIff(sha, raw);
      var isValid := |errors| == 0;
      if isValid {
        parsedCount := parsedCount + 1;
      } else {
        rejectedCount := rejectedCount + 1;
      }
      r := Returned(ParsedPacket(raw[..HEADER_SIZE], payload, h, team, session, checksumValid, isValid, errors));
    }
  }

  ghost predicate IsBuilderFrame(sha: Digest, raw: bytes) {
    exists f: WireFrame :: f.Valid(sha) && raw == f.Encode(sha)
  }

  /** Every builder's frame with a nonzero number and timestamp is sound, whatever trails. */
  lemma BuiltIsSound(sha: Digest, f: WireFrame)
    requires f.Valid(sha)
    ensures Parses(f.Encode(sha)) && Sound(sha, f.Encode(sha))
  {
    var h, tail := f.Fields(sha), f.payload + f.trailing;
    UnpackPack(h);
    SplitAt(Pack(h), tail);
    assert f.Encode(sha)[HEADER_SIZE..HEADER_SIZE + |f.payload|] == f.payload by {
      SplitAt(f.payload, f.trailing);
      assert f.Encode(sha)[HEADER_SIZE..HEADER_SIZE + |f.payload|] == f.Encode(sha)[HEADER_SIZE..][..|f.payload|];
    }
  }

  /** Conversely every sound packet is a builder's frame. */
  lemma SoundIsBuilt(sha: Digest, raw: bytes)
    requires Parses(raw) && Sound(sha, raw)
    ensures IsBuilderFrame(sha, raw)
  {
    var h := Unpack(raw[..HEADER_SIZE]);
    var payload := PayloadSlice(raw, h.payloadLen);
    var f := WireFrame(TeamName(h.teamId).value, SessionName(h.sessionId).value, h.seqNo, h.timestampMs,
                       payload, h.reserved, raw[HEADER_SIZE + h.payloadLen..]);
    NamesInvert(h.teamId, h.sessionId);
    PackUnpack(raw[..HEADER_SIZE]);
    assert f.Fields(sha) == h;
    ThreeParts(raw, h.payloadLen);
    assert raw == f.Encode(sha);
  }

  lemma NamesInvert(teamId: byte, sessionId: byte)
    requires TeamName(teamId).Some? && SessionName(sessionId).Some?
    ensures TeamId(TeamName(teamId).value) == Some(teamId) && SessionId(SessionName(sessionId).value) == Some(sessionId)
  {
  }

  lemma ThreeParts(raw: bytes, len: nat)
    requires HEADER_SIZE + len <= |raw|
    ensures raw == raw[..HEADER_SIZE] + (raw[HEADER_SIZE..HEADER_SIZE + len] + raw[HEADER_SIZE + len..])
  {
  }

  lemma SoundIffBuilt(sha: Digest, raw: bytes)
    ensures Parses(raw) && Sound(sha, raw) <==> IsBuilderFrame(sha, raw)
  {
    if Parses(raw) && Sound(sha, raw) {
      SoundIsBuilt(sha, raw);
    }
    if IsBuilderFrame(sha, raw) {
      var f: WireFrame :| f.Valid(sha) && raw == f.Encode(sha);
      BuiltIsSound(sha, f);
    }
  }
}
