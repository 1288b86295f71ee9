/** The 64-byte binary header: a big-endian printer and parser that undo each other. */
module HeaderCodec {
  import opened Optional
  import opened Packets

  const MAGIC: nat := 0x50435246
  const PROTOCOL_VER: byte := 1
  const PACKET_TYPE_TEL: byte := 1
  const HEADER_SIZE: nat := 64
  const CHECKSUM_SIZE: nat := 32

  function TeamId(team: string): Option<byte> {
    if team == "mercedes" then Some(1)
    else if team == "redbull" then Some(2)
    else if team == "ferrari" then Some(3)
    else if team == "mclaren" then Some(4)
    else if team == "williams" then Some(5)
    else None
  }

  function TeamName(id: byte): Option<string> {
    if id == 1 then Some("mercedes")
    else if id == 2 then Some("redbull")
    else if id == 3 then Some("ferrari")
    else if id == 4 then Some("mclaren")
    else if id == 5 then Some("williams")
    else None
  }

  function SessionId(session: string): Option<byte> {
    if session == "R" then Some(1) else if session == "Q" then Some(2) else if session == "S" then Some(3) else None
  }

  function SessionName(id: byte): Option<string> {
    if id == 1 then Some("R") else if id == 2 then Some("Q") else if id == 3 then Some("S") else None
  }

  const TEAMS := ["mercedes", "redbull", "ferrari", "mclaren", "williams"]
  const SESSIONS := ["R", "Q", "S"]

  /** The codes are the places in these lists, counting from one; nothing else has a code. */
  lemma CodesArePlaces(name: string, id: byte)
    ensures forall i :: 0 <= i < 5 ==> TeamId(TEAMS[i]) == Some(i + 1) && TeamName(i + 1) == Some(TEAMS[i])
    ensures forall i :: 0 <= i < 3 ==> SessionId(SESSIONS[i]) == Some(i + 1) && SessionName(i + 1) == Some(SESSIONS[i])
    ensures (TeamId(name).Some? ==> name in TEAMS) && (SessionId(name).Some? ==> name in SESSIONS)
    ensures (TeamName(id).Some? <==> 1 <= id <= 5) && (SessionName(id).Some? <==> 1 <= id <= 3)
  {
    assert TEAMS[0] == "mercedes" && TEAMS[1] == "redbull" && TEAMS[2] == "ferrari";
    assert TEAMS[3] == "mclaren" && TEAMS[4] == "williams";
    assert SESSIONS[0] == "R" && SESSIONS[1] == "Q" && SESSIONS[2] == "S";
  }

  // ---- big-endian numbers ---------------------------------------------------------------

  function Pow256(width: nat): nat {
    if width == 0 then 1 else 256 * Pow256(width - 1)
  }

  function BigEndian(n: nat, width: nat): (b: bytes)
    ensures |b| == width
  {
    if width == 0 then [] else BigEndian(n / 256, width - 1) + [n % 256]
  }

  function FromBigEndian(b: bytes): nat {
    if b == [] then 0 else FromBigEndian(b[..|b| - 1]) * 256 + b[|b| - 1]
  }

  lemma {:induction false} PrintThenParse(n: nat, width: nat)
    requires n < Pow256(width)
    ensures FromBigEndian(BigEndian(n, width)) == n
  {
    if width > 0 {
      PrintThenParse(n / 256, width - 1);
      var b := BigEndian(n, width);
      assert b[..width - 1] == BigEndian(n / 256, width - 1);
    }
  }

  lemma {:induction false} ParseThenPrint(b: bytes)
    ensures FromBigEndian(b) < Pow256(|b|)
    ensures BigEndian(FromBigEndian(b), |b|) == b
  {
    if b != [] {
      var front := b[..|b| - 1];
      ParseThenPrint(front);
      assert FromBigEndian(b) / 256 == FromBigEndian(front) && FromBigEndian(b) % 256 == b[|b| - 1];
      assert b == front + [b[|b| - 1]];
    }
  }

  lemma MagicFits()
    ensures MAGIC < Pow256(4)
  {
    assert Pow256(2) == 65536;
    assert Pow256(3) == 256 * Pow256(2);
    assert Pow256(4) == 256 * Pow256(3);
  }

  // ---- the header record ----------------------------------------------------------------

  datatype Header = Header(
    magic: nat, version: byte, teamId: byte, sessionId: byte, packetType: byte,
    seqNo: nat, timestampMs: nat, payloadLen: nat, checksum: bytes, reserved: nat)
  {
    /** `struct.pack` raises an error for a field that does not fit. */
    predicate Fits() {
      && magic < Pow256(4) && seqNo < Pow256(8) && timestampMs < Pow256(8)
      && payloadLen < Pow256(4) && |checksum| == CHECKSUM_SIZE && reserved < Pow256(4)
    }
  }

  function Pack(h: Header): (raw: bytes)
    requires h.Fits()
    ensures |raw| == HEADER_SIZE
  {
    BigEndian(h.magic, 4) + ([h.version, h.teamId, h.sessionId, h.packetType]
    + (BigEndian(h.seqNo, 8) + (BigEndian(h.timestampMs, 8) + (BigEndian(h.payloadLen, 4)
    + (h.checksum + BigEndian(h.reserved, 4))))))
  }

  function Unpack(raw: bytes): Header
    requires |raw| == HEADER_SIZE
  {
    var r1 := raw[4..];
    var r2 := r1[4..];
    var r3 := r2[8..];
    var r4 := r3[8..];
    var r5 := r4[4..];
    var r6 := r5[32..];
    Header(FromBigEndian(raw[..4]), r1[0], r1[1], r1[2], r1[3],
           FromBigEndian(r2[..8]), FromBigEndian(r3[..8]), FromBigEndian(r4[..4]), r5[..32], FromBigEndian(r6))
  }

  lemma SplitAt(a: bytes, b: bytes)
    ensures (a + b)[..|a|] == a && (a + b)[|a|..] == b
  {
  }

  lemma UnpackPack(h: Header)
    requires h.Fits()
    ensures Unpack(Pack(h)) == h
  {
    var p6 := BigEndian(h.reserved, 4);
    var p5 := h.checksum + p6;
    var p4 := BigEndian(h.payloadLen, 4) + p5;
    var p3 := BigEndian(h.timestampMs, 8) + p4;
    var p2 := BigEndian(h.seqNo, 8) + p3;
    var p1 := [h.version, h.teamId, h.sessionId, h.packetType] + p2;
    SplitAt(BigEndian(h.magic, 4), p1);
    SplitAt([h.version, h.teamId, h.sessionId, h.packetType], p2);
    SplitAt(BigEndian(h.seqNo, 8), p3);
    SplitAt(BigEndian(h.timestampMs, 8), p4);
    SplitAt(BigEndian(h.payloadLen, 4), p5);
    SplitAt(h.checksum, p6);
    PrintThenParse(h.magic, 4);
    PrintThenParse(h.seqNo, 8);
    PrintThenParse(h.timestampMs, 8);
    PrintThenParse(h.payloadLen, 4);
    PrintThenParse(h.reserved, 4);
  }

  lemma PackUnpack(raw: bytes)
    requires |raw| == HEADER_SIZE
    ensures Unpack(raw).Fits() && Pack(Unpack(raw)) == raw
  {
    var r1 := raw[4..];
    var r2 := r1[4..];
    var r3 := r2[8..];
    var r4 := r3[8..];
    var r5 := r4[4..];
    var r6 := r5[32..];
    ParseThenPrint(raw[..4]);
    ParseThenPrint(r2[..8]);
    ParseThenPrint(r3[..8]);
    ParseThenPrint(r4[..4]);
    ParseThenPrint(r6);
    assert r5 == r5[..32] + r6;
    assert r4 == r4[..4] + r5;
    assert r3 == r3[..8] + r4;
    assert r2 == r2[..8] + r3;
    assert r1 == [r1[0], r1[1], r1[2], r1[3]] + r2;
    assert raw == raw[..4] + r1;
  }

  /** Where each field lies in the 64 bytes. */
  lemma FieldPositions(raw: bytes)
    requires |raw| == 64
    ensures var h := Unpack(raw);
      && h.magic == FromBigEndian(raw[0..4])
      && h.version == raw[4] && h.teamId == raw[5] && h.sessionId == raw[6] && h.packetType == raw[7]
      && h.seqNo == FromBigEndian(raw[8..16]) && h.timestampMs == FromBigEndian(raw[16..24])
      && h.payloadLen == FromBigEndian(raw[24..28]) && h.checksum == raw[28..60]
      && h.reserved == FromBigEndian(raw[60..64])
  {
    assert raw[4..][4..] == raw[8..] && raw[8..][8..] == raw[16..] && raw[16..][8..] == raw[24..];
    assert raw[24..][4..] == raw[28..] && raw[28..][32..] == raw[60..];
    assert raw[8..][..8] == raw[8..16] && raw[16..][..8] == raw[16..24] && raw[24..][..4] == raw[24..28];
    assert raw[28..][..32] == raw[28..60] && raw[60..] == raw[60..64] && raw[..4] == raw[0..4];
  }

  /** The first byte weighs most: each byte counts 256 times as much as the next. */
  lemma {:induction false} FirstByteWeighsMost(b: bytes)
    requires b != []
    ensures FromBigEndian(b) == b[0] * Pow256(|b| - 1) + FromBigEndian(b[1..])
  {
    if |b| > 1 {
      var front, last := b[..|b| - 1], b[|b| - 1];
      FirstByteWeighsMost(front);
      assert b[1..][..|b| - 2] == front[1..];
      Regroup(b[0], Pow256(|b| - 2), FromBigEndian(front[1..]), last);
    }
  }

  lemma Regroup(x: int, w: int, rest: int, last: int)
    ensures (x * w + rest) * 256 + last == x * (256 * w) + (rest * 256 + last)
  {
  }

  /** The magic number spells "PCRF" in the first four bytes. */
  lemma MagicSpells()
    ensures FromBigEndian(['P' as int, 'C' as int, 'R' as int, 'F' as int]) == MAGIC
  {
    var p, c, r: bytes := ['P' as int], ['P' as int, 'C' as int], ['P' as int, 'C' as int, 'R' as int];
    var b: bytes := ['P' as int, 'C' as int, 'R' as int, 'F' as int];
    assert b[..3] == r && r[..2] == c && c[..1] == p && p[..0] == [];
    assert FromBigEndian(p) == 0x50 && FromBigEndian(c) == 0x5043 && FromBigEndian(r) == 0x50_4352;
  }

  // ---- the builder's header and its parser ----------------------------------------------

  function BuiltHeader(
      teamId: byte, sessionId: byte, seqNo: nat, timestampMs: nat, payload: bytes, checksum: bytes): Header
  {
    Header(MAGIC, PROTOCOL_VER, teamId, sessionId, PACKET_TYPE_TEL, seqNo, timestampMs, |payload|, checksum, 0)
  }

  datatype ParsedHeader = ParsedHeader(
    version: byte, team: string, session: string, packetType: byte,
    seqNo: nat, timestampMs: nat, payloadLen: nat, checksum: bytes)

  datatype HeaderResult = TooShort | BadMagic | Parsed(fields: ParsedHeader)

  /** Anything after the first 64 bytes is ignored. */
  function ParseHeader(raw: bytes): HeaderResult {
    if |raw| < HEADER_SIZE then TooShort
    else
      var h := Unpack(raw[..HEADER_SIZE]);
      if h.magic != MAGIC then BadMagic
      else Parsed(ParsedHeader(
        h.version, TeamName(h.teamId).GetOr("unknown"), SessionName(h.sessionId).GetOr("unknown"), h.packetType,
        h.seqNo, h.timestampMs, h.payloadLen, h.checksum))
  }

  /** Parsing recovers what the builder packed, whatever follows the header. */
  lemma ParseBuilt(
      team: string, session: string, seqNo: nat, timestampMs: nat, payload: bytes, checksum: bytes, rest: bytes)
    requires TeamId(team).Some? && SessionId(session).Some?
    requires BuiltHeader(TeamId(team).value, SessionId(session).value, seqNo, timestampMs, payload, checksum).Fits()
    ensures var h := BuiltHeader(TeamId(team).value, SessionId(session).value, seqNo, timestampMs, payload, checksum);
      ParseHeader(Pack(h) + rest)
        == Parsed(ParsedHeader(PROTOCOL_VER, team, session, PACKET_TYPE_TEL, seqNo, timestampMs, |payload|, checksum))
  {
    var h := BuiltHeader(TeamId(team).value, SessionId(session).value, seqNo, timestampMs, payload, checksum);
    SplitAt(Pack(h), rest);
    UnpackPack(h);
  }

  /** Build a header again from parsed fields. */
  function Rebuild(p: ParsedHeader): Option<bytes> {
    if TeamId(p.team).None? || SessionId(p.session).None? then None
    else
      var h := Header(MAGIC, PROTOCOL_VER, TeamId(p.team).value, SessionId(p.session).value, PACKET_TYPE_TEL,
                      p.seqNo, p.timestampMs, p.payloadLen, p.checksum, 0);
      if h.Fits() then Some(Pack(h)) else None
  }

  /** Rebuilding a parsed header gives back the same 64 bytes exactly for the builder's own
      version and type, known ids and a zero reserved field. */
  lemma RebuildIff(raw: bytes)
    requires |raw| == HEADER_SIZE && ParseHeader(raw).Parsed?
    ensures var h := Unpack(raw);
      Rebuild(ParseHeader(raw).fields) == Some(raw)
      <==> h.version == PROTOCOL_VER && h.packetType == PACKET_TYPE_TEL && h.reserved == 0
           && TeamName(h.teamId).Some? && SessionName(h.sessionId).Some?
  {
    assert raw[..HEADER_SIZE] == raw;
    var h, p := Unpack(raw), ParseHeader(raw).fields;
    PackUnpack(raw);
    if TeamId(p.team).Some? && SessionId(p.session).Some? {
      var h' := Header(MAGIC, PROTOCOL_VER, TeamId(p.team).value, SessionId(p.session).value, PACKET_TYPE_TEL,
                       p.seqNo, p.timestampMs, p.payloadLen, p.checksum, 0);
      UnpackPack(h');
    }
  }
}
