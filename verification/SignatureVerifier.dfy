/** The validator's registry of car keys.  Ed25519 is an uninterpreted predicate. */
module SignatureVerifiers {
  import opened HexStrings
  import opened Optional
  import opened Packets

  const SIGNATURE_SIZE: nat := 64
  const PUBLIC_KEY_SIZE: nat := 32

  type SignatureScheme = (bytes, bytes, bytes) -> bool

  datatype SignatureVerdict =
    | Valid(node: string) | NoIdentity | UnknownNode | NoSignature | NotHex | BadSize | NoHeader | NoPayload | Invalid

  /** The car whose key a packet is checked against. */
  function VerifiedNode(p: Packet): string {
    NonEmptyOr(p.originalNode, NonEmptyOr(p.nodeId, p.signerNodeId.GetOr("")))
  }

  predicate HasSignature(p: Packet) {
    p.signatureBytes.Some? || Truthy(p.signature)
  }

  /** The raw bytes win, even when empty; otherwise the hexadecimal field is decoded. */
  function ResolvedSignature(p: Packet): Option<bytes> {
    if p.signatureBytes.Some? then p.signatureBytes
    else if Truthy(p.signature) then FromHex(p.signature.value)
    else None
  }

  predicate SizedSignature(p: Packet) {
    ResolvedSignature(p).Some? && |ResolvedSignature(p).value| == SIGNATURE_SIZE
  }

  /** The signed data, once both parts are present. */
  function Message(p: Packet): bytes {
    p.header.GetOr([]) + p.payload.GetOr([])
  }

  /** A signature under the registered key of the packet's car, over nonempty header and
      payload. */
  predicate Authentic(registry: map<string, bytes>, scheme: SignatureScheme, p: Packet) {
    var node := VerifiedNode(p);
    && node != "" && node in registry
    && SizedSignature(p) && Truthy(p.header) && Truthy(p.payload)
    && scheme(registry[node], ResolvedSignature(p).value, Message(p))
  }

  class ValidatorSignatureVerifier {
    const scheme: SignatureScheme
    var registry: map<string, bytes>
    var verifiedCount: nat
    var rejectedCount: nat
    var unknownCount: nat

    constructor (scheme: SignatureScheme)
      ensures this.scheme == scheme && registry == map[]
      ensures verifiedCount == rejectedCount == unknownCount == 0
    {
      this.scheme := scheme;
      registry := map[];
      verifiedCount, rejectedCount, unknownCount := 0, 0, 0;
    }

    /** A key of the wrong size is a value error and changes nothing. */
    method RegisterNode(node: string, key: bytes) returns (ok: bool)
      modifies this`registry
      ensures ok <==> |key| == 32
      ensures registry == if ok then old(registry)[node := key] else old(registry)
    {
      ok := |key| == PUBLIC_KEY_SIZE;
      if ok {
        registry := registry[node := key];
      }
    }

    method DeregisterNode(node: string)
      modifies this`registry
      ensures registry == old(registry) - {node}
    {
      registry := registry - {node};
    }

    /** The chain of early errors accepts exactly the authentic packets, and counts each
        call once. */
    method Verify(packet: Packet) returns (r: SignatureVerdict)
      modifies this`verifiedCount, this`rejectedCount, this`unknownCount
      ensures r == Valid(VerifiedNode(packet)) <==> Authentic(registry, scheme, packet)
      ensures r.Valid? ==> r.node == VerifiedNode(packet)
      ensures r.NoIdentity? <==> VerifiedNode(packet) == ""
      ensures r.UnknownNode? <==> VerifiedNode(packet) != "" && VerifiedNode(packet) !in registry
      ensures VerifiedNode(packet) in registry && VerifiedNode(packet) != "" ==>
        && (r.NoSignature? <==> !HasSignature(packet))
        && (r.NotHex? <==> HasSignature(packet) && ResolvedSignature(packet).None?)
        && (r.BadSize? <==> ResolvedSignature(packet).Some? && !SizedSignature(packet))
        && (r.NoHeader? <==> SizedSignature(packet) && !Truthy(packet.header))
        && (r.NoPayload? <==> SizedSignature(packet) && Truthy(packet.header) && !Truthy(packet.payload))
      ensures verifiedCount == old(verifiedCount) + (if r.Valid? then 1 else 0)
      ensures rejectedCount == old(rejectedCount) + (if r.Valid? then 0 else 1)
      ensures unknownCount == old(unknownCount) + (if r.UnknownNode? then 1 else 0)
    {
      var node := VerifiedNode(packet);
      if node == "" {
        rejectedCount := rejectedCount + 1;
        return NoIdentity;
      }
      if node !in registry {
        unknownCount := unknownCount + 1;
        rejectedCount := rejectedCount + 1;
        return UnknownNode;
      }
      var sig: bytes;
      if packet.signatureBytes.Some? {
        sig := packet.signatureBytes.value;
      } else {
        if packet.signature.GetOr("") == "" {
          rejectedCount := rejectedCount + 1;
          return NoSignature;
        }
        var decoded := FromHex(packet.signature.value);
        if decoded.None? {
          rejectedCount := rejectedCount + 1;
          return NotHex;
        }
        sig := decoded.value;
      }
      if |sig| != SIGNATURE_SIZE {
        rejectedCount := rejectedCount + 1;
        return BadSize;
      }
      if !Truthy(packet.header) {
        rejectedCount := rejectedCount + 1;
        return NoHeader;
      }
      if !Truthy(packet.payload) {
        rejectedCount := rejectedCount + 1;
        return NoPayload;
      }
      if scheme(registry[node], sig, packet.header.value + packet.payload.value) {
        verifiedCount := verifiedCount + 1;
        return Valid(node);
      }
      rejectedCount := rejectedCount + 1;
      return Invalid;
    }
  }
}
