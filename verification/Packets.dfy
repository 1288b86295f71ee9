/** Optional values, and the packet dictionaries that travel between the nodes: a missing key
    is `None`, and Python's `or` skips empty strings. */
module Optional {
  datatype Option<+T> = None | Some(value: T) {
    function GetOr(default: T): T {
      match this
      case Some(v) => v
      case None => default
    }
  }
}

module Packets {
  import opened Optional

  type byte = x: int | 0 <= x < 256
  type bytes = seq<byte>

  datatype Packet = Packet(
    originalNode: Option<string>,
    nodeId: Option<string>,
    signerNodeId: Option<string>,
    sequenceNo: Option<int>,
    timestamp: Option<int>,
    nonce: Option<bytes>,
    ciphertext: Option<bytes>,
    header: Option<bytes>,
    payload: Option<bytes>,
    signature: Option<string>,
    signatureBytes: Option<bytes>,
    zkpCommitment: Option<string>,
    zkpNonce: Option<string>)

  function NonEmptyOr(field: Option<string>, otherwise: string): string {
    if field.Some? && field.value != "" then field.value else otherwise
  }

  predicate Truthy<T>(field: Option<seq<T>>) {
    field.Some? && |field.value| > 0
  }

  /** Append an item to a list of findings when it was found. */
  function When<T>(found: bool, list: seq<T>, item: T): seq<T> {
    if found then list + [item] else list
  }
}
