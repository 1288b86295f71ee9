/** The Fiat-Shamir transcript: an append-only log of labelled messages.  The Merlin sponge is
    an uninterpreted function from the log to a wide number. */
module Transcripts {
  import opened Pedersen

  datatype Body =
    | Bytes(bytes: seq<nat>)
    | PointBytes(code: nat)
    | ScalarBytes(scalar: Scalar)
    | Squeeze

  datatype Message = Message(tag: string, body: Body)

  /** The 64 squeezed bytes, as a number, for everything absorbed so far. */
  type Oracle = seq<Message> -> nat

  const PROTOCOL_LABEL := "pitcrypt-f1-zkp-v1"

  function Opening(context: seq<nat>): seq<Message> {
    [Message(PROTOCOL_LABEL, Bytes([])), Message("context", Bytes(context))]
  }

  class Transcript {
    var log: seq<Message>

    constructor (context: seq<nat>)
      ensures log == Opening(context)
    {
      log := Opening(context);
    }

    method AppendPoint(tag: string, point: Commitment)
      modifies this
      ensures log == old(log) + [Message(tag, PointBytes(point.code))]
    {
      log := log + [Message(tag, PointBytes(point.code))];
    }

    method AppendScalar(tag: string, scalar: Scalar)
      modifies this
      ensures log == old(log) + [Message(tag, ScalarBytes(scalar))]
    {
      log := log + [Message(tag, ScalarBytes(scalar))];
    }

    /** Squeezing also ratchets the sponge, so it is logged like an append. */
    method ChallengeScalar(sponge: Oracle, q: nat, tag: string) returns (c: Scalar)
      requires q > 0
      modifies this
      ensures log == old(log) + [Message(tag, Squeeze)]
      ensures c == sponge(log) % q
    {
      log := log + [Message(tag, Squeeze)];
      c := sponge(log) % q;
    }
  }
}
