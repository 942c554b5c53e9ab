/** Hybrid signatures as the signing code sees them: the pair, the key that makes it, the check. */
module Signatures {
  import opened Bytes

  /** The two signatures of a hybrid pair. */
  datatype Signature = Signature(classical: seq<byte>, pq: seq<byte>)

  /** A signing key over a transcript, and the check against a public key. */
  type Signer = seq<byte> -> Option<Signature>
  type Verifier = (seq<byte>, Signature) -> bool
}
