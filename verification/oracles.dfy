/** The primitives the routes call but this model does not compute: bcrypt,
    base64 decoding, SPKI key import and ECDSA P-256 / SHA-256 verification.
    Each is a function-valued field, so every statement about the routes holds
    for every choice of primitives that meets the stated assumptions. */
module Oracles {
  import opened Common
  import opened Utf8

  /** A bcrypt hash string. */
  type Digest = string

  /** An imported ECDSA P-256 public key. */
  datatype EcdsaKey = EcdsaKey(spki: Bytes)

  datatype Crypto = Crypto(
    hash: string -> Digest,                 // bcrypt.hash(_, 10), salt folded in
    compare: (string, Digest) -> bool,      // bcrypt.compare
    base64: string -> Bytes,                // Buffer.from(_, 'base64')
    importSpki: string -> Option<EcdsaKey>, // subtle.importKey('spki', ...); None when it throws
    verify: (EcdsaKey, Bytes, Bytes) -> bool) // subtle.verify(key, signature, payload)

  /** What bcrypt guarantees and the routes rely on: a hash is a non-empty
      string and the hashed secret compares equal to it. */
  ghost predicate BcryptSound(c: Crypto)
  {
    forall s :: c.hash(s) != "" && c.compare(s, c.hash(s))
  }
}
