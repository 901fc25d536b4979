/**
 * The cryptographic primitives the core calls into, kept uninterpreted.
 * Only their input and output sizes are fixed (by the types); the three
 * algebraic facts the protocol relies on are stated as predicates, and only
 * the members that need one of them require it.
 */
module Crypto {
  import opened Bytes
  import opened Wrappers

  /** SHA-256 (FIPS 180-4): any byte string to a 32-byte digest. */
  type Sha256 = seq<u8> -> Bytes32

  datatype Primitives = Primitives(
    sha256: Sha256,
    /** X25519 public key of a secret scalar (`PublicKey::from`). */
    publicKey: Bytes32 -> Bytes32,
    /** X25519 shared secret of (own secret, peer public), RFC 7748 section 5. */
    diffieHellman: (Bytes32, Bytes32) -> Bytes32,
    /** HKDF-SHA256 (RFC 5869) with no salt: (input key material, info) to 64 bytes. */
    hkdfSha256: (seq<u8>, seq<u8>) -> Bytes64,
    /** HMAC-SHA256 (RFC 2104): (key, message) to a 32-byte tag. */
    hmacSha256: (seq<u8>, seq<u8>) -> Bytes32,
    /** XChaCha20-Poly1305 encryption: (key, 24-byte nonce, plaintext). */
    seal: (Bytes32, Bytes24, seq<u8>) -> seq<u8>,
    /** XChaCha20-Poly1305 decryption; None when authentication fails. */
    open: (Bytes32, Bytes24, seq<u8>) -> Option<seq<u8>>
  ) {

    /** The AEAD output is the ciphertext followed by a 16-byte Poly1305 tag. */
    ghost predicate SealAppendsTag() {
      forall key, nonce, plaintext :: |seal(key, nonce, plaintext)| == |plaintext| + 16
    }

    /** Decrypting with the key and nonce used to encrypt gives the plaintext back. */
    ghost predicate OpenInvertsSeal() {
      forall key, nonce, plaintext :: open(key, nonce, seal(key, nonce, plaintext)) == Some(plaintext)
    }

    /** Both ends of an X25519 exchange compute the same secret. */
    ghost predicate DiffieHellmanCommutes() {
      forall a, b :: diffieHellman(a, publicKey(b)) == diffieHellman(b, publicKey(a))
    }
  }
}
