# PhantomChat core in Dafny

This project models the message core of PhantomChat and proves properties of
it. PhantomChat is a messenger that hides recipients behind stealth tags and
rate-limits senders with a proof of work. The model covers four parts:

- **`util.rs`**: the leading-zero-bit counter that the proof of work thresholds, and the hex encoder.
- **`pow.rs`**: Hashcash. It searches for the first 64-bit nonce whose SHA-256 digest, taken over the data followed by the nonce, has enough leading zero bits, and it verifies such a nonce.
- **`envelope.rs`**: the plaintext `Payload` and the on-wire `Envelope` with their byte encodings. This part also covers building an envelope and opening it. Building means an ephemeral X25519 exchange, then HKDF into an encryption key and a tag key, then an HMAC stealth tag over the message id, then XChaCha20-Poly1305 over the encoded payload, and finally the proof of work over the header. Opening means decryption and the recipient check.
- **`ratchet.rs`**: the ratchet session. As written it counts messages and derives one SHA-256 message key per message.

The modules follow the source files. `Bytes` holds the little-endian integer
codecs that the Rust code reaches through `to_le_bytes`/`from_le_bytes`.
`Crypto` holds the primitives as uninterpreted functions. The remaining modules
are `Util`, `Pow`, `Envelopes` and `Ratchet`.

The state-changing and loop-based code is written as methods, each proved
against a specification function:

- `LeadingZeroBits` against `LeadingZeroBitCount`;
- `ComputeNonce` and `Verify` against `Accepts`;
- both `ToBytes` against `PayloadBytes`/`EnvelopeBytes`;
- both `FromBytes` against `DecodePayload`/`DecodeEnvelope`;
- `New` against `Assemble`.

The lemmas then state what the source promises about those functions:

- round trips with trailing bytes;
- decode-then-encode;
- rejection of every truncation;
- field offsets;
- minimality of the nonce;
- the difficulty threshold read as a numeric bound;
- that the holder of the spend secret decrypts and recognises what `Envelope::new` built for its public key.

The ratchet is a class whose methods update the two counters in place and
leave every other field unchanged.

Some facts about the model:

- **Byte order.** Every integer is encoded little-endian, because the code calls `to_le_bytes` throughout. The doc comment on `Payload` (envelope.rs:21-25) says big-endian. The model follows the code.
- **Length casts.** Lengths are cast with `as u32` when encoded, and the encoders reduce them modulo 2^32 exactly as the cast does. The round-trip lemmas therefore require the variable fields to be shorter than 2^32 bytes.
- **Proof-of-work header.** The header of `Envelope::new` has zero placeholders where ts and ttl would go (`PowHeader`). The model keeps them.
- **Chain keys.** The ratchet derives its two chain keys from fixed hashes, `sha256([0])` for sending and `sha256([1])` for receiving, not from the root key. So one session's send keys and its peer's receive keys are hashes of different inputs (`MessageKeyInputsDistinct`).

Both `from_bytes` parsers can slice past the end of their input, which panics in
Rust. The model therefore has two versions of each parser:

- `PayloadFromBytesAsWritten` and `EnvelopeFromBytesAsWritten` model the code as written. Every slice is checked there, and a slice out of range yields `OutOfBounds`.
- `DecodePayload` and `DecodeEnvelope` add the missing guards. They are used everywhere else.

See "## Findings".

## Model

| member | source | states |
|---|---|---|
| Bytes.FromLEToLE | phantomchat/phantomchat/core/src/envelope.rs:38-43 | reading back the little-endian bytes of any value that fits the width gives the value |
| Bytes.ToLEFromLE | phantomchat/phantomchat/core/src/envelope.rs:51-60 | any byte string re-encodes from its little-endian value to itself |
| Bytes.ToLEInjective | phantomchat/phantomchat/core/src/envelope.rs:38-43 | distinct values that fit the width have distinct encodings |
| Util.Clz8 | phantomchat/phantomchat/core/src/util.rs:25 | `leading_zeros` of a byte is at most 8, is 8 exactly for zero, and otherwise locates the highest set bit: 2^(7-n) <= x < 2^(8-n) |
| Util.LeadingZeroBitCount | phantomchat/phantomchat/core/src/util.rs:19-30 | the count never exceeds 8 bits per byte |
| Util.LeadingZeroBits | phantomchat/phantomchat/core/src/util.rs:19-30 | the loop with its early break returns exactly the specified count |
| Util.AllZeroBytes | phantomchat/phantomchat/core/src/util.rs:21-24 | an all-zero input (the empty one included) counts 8 per byte |
| Util.FullCountMeansAllZero | phantomchat/phantomchat/core/src/util.rs:21-24 | conversely, a count of 8 per byte means every byte is zero |
| Util.LeadingZeroBitsAtFirstNonZero | phantomchat/phantomchat/core/src/util.rs:21-27 | with k zero bytes before a non-zero byte x the count is 8k + clz8(x), and clz8(x) < 8 |
| Util.LeadingZeroBitsIgnoreTail | phantomchat/phantomchat/core/src/util.rs:25-26 | bytes after the first non-zero byte never change the count |
| Util.LeadingZeroBitsMagnitude | phantomchat/phantomchat/core/src/util.rs:19-30 | the count is the position of the highest set bit of the big-endian value: zero value at full count, else 2^(w-n-1) <= value < 2^(w-n) |
| Util.LeadingZeroBitsThreshold | phantomchat/phantomchat/core/src/util.rs:19-30 | at least t leading zero bits if and only if the big-endian value is below 2^(w-t) |
| Util.HexDigit | phantomchat/phantomchat/core/src/util.rs:15 | every nibble becomes one lowercase hexadecimal digit |
| Util.HexDigitInjective | phantomchat/phantomchat/core/src/util.rs:15 | distinct nibbles give distinct digits |
| Util.HexByteInjective | phantomchat/phantomchat/core/src/util.rs:15 | distinct bytes give distinct two-digit renderings |
| Util.ToHex | phantomchat/phantomchat/core/src/util.rs:14-16 | the encoding has two characters per byte |
| Util.ToHexAt | phantomchat/phantomchat/core/src/util.rs:14-16 | byte i becomes characters 2i and 2i+1, high nibble first |
| Util.ToHexAppend | phantomchat/phantomchat/core/src/util.rs:15 | the encoding of a concatenation is the concatenation of the encodings |
| Util.ToHexInjective | phantomchat/phantomchat/core/src/util.rs:14-16 | distinct byte strings have distinct encodings |
| Pow.PowInput | phantomchat/phantomchat/core/src/pow.rs:29-31 | the hashed buffer is the data followed by 8 bytes that read back as the nonce |
| Pow.Hashcash.Verify | phantomchat/phantomchat/core/src/pow.rs:40-46 | true if and only if SHA-256 over data ++ le64(nonce) has at least the target number of leading zero bits |
| Pow.Hashcash.ComputeNonce | phantomchat/phantomchat/core/src/pow.rs:26-38 | a returned nonce is accepted and every smaller nonce is rejected; target 0 returns nonce 0; when no 64-bit nonce is accepted (always for a target above 256) the search does not return |
| Pow.HarderTargetImpliesEasier | phantomchat/phantomchat/core/src/pow.rs:45 | a nonce accepted at target t+1 is accepted at target t |
| Pow.NoNonceBeyondDigestWidth | phantomchat/phantomchat/core/src/pow.rs:44-45 | no nonce is accepted for a target above 256, the width of the digest |
| Pow.AcceptsIffDigestBelowTarget | phantomchat/phantomchat/core/src/pow.rs:44-45 | a nonce is accepted if and only if the digest, read as a number, is below 2^(256 - target) |
| Envelopes.Payload.ToBytes | phantomchat/phantomchat/core/src/envelope.rs:36-45 | the appended fields form the payload encoding, 28 bytes longer than header and body together |
| Envelopes.Payload.FromBytes | phantomchat/phantomchat/core/src/envelope.rs:49-65 | the cursor-based parser returns the corrected decoding |
| Envelopes.PayloadLayout | phantomchat/phantomchat/core/src/envelope.rs:36-45 | length 28 + header + body; msg_id at 0..16, sender_fp at 16..20, header length at 20..24, header, body length, body |
| Envelopes.PayloadRoundTrip | phantomchat/phantomchat/core/src/envelope.rs:36-65 | decoding an encoded payload followed by any bytes gives the payload back |
| Envelopes.PayloadDecodeEncode | phantomchat/phantomchat/core/src/envelope.rs:49-65 | a decoded payload re-encodes to exactly the bytes it was read from |
| Envelopes.PayloadTruncationRejected | phantomchat/phantomchat/core/src/envelope.rs:56-62 | every proper prefix of an encoded payload is rejected |
| Envelopes.PayloadAsWrittenDiffersOnlyByPanic | phantomchat/phantomchat/core/src/envelope.rs:50-54 | the parser as written slices out of range exactly on inputs of 20 to 23 bytes and otherwise agrees with the corrected one |
| Envelopes.PayloadAsWrittenReadsPastEnd | phantomchat/phantomchat/core/src/envelope.rs:50-54 | twenty zero bytes make the parser as written slice out of range |
| Envelopes.Envelope.ToBytes | phantomchat/phantomchat/core/src/envelope.rs:155-169 | the appended fields form the envelope encoding, 101 bytes longer than tag and ciphertext together |
| Envelopes.Envelope.FromBytes | phantomchat/phantomchat/core/src/envelope.rs:172-204 | the cursor-based parser returns the corrected decoding |
| Envelopes.EnvelopeLayout | phantomchat/phantomchat/core/src/envelope.rs:155-169 | length 101 + tag + ciphertext; ver at 0, ts at 1..9, ttl at 9..13, epk at 13..45, tag length at 45..49, then tag, pow_nonce, nonce, ciphertext length, ciphertext, and the mac as the last 16 bytes |
| Envelopes.EnvelopeRoundTrip | phantomchat/phantomchat/core/src/envelope.rs:155-204 | decoding an encoded envelope followed by any bytes gives the envelope back |
| Envelopes.EnvelopeDecodeEncode | phantomchat/phantomchat/core/src/envelope.rs:172-204 | a decoded envelope re-encodes to exactly the bytes it was read from |
| Envelopes.EnvelopeTruncationRejected | phantomchat/phantomchat/core/src/envelope.rs:174-198 | every proper prefix of an encoded envelope is rejected |
| Envelopes.EnvelopeAsWrittenDiffersOnlyByPanic | phantomchat/phantomchat/core/src/envelope.rs:186-198 | the parser as written slices out of range exactly when at least 101 bytes are present and the tag fits but the 36 bytes after it do not, and otherwise agrees with the corrected one |
| Envelopes.EnvelopeAsWrittenReadsPastEnd | phantomchat/phantomchat/core/src/envelope.rs:188-191 | a 101-byte input declaring a 52-byte tag makes the parser as written slice out of range, while the corrected one rejects it |
| Envelopes.TruncateU64 | phantomchat/phantomchat/core/src/envelope.rs:141 | `as u64` leaves a millisecond count below 2^64 unchanged |
| Envelopes.Assemble | phantomchat/phantomchat/core/src/envelope.rs:126-151 | ciphertext ++ mac is the whole AEAD output under the first half of the key material, the ciphertext is as long as the encoded payload, and the tag is 32 bytes |
| Envelopes.New | phantomchat/phantomchat/core/src/envelope.rs:94-153 | ver 1, ttl and nonce passed through, ts the clock truncated to 64 bits, epk the ephemeral public key, mac the last 16 bytes of the AEAD output; pow_nonce is the least nonce accepted for the header [1] ++ le64(0) ++ le32(0) ++ epk ++ tag; no envelope only when no nonce is accepted |
| Envelopes.RecipientSharesKeyMaterial | phantomchat/phantomchat/core/src/envelope.rs:212-217 | the recipient's X25519 exchange with epk yields the sender's key material |
| Envelopes.DecryptInvertsNew | phantomchat/phantomchat/core/src/envelope.rs:210-225 | the holder of the spend secret decrypts an envelope built for its public key to the payload that went in |
| Envelopes.VerifyRecipientAcceptsNew | phantomchat/phantomchat/core/src/envelope.rs:232-243 | the holder of the spend secret recognises the tag of an envelope built for its public key |
| Envelopes.DecryptedPayloadIsAuthentic | phantomchat/phantomchat/core/src/envelope.rs:220-224 | a decrypted payload comes from an AEAD open that succeeded, and re-encodes to a prefix of the opened plaintext |
| Envelopes.AssembledEnvelopeDelivers | phantomchat/phantomchat/core/src/envelope.rs:94-225 | a built envelope is 161 bytes longer than header and body, survives encoding and decoding, decrypts to its payload and passes the recipient check |
| Ratchet.MessageKeyInput | phantomchat/phantomchat/core/src/ratchet.rs:70-72 | the hashed input is the 32-byte chain key followed by four bytes that read back as the counter |
| Ratchet.MessageKeyInputsDistinct | phantomchat/phantomchat/core/src/ratchet.rs:70-73 | two key inputs are equal if and only if chain and counter both are |
| Ratchet.RatchetState.constructor | phantomchat/phantomchat/core/src/ratchet.rs:46-63 | root key, peer key and ratchet secret stored; chains sha256([0]) and sha256([1]); both counters 0 |
| Ratchet.RatchetState.NextSendKey | phantomchat/phantomchat/core/src/ratchet.rs:68-75 | the send counter grows by exactly 1, the key is SHA-256 over send chain ++ le32(new counter), nothing else changes |
| Ratchet.RatchetState.NextRecvKey | phantomchat/phantomchat/core/src/ratchet.rs:79-86 | the same on the receive chain and counter |
| Ratchet.RatchetState.Encrypt | phantomchat/phantomchat/core/src/ratchet.rs:91-99 | the ciphertext is the plaintext, the header is the 32-byte public key of the own ratchet secret, only the send counter changes (by 1) |
| Ratchet.RatchetState.Decrypt | phantomchat/phantomchat/core/src/ratchet.rs:103-107 | always `Ok(ciphertext)`, the header ignored, only the receive counter changes (by 1) |

## Left out

- SHA-256, X25519, HKDF-SHA256, HMAC-SHA256 and XChaCha20-Poly1305 are uninterpreted functions. Only their output sizes are fixed. Three properties are stated as predicates and required only where a proof relies on them: AEAD output = plaintext + 16 bytes, decryption inverts encryption, and the X25519 exchange commutes. Nothing is claimed about confidentiality, unlinkability or hash hardness.
- `util::sha256` is the `sha256` field of `Crypto.Primitives`. `Hashcash::new` is the datatype constructor `Hashcash(t)`, which stores t unchanged.
- `OsRng` (the ephemeral secret and AEAD nonce in `Envelope::new`, the ratchet secret in `RatchetState::new`) and `SystemTime::now` are method parameters.
- Envelopes.New: the clock is a natural number of milliseconds, so the panic of `duration_since(UNIX_EPOCH).unwrap()` for a clock before 1970 is not modelled. The `expect` calls on HKDF expansion, key lengths and encryption are not modelled either; none of them can fail at these sizes, except encryption of plaintexts beyond the cipher's length limit.
- Envelopes.New requires that the AEAD output be the plaintext plus 16 bytes, which `split_at(len - 16)` relies on.
- Pow.Hashcash.ComputeNonce: when no 64-bit nonce is accepted, the source's `wrapping_add` loop never returns. The model stops after 2^64 tries and returns `Exhausted`, and `Envelope::new` then returns `None`.
- Util.LeadingZeroBits: the count is an unbounded natural rather than a `u32`. The source's `u32` would overflow only for inputs of 2^29 bytes or more, and the source only counts 32-byte digests.
- Ratchet.RatchetState.NextSendKey, Ratchet.RatchetState.NextRecvKey, Ratchet.RatchetState.Encrypt and Ratchet.RatchetState.Decrypt require the counter to be below 2^32 - 1. The source's `+= 1` would overflow there (a panic in debug builds, wrap-around in release builds).
- After n encrypts and m decrypts from `new` (n, m < 2^32), the counters are n and m. This follows from the constructor's and the per-call contracts by induction on the calls. No member restates it, because no code in the source performs such a sequence of calls.
- `from_bytes` index arithmetic is unbounded. With 64-bit `usize` and lengths read as `u32`, the source's sums cannot overflow either.
- Decryption in the model parses the plaintext with the corrected payload parser. As written, `Envelope::decrypt` inherits the out-of-range slice of `Payload::from_bytes` on an authenticated plaintext of 20 to 23 bytes.
- keys.rs (thin wrappers over the X25519 library and `OsRng`), lib.rs (module declarations), the command-line client, the relay adapters (async I/O and shared queues) and the Python demo script are not part of this model.
- The double-ratchet features the source leaves as TODO: the DH ratchet step, skipped message keys, and real encryption in `encrypt`/`decrypt`.

## Findings

| source | as written | input that shows it | evidently intended | confidence | as-written member | corrected member |
|---|---|---|---|---|---|---|
| phantomchat/phantomchat/core/src/envelope.rs:50-54 | rejects inputs under 20 bytes, then slices bytes 20..24 for the header length | 20 zero bytes | reject every input too short to hold msg_id, sender_fp and the header length (under 24 bytes) | high; not executed | Envelopes.PayloadAsWrittenReadsPastEnd | Envelopes.PayloadTruncationRejected |
| phantomchat/phantomchat/core/src/envelope.rs:188-196 | after the tag it checks only that the tag fits, then slices pow_nonce, nonce and the ciphertext length from the 36 bytes after it | 101 bytes, all zero except byte 45 = 52 (a 52-byte tag ending exactly at the end of the input) | reject the input when the 36 fixed bytes after the tag do not fit | high; not executed | Envelopes.EnvelopeAsWrittenReadsPastEnd | Envelopes.EnvelopeTruncationRejected |
