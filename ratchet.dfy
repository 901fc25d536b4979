/**
 * The ratchet session (`ratchet.rs`).  As the source stands it is a
 * message counter: each send or receive advances its own `u32` counter and
 * derives a message key as SHA-256 over the chain key and the counter's four
 * little-endian bytes; `encrypt` and `decrypt` pass the bytes through
 * unchanged.  The session's fields live in a class whose methods update
 * them in place.
 */
module Ratchet {
  import opened Bytes
  import opened Wrappers
  import opened Crypto

  /** `RatchetError`; its only variant is never produced. */
  datatype RatchetError = DecryptionFailed

  /** The largest `u32`: `+= 1` on a counter at this value overflows. */
  const CounterMax: nat := 0xFFFF_FFFF

  /** The bytes hashed for the message key at position `count` of a chain. */
  function MessageKeyInput(chain: Bytes32, count: u32): (data: seq<u8>)
    ensures |data| == 36 && data[..32] == chain && U32From(data[32..]) == count
  {
    U32RoundTrip(count);
    assert (chain + ToLE(count, 4))[32..] == ToLE(count, 4);
    chain + ToLE(count, 4)
  }

  /** The message key at position `count` of a chain. */
  function MessageKey(sha256: Sha256, chain: Bytes32, count: u32): Bytes32 {
    sha256(MessageKeyInput(chain, count))
  }

  /** Different positions, or different chains, hash different inputs: the
      message keys can coincide only through a SHA-256 collision. */
  lemma MessageKeyInputsDistinct(chain1: Bytes32, count1: u32, chain2: Bytes32, count2: u32)
    ensures MessageKeyInput(chain1, count1) == MessageKeyInput(chain2, count2)
        <==> chain1 == chain2 && count1 == count2
  {
    var a, b := MessageKeyInput(chain1, count1), MessageKeyInput(chain2, count2);
    if a == b {
      assert a[..32] == b[..32] && a[32..] == b[32..];
    }
  }

  class RatchetState {
    var rootKey: Bytes32
    var sendChain: Bytes32
    var recvChain: Bytes32
    /** The session's own X25519 ratchet secret. */
    var ratchetSecret: Bytes32
    var peerRatchetPublic: Bytes32
    var sendCount: u32
    var recvCount: u32

    /** `RatchetState::new`.  The ratchet secret, drawn from `OsRng` in the
        source, is a parameter.  Both chains start from fixed hashes, not
        from the root key. */
    constructor (sha256: Sha256, rootKey: Bytes32, peerRatchetPublic: Bytes32, ratchetSecret: Bytes32)
      ensures this.rootKey == rootKey && this.peerRatchetPublic == peerRatchetPublic
      ensures this.ratchetSecret == ratchetSecret
      ensures sendChain == sha256([0]) && recvChain == sha256([1])
      ensures sendCount == 0 && recvCount == 0
    {
      this.rootKey := rootKey;
      sendChain := sha256([0]);
      recvChain := sha256([1]);
      this.ratchetSecret := ratchetSecret;
      this.peerRatchetPublic := peerRatchetPublic;
      sendCount := 0;
      recvCount := 0;
    }

    /** `next_send_key`: advance the send counter, then derive the key for
        its new value. */
    method NextSendKey(sha256: Sha256) returns (key: Bytes32)
      requires sendCount < CounterMax
      modifies this
      ensures sendCount == old(sendCount) + 1 && key == MessageKey(sha256, sendChain, sendCount)
      ensures recvCount == old(recvCount)
      ensures rootKey == old(rootKey) && sendChain == old(sendChain) && recvChain == old(recvChain)
      ensures ratchetSecret == old(ratchetSecret) && peerRatchetPublic == old(peerRatchetPublic)
    {
      sendCount := sendCount + 1;
      var data := [];
      data := data + sendChain;
      data := data + ToLE(sendCount, 4);
      assert data == MessageKeyInput(sendChain, sendCount);
      key := sha256(data);
    }

    /** `next_recv_key`: the same on the receive chain. */
    method NextRecvKey(sha256: Sha256) returns (key: Bytes32)
      requires recvCount < CounterMax
      modifies this
      ensures recvCount == old(recvCount) + 1 && key == MessageKey(sha256, recvChain, recvCount)
      ensures sendCount == old(sendCount)
      ensures rootKey == old(rootKey) && sendChain == old(sendChain) && recvChain == old(recvChain)
      ensures ratchetSecret == old(ratchetSecret) && peerRatchetPublic == old(peerRatchetPublic)
    {
      recvCount := recvCount + 1;
      var data := [];
      data := data + recvChain;
      data := data + ToLE(recvCount, 4);
      assert data == MessageKeyInput(recvChain, recvCount);
      key := sha256(data);
    }

    /** `encrypt`: derive (and discard) the next send key; the ciphertext is
        the plaintext and the header is the session's own ratchet public key. */
    method Encrypt(c: Primitives, plaintext: seq<u8>) returns (ciphertext: seq<u8>, header: seq<u8>)
      requires sendCount < CounterMax
      modifies this
      ensures ciphertext == plaintext && header == c.publicKey(ratchetSecret) && |header| == 32
      ensures sendCount == old(sendCount) + 1 && recvCount == old(recvCount)
      ensures rootKey == old(rootKey) && sendChain == old(sendChain) && recvChain == old(recvChain)
      ensures ratchetSecret == old(ratchetSecret) && peerRatchetPublic == old(peerRatchetPublic)
    {
      var msgKey := NextSendKey(c.sha256);
      ciphertext := plaintext;
      header := c.publicKey(ratchetSecret);
    }

    /** `decrypt`: derive (and discard) the next receive key, ignore the
        header and return the ciphertext unchanged. */
    method Decrypt(sha256: Sha256, header: seq<u8>, ciphertext: seq<u8>) returns (r: Result<seq<u8>, RatchetError>)
      requires recvCount < CounterMax
      modifies this
      ensures r == Ok(ciphertext)
      ensures recvCount == old(recvCount) + 1 && sendCount == old(sendCount)
      ensures rootKey == old(rootKey) && sendChain == old(sendChain) && recvChain == old(recvChain)
      ensures ratchetSecret == old(ratchetSecret) && peerRatchetPublic == old(peerRatchetPublic)
    {
      var msgKey := NextRecvKey(sha256);
      r := Ok(ciphertext);
    }
  }
}
