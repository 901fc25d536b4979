/**
 * Hashcash proof of work (`pow.rs`).  A nonce is accepted for some data when
 * SHA-256 over the data followed by the nonce's 8 little-endian bytes has at
 * least `targetZeroBits` leading zero bits.  `Hashcash::new(t)` is the
 * datatype constructor `Hashcash(t)`.
 */
module Pow {
  import opened Bytes
  import opened Crypto
  import opened Util

  /** 2^64: one more than the largest `u64` nonce. */
  const NonceLimit: nat := 0x1_0000_0000_0000_0000

  /** What `compute_nonce` does: return a nonce, or, when no 64-bit nonce meets
      the target, count past `u64::MAX` with `wrapping_add` and never return. */
  datatype NonceSearch = Found(nonce: u64) | Exhausted

  /** The bytes hashed for one nonce. */
  function PowInput(data: seq<u8>, nonce: u64): (buf: seq<u8>)
    ensures |buf| == |data| + 8 && buf[..|data|] == data
    ensures FromLE(buf[|data|..]) == nonce
  {
    FromLEToLE(nonce, 8);
    assert (data + ToLE(nonce, 8))[|data|..] == ToLE(nonce, 8);
    data + ToLE(nonce, 8)
  }

  datatype Hashcash = Hashcash(targetZeroBits: u32) {

    /** The acceptance test that `verify` performs. */
    predicate Accepts(sha256: Sha256, data: seq<u8>, nonce: u64) {
      LeadingZeroBitCount(sha256(PowInput(data, nonce))) >= targetZeroBits
    }

    /** `verify`: hash the data and the nonce once and compare the leading
        zero bits with the target. */
    method Verify(sha256: Sha256, data: seq<u8>, nonce: u64) returns (ok: bool)
      ensures ok <==> LeadingZeroBitCount(sha256(data + ToLE(nonce, 8))) >= targetZeroBits
      ensures ok == Accepts(sha256, data, nonce)
    {
      var buf := data;
      buf := buf + ToLE(nonce, 8);
      var hash := sha256(buf);
      var zeros := LeadingZeroBits(hash);
      ok := zeros >= targetZeroBits;
    }

    /** `compute_nonce`: try 0, 1, 2, ... and return the first accepted nonce. */
    method ComputeNonce(sha256: Sha256, data: seq<u8>) returns (r: NonceSearch)
      ensures r.Found? ==> Accepts(sha256, data, r.nonce)
      ensures r.Found? ==> forall m: u64 :: m < r.nonce ==> !Accepts(sha256, data, m)
      ensures r.Exhausted? ==> forall m: u64 :: !Accepts(sha256, data, m)
      ensures targetZeroBits == 0 ==> r == Found(0)
      ensures targetZeroBits > 256 ==> r == Exhausted
    {
      var nonce: nat := 0;
      while nonce < NonceLimit
        invariant nonce <= NonceLimit
        invariant forall m: u64 :: m < nonce ==> !Accepts(sha256, data, m)
        invariant targetZeroBits == 0 ==> nonce == 0
        decreases NonceLimit - nonce
      {
        var buf := data;
        buf := buf + ToLE(nonce, 8);
        var hash := sha256(buf);
        var zeros := LeadingZeroBits(hash);
        if zeros >= targetZeroBits {
          if targetZeroBits > 256 {
            NoNonceBeyondDigestWidth(this, sha256, data, nonce);
            assert false;
          }
          return Found(nonce);
        }
        nonce := nonce + 1;
      }
      r := Exhausted;
    }
  }

  /** A nonce that meets a target meets every easier target. */
  lemma HarderTargetImpliesEasier(sha256: Sha256, data: seq<u8>, nonce: u64, t: u32)
    requires t < 0xFFFF_FFFF && Hashcash(t + 1).Accepts(sha256, data, nonce)
    ensures Hashcash(t).Accepts(sha256, data, nonce)
  {
  }

  /** A 32-byte digest has at most 256 leading zero bits, so a target above
      256 accepts no nonce at all and `compute_nonce` never returns. */
  lemma NoNonceBeyondDigestWidth(h: Hashcash, sha256: Sha256, data: seq<u8>, nonce: u64)
    requires h.targetZeroBits > 256
    ensures !h.Accepts(sha256, data, nonce)
  {
    var digest := sha256(PowInput(data, nonce));
    assert LeadingZeroBitCount(digest) <= 8 * |digest|;
  }

  /** Read as a number, an accepted digest is below 2^(256 - target): the
      usual statement of hashcash difficulty. */
  lemma AcceptsIffDigestBelowTarget(h: Hashcash, sha256: Sha256, data: seq<u8>, nonce: u64)
    requires h.targetZeroBits <= 256
    ensures h.Accepts(sha256, data, nonce) <==>
      BigEndianValue(sha256(PowInput(data, nonce))) < Pow2(256 - h.targetZeroBits)
  {
    LeadingZeroBitsThreshold(sha256(PowInput(data, nonce)), h.targetZeroBits);
  }
}
