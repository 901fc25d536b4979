/**
 * The stealth envelope (`envelope.rs`): the plaintext Payload and its
 * length-prefixed little-endian encoding, the on-wire Envelope and its
 * encoding, and building and opening an envelope over the uninterpreted
 * primitives of `Crypto`.
 *
 * Both `from_bytes` parsers of the source slice past the end of the input
 * on some short or inconsistent inputs, which panics.  `PayloadFromBytesAsWritten`
 * and `EnvelopeFromBytesAsWritten` model the code as written, with every
 * slice bound checked explicitly; `DecodePayload` / `DecodeEnvelope` add the
 * missing guards and are the parsers the rest of the model uses.
 */
module Envelopes {
  import opened Bytes
  import opened Wrappers
  import opened Crypto
  import opened Pow

  /** Payload bytes besides the two variable fields: msg_id 16, sender_fp 4,
      and two 4-byte length prefixes. */
  const PayloadOverhead: nat := 16 + 4 + 4 + 4

  /** Envelope bytes besides tag and ciphertext: ver 1, ts 8, ttl 4, epk 32,
      tag length 4, pow_nonce 8, nonce 24, ciphertext length 4, mac 16. */
  const EnvelopeOverhead: nat := 1 + 8 + 4 + 32 + 4 + 8 + 24 + 4 + 16

  /** Outcome of a parser that may panic: a value, `None`, or a slice out of range. */
  datatype Read<+T> = Value(value: T) | Reject | OutOfBounds {
    predicate IsFailure() {
      !Value?
    }

    function PropagateFailure<U>(): Read<U>
      requires IsFailure()
    {
      if Reject? then Reject else OutOfBounds
    }

    function Extract(): T
      requires Value?
    {
      value
    }
  }

  /** Rust's `data[from..to]`: the bytes, or a panic when the range is not inside `data`. */
  function Slice(data: seq<u8>, from: nat, to: nat): (r: Read<seq<u8>>)
    ensures r.Value? <==> from <= to <= |data|
    ensures r.Value? ==> r.value == data[from..to]
    ensures !r.Value? ==> r.OutOfBounds?
  {
    if from <= to <= |data| then Value(data[from..to]) else OutOfBounds
  }

  // ---------------------------------------------------------------- Payload

  datatype Payload = Payload(msgId: u128, senderFp: u32, ratchetHeader: seq<u8>, body: seq<u8>) {

    /** `Payload::to_bytes`: append the fields in order; lengths are cast to `u32`. */
    method ToBytes() returns (out: seq<u8>)
      ensures out == PayloadBytes(this)
      ensures |out| == PayloadOverhead + |ratchetHeader| + |body|
    {
      out := [];
      out := out + ToLE(msgId, 16);
      out := out + ToLE(senderFp, 4);
      out := out + ToLE(|ratchetHeader| % LengthLimit, 4);
      out := out + ratchetHeader;
      out := out + ToLE(|body| % LengthLimit, 4);
      out := out + body;
    }

    /** `Payload::from_bytes` with a cursor, with the guard on the header
        length prefix corrected (see `PayloadFromBytesAsWritten`). */
    static method FromBytes(data: seq<u8>) returns (r: Option<Payload>)
      ensures r == DecodePayload(data)
    {
      if |data| < 16 + 4 + 4 {
        return None;
      }
      var msgId := U128From(data[0..16]);
      var senderFp := U32From(data[16..20]);
      var cursor := 20;
      var rhLen := U32From(data[cursor..cursor + 4]);
      cursor := cursor + 4;
      if cursor + rhLen > |data| {
        return None;
      }
      var ratchetHeader := data[cursor..cursor + rhLen];
      cursor := cursor + rhLen;
      if cursor + 4 > |data| {
        return None;
      }
      var bodyLen := U32From(data[cursor..cursor + 4]);
      cursor := cursor + 4;
      if cursor + bodyLen > |data| {
        return None;
      }
      var body := data[cursor..cursor + bodyLen];
      return Some(Payload(msgId, senderFp, ratchetHeader, body));
    }
  }

  /** The wire image of a payload. */
  function PayloadBytes(p: Payload): seq<u8> {
    ToLE(p.msgId, 16) + ToLE(p.senderFp, 4)
    + ToLE(|p.ratchetHeader| % LengthLimit, 4) + p.ratchetHeader
    + ToLE(|p.body| % LengthLimit, 4) + p.body
  }

  /** Parse a payload from the front of `data`; trailing bytes are ignored.
      `None` when fewer than 24 bytes are present or a length prefix runs
      past the end. */
  function DecodePayload(data: seq<u8>): Option<Payload> {
    if |data| < 24 then None
    else
      var h := U32From(data[20..24]);
      if 24 + h > |data| || 28 + h > |data| then None
      else
        var n := U32From(data[24 + h..28 + h]);
        if 28 + h + n > |data| then None
        else Some(PayloadAt(data, h, n))
  }

  /** The payload whose header and body have lengths h and n. */
  function PayloadAt(data: seq<u8>, h: nat, n: nat): Payload
    requires 28 + h + n <= |data|
  {
    Payload(U128From(data[..16]), U32From(data[16..20]), data[24..24 + h], data[28 + h..28 + h + n])
  }

  /** `Payload::from_bytes` exactly as written: it rejects fewer than 20 bytes
      but then reads the header length from bytes 20..24. */
  function PayloadFromBytesAsWritten(data: seq<u8>): Read<Payload> {
    if |data| < 16 + 4 then Reject
    else
      var msgId :- Slice(data, 0, 16);
      var senderFp :- Slice(data, 16, 20);
      var rhLenBytes :- Slice(data, 20, 24);
      var rhLen := U32From(rhLenBytes);
      if 24 + rhLen > |data| then Reject
      else
        var ratchetHeader :- Slice(data, 24, 24 + rhLen);
        if 24 + rhLen + 4 > |data| then Reject
        else
          var bodyLenBytes :- Slice(data, 24 + rhLen, 28 + rhLen);
          var bodyLen := U32From(bodyLenBytes);
          if 28 + rhLen + bodyLen > |data| then Reject
          else
            var body :- Slice(data, 28 + rhLen, 28 + rhLen + bodyLen);
            Value(Payload(U128From(msgId), U32From(senderFp), ratchetHeader, body))
  }

  /** Field offsets of the payload encoding. */
  lemma PayloadLayout(p: Payload)
    ensures var b, h, n := PayloadBytes(p), |p.ratchetHeader|, |p.body|;
      |b| == PayloadOverhead + h + n
      && b[..16] == ToLE(p.msgId, 16)
      && b[16..20] == ToLE(p.senderFp, 4)
      && b[20..24] == ToLE(h % LengthLimit, 4)
      && b[24..24 + h] == p.ratchetHeader
      && b[24 + h..28 + h] == ToLE(n % LengthLimit, 4)
      && b[28 + h..] == p.body
  {
    PayloadFixedLayout(p);
    PayloadTailLayout(p);
  }

  lemma PayloadFixedLayout(p: Payload)
    ensures var b := PayloadBytes(p);
      |b| == PayloadOverhead + |p.ratchetHeader| + |p.body|
      && b[..16] == ToLE(p.msgId, 16)
      && b[16..20] == ToLE(p.senderFp, 4)
      && b[20..24] == ToLE(|p.ratchetHeader| % LengthLimit, 4)
  {
  }

  lemma PayloadTailLayout(p: Payload)
    ensures var b, h := PayloadBytes(p), |p.ratchetHeader|;
      |b| == PayloadOverhead + h + |p.body|
      && b[24..24 + h] == p.ratchetHeader
      && b[24 + h..28 + h] == ToLE(|p.body| % LengthLimit, 4)
      && b[28 + h..] == p.body
  {
  }

  /** Two sequences that agree on their first m elements agree on every slice within them. */
  lemma SharedPrefixSlice(x: seq<u8>, y: seq<u8>, m: nat, i: nat, j: nat)
    requires m <= |x| && m <= |y| && x[..m] == y[..m] && i <= j <= m
    ensures x[i..j] == y[i..j]
  {
    assert x[i..j] == x[..m][i..j] && y[i..j] == y[..m][i..j];
  }

  /** A little-endian field that `data` shares with `b` decodes to the value `b` encodes there. */
  lemma SharedU32(data: seq<u8>, b: seq<u8>, m: nat, i: nat, x: u32)
    requires m <= |data| && m <= |b| && data[..m] == b[..m] && i + 4 <= m
    requires b[i..i + 4] == ToLE(x, 4)
    ensures U32From(data[i..i + 4]) == x
  {
    SharedPrefixSlice(data, b, m, i, i + 4);
    U32RoundTrip(x);
  }

  lemma SharedU128(data: seq<u8>, b: seq<u8>, m: nat, x: u128)
    requires m <= |data| && m <= |b| && data[..m] == b[..m] && 16 <= m
    requires b[..16] == ToLE(x, 16)
    ensures U128From(data[..16]) == x
  {
    assert data[..16] == data[..m][..16] && b[..16] == b[..m][..16];
    U128RoundTrip(x);
  }

  lemma SharedU64(data: seq<u8>, b: seq<u8>, m: nat, i: nat, x: u64)
    requires m <= |data| && m <= |b| && data[..m] == b[..m] && i + 8 <= m
    requires b[i..i + 8] == ToLE(x, 8)
    ensures U64From(data[i..i + 8]) == x
  {
    SharedPrefixSlice(data, b, m, i, i + 8);
    U64RoundTrip(x);
  }

  /** Input that agrees with an encoded payload on its first m bytes carries
      that payload's fields wherever they lie within those m bytes. */
  lemma PayloadPrefixFields(p: Payload, data: seq<u8>, m: nat)
    requires |p.ratchetHeader| < LengthLimit && |p.body| < LengthLimit
    requires m <= |PayloadBytes(p)| && m <= |data| && data[..m] == PayloadBytes(p)[..m]
    ensures 24 <= m ==> U128From(data[..16]) == p.msgId && U32From(data[16..20]) == p.senderFp
    ensures 24 <= m ==> U32From(data[20..24]) == |p.ratchetHeader|
    ensures 28 + |p.ratchetHeader| <= m ==>
      data[24..24 + |p.ratchetHeader|] == p.ratchetHeader &&
      U32From(data[24 + |p.ratchetHeader|..28 + |p.ratchetHeader|]) == |p.body|
  {
    if 24 <= m {
      PayloadFixedFields(p, data, m);
    }
    if 28 + |p.ratchetHeader| <= m {
      PayloadHeaderFields(p, data, m);
    }
  }

  lemma PayloadFixedFields(p: Payload, data: seq<u8>, m: nat)
    requires |p.ratchetHeader| < LengthLimit
    requires 24 <= m <= |PayloadBytes(p)| && m <= |data| && data[..m] == PayloadBytes(p)[..m]
    ensures U128From(data[..16]) == p.msgId && U32From(data[16..20]) == p.senderFp
    ensures U32From(data[20..24]) == |p.ratchetHeader|
  {
    PayloadFixedLayout(p);
    PayloadFixedFieldsOf(p, PayloadBytes(p), data, m);
  }

  lemma PayloadFixedFieldsOf(p: Payload, b: seq<u8>, data: seq<u8>, m: nat)
    requires |p.ratchetHeader| < LengthLimit
    requires 24 <= m <= |b| && m <= |data| && data[..m] == b[..m]
    requires b[..16] == ToLE(p.msgId, 16) && b[16..20] == ToLE(p.senderFp, 4)
    requires b[20..24] == ToLE(|p.ratchetHeader| % LengthLimit, 4)
    ensures U128From(data[..16]) == p.msgId && U32From(data[16..20]) == p.senderFp
    ensures U32From(data[20..24]) == |p.ratchetHeader|
  {
    SharedU128(data, b, m, p.msgId);
    SharedU32(data, b, m, 16, p.senderFp);
    LengthFits(|p.ratchetHeader|);
    SharedU32(data, b, m, 20, |p.ratchetHeader| % LengthLimit);
  }

  lemma PayloadHeaderFields(p: Payload, data: seq<u8>, m: nat)
    requires |p.body| < LengthLimit
    requires 28 + |p.ratchetHeader| <= m <= |PayloadBytes(p)| && m <= |data| && data[..m] == PayloadBytes(p)[..m]
    ensures data[24..24 + |p.ratchetHeader|] == p.ratchetHeader
    ensures U32From(data[24 + |p.ratchetHeader|..28 + |p.ratchetHeader|]) == |p.body|
  {
    PayloadTailLayout(p);
    PayloadHeaderFieldsOf(p, PayloadBytes(p), data, m);
  }

  lemma PayloadHeaderFieldsOf(p: Payload, b: seq<u8>, data: seq<u8>, m: nat)
    requires |p.body| < LengthLimit
    requires 28 + |p.ratchetHeader| <= m <= |b| && m <= |data| && data[..m] == b[..m]
    requires b[24..24 + |p.ratchetHeader|] == p.ratchetHeader
    requires b[24 + |p.ratchetHeader|..28 + |p.ratchetHeader|] == ToLE(|p.body| % LengthLimit, 4)
    ensures data[24..24 + |p.ratchetHeader|] == p.ratchetHeader
    ensures U32From(data[24 + |p.ratchetHeader|..28 + |p.ratchetHeader|]) == |p.body|
  {
    SharedPrefixSlice(data, b, m, 24, 24 + |p.ratchetHeader|);
    LengthFits(|p.body|);
    SharedU32(data, b, m, 24 + |p.ratchetHeader|, |p.body| % LengthLimit);
  }

  /** Decoding an encoded payload, whatever follows it, gives it back. */
  lemma PayloadRoundTrip(p: Payload, extra: seq<u8>)
    requires |p.ratchetHeader| < LengthLimit && |p.body| < LengthLimit
    ensures DecodePayload(PayloadBytes(p) + extra) == Some(p)
  {
    var b := PayloadBytes(p);
    var data := b + extra;
    var h, n := |p.ratchetHeader|, |p.body|;
    PayloadLayout(p);
    assert data[..|b|] == b;
    PayloadPrefixFields(p, data, |b|);
    assert data[28 + h..28 + h + n] == p.body by {
      assert data[28 + h..28 + h + n] == b[28 + h..];
    }
  }

  /** A decoded payload re-encodes to exactly the bytes it was read from. */
  lemma PayloadDecodeEncode(data: seq<u8>, p: Payload)
    requires DecodePayload(data) == Some(p)
    ensures |p.ratchetHeader| < LengthLimit && |p.body| < LengthLimit
    ensures PayloadBytes(p) <= data
  {
    var h := U32From(data[20..24]);
    var n := U32From(data[24 + h..28 + h]);
    assert p == PayloadAt(data, h, n);
    PayloadAtReencodes(data, h, n);
  }

  lemma PayloadAtReencodes(data: seq<u8>, h: u32, n: u32)
    requires 28 + h + n <= |data|
    requires h == U32From(data[20..24]) && n == U32From(data[24 + h..28 + h])
    ensures PayloadBytes(PayloadAt(data, h, n)) == data[..28 + h + n]
  {
    var p := PayloadAt(data, h, n);
    U128Reencodes(data[..16]);
    U32Reencodes(data[16..20]);
    U32Reencodes(data[20..24]);
    U32Reencodes(data[24 + h..28 + h]);
    assert |p.ratchetHeader| == h && |p.body| == n;
    PrefixExtend4(data, ToLE(p.msgId, 16), ToLE(p.senderFp, 4), ToLE(h % LengthLimit, 4),
      p.ratchetHeader, ToLE(n % LengthLimit, 4), 16, 20, 24, 24 + h, 28 + h);
    PrefixExtend(data, PayloadBytes(p)[..28 + h], p.body, 28 + h, 28 + h + n);
  }

  /** Every proper prefix of an encoded payload is rejected. */
  lemma PayloadTruncationRejected(p: Payload, k: nat)
    requires |p.ratchetHeader| < LengthLimit && |p.body| < LengthLimit
    requires k < |PayloadBytes(p)|
    ensures DecodePayload(PayloadBytes(p)[..k]) == None
  {
    PayloadLayout(p);
    PayloadPrefixFields(p, PayloadBytes(p)[..k], k);
  }

  /** As written, `Payload::from_bytes` panics exactly on inputs of 20 to 23
      bytes, and otherwise agrees with the corrected parser. */
  lemma PayloadAsWrittenDiffersOnlyByPanic(data: seq<u8>)
    ensures PayloadFromBytesAsWritten(data).OutOfBounds? <==> 20 <= |data| < 24
    ensures PayloadFromBytesAsWritten(data).Value? ==>
      DecodePayload(data) == Some(PayloadFromBytesAsWritten(data).value)
    ensures PayloadFromBytesAsWritten(data).Reject? ==> DecodePayload(data) == None
  {
  }

  /** Twenty zero bytes make the source slice bytes 20..24 of a 20-byte input. */
  lemma PayloadAsWrittenReadsPastEnd()
    ensures PayloadFromBytesAsWritten(seq(20, _ => 0)).OutOfBounds?
  {
    PayloadAsWrittenDiffersOnlyByPanic(seq(20, _ => 0));
  }

  // --------------------------------------------------------------- Envelope

  datatype Envelope = Envelope(
    ver: u8, ts: u64, ttl: u32, epk: Bytes32, tag: seq<u8>,
    powNonce: u64, nonce: Bytes24, ciphertext: seq<u8>, mac: Bytes16)
  {
    /** `Envelope::to_bytes`: append the fields in order; the two lengths are cast to `u32`. */
    method ToBytes() returns (out: seq<u8>)
      ensures out == EnvelopeBytes(this)
      ensures |out| == EnvelopeOverhead + |tag| + |ciphertext|
    {
      out := [];
      out := out + [ver];
      out := out + ToLE(ts, 8);
      out := out + ToLE(ttl, 4);
      out := out + epk;
      out := out + ToLE(|tag| % LengthLimit, 4);
      out := out + tag;
      out := out + ToLE(powNonce, 8);
      out := out + nonce;
      out := out + ToLE(|ciphertext| % LengthLimit, 4);
      out := out + ciphertext;
      out := out + mac;
    }

    /** `Envelope::from_bytes` with a cursor, with the guard after the tag
        corrected to cover the three fixed-size fields that follow it (see
        `EnvelopeFromBytesAsWritten`). */
    static method FromBytes(data: seq<u8>) returns (r: Option<Envelope>)
      ensures r == DecodeEnvelope(data)
    {
      if |data| < 1 + 8 + 4 + 32 + 4 + 8 + 24 + 4 + 16 {
        return None;
      }
      var cursor := 0;
      var ver := data[cursor];
      cursor := cursor + 1;
      var ts := U64From(data[cursor..cursor + 8]);
      cursor := cursor + 8;
      var ttl := U32From(data[cursor..cursor + 4]);
      cursor := cursor + 4;
      var epk: Bytes32 := data[cursor..cursor + 32];
      cursor := cursor + 32;
      var tagLen := U32From(data[cursor..cursor + 4]);
      cursor := cursor + 4;
      if cursor + tagLen > |data| || cursor + tagLen + 8 + 24 + 4 > |data| {
        return None;
      }
      var tag := data[cursor..cursor + tagLen];
      cursor := cursor + tagLen;
      var powNonce := U64From(data[cursor..cursor + 8]);
      cursor := cursor + 8;
      var nonce: Bytes24 := data[cursor..cursor + 24];
      cursor := cursor + 24;
      var cLen := U32From(data[cursor..cursor + 4]);
      cursor := cursor + 4;
      if cursor + cLen + 16 > |data| {
        return None;
      }
      var ciphertext := data[cursor..cursor + cLen];
      cursor := cursor + cLen;
      var mac: Bytes16 := data[cursor..cursor + 16];
      return Some(Envelope(ver, ts, ttl, epk, tag, powNonce, nonce, ciphertext, mac));
    }
  }

  /** The wire image of an envelope. */
  function EnvelopeBytes(e: Envelope): seq<u8> {
    [e.ver] + ToLE(e.ts, 8) + ToLE(e.ttl, 4) + e.epk
    + ToLE(|e.tag| % LengthLimit, 4) + e.tag
    + ToLE(e.powNonce, 8) + e.nonce
    + ToLE(|e.ciphertext| % LengthLimit, 4) + e.ciphertext + e.mac
  }

  /** Parse an envelope from the front of `data`; trailing bytes are ignored.
      `None` when fewer than 101 bytes are present or a length prefix runs
      past the end. */
  function DecodeEnvelope(data: seq<u8>): Option<Envelope> {
    if |data| < EnvelopeOverhead then None
    else
      var t := U32From(data[45..49]);
      if 49 + t > |data| || 85 + t > |data| then None
      else
        var c := U32From(data[81 + t..85 + t]);
        if 101 + t + c > |data| then None
        else Some(EnvelopeAt(data, t, c))
  }

  /** The envelope whose tag and ciphertext have lengths t and c. */
  function EnvelopeAt(data: seq<u8>, t: nat, c: nat): Envelope
    requires 101 + t + c <= |data|
  {
    Envelope(data[0], U64From(data[1..9]), U32From(data[9..13]), data[13..45],
      data[49..49 + t], U64From(data[49 + t..57 + t]), data[57 + t..81 + t],
      data[85 + t..85 + t + c], data[85 + t + c..101 + t + c])
  }

  /** `Envelope::from_bytes` exactly as written: after the tag it checks only
      that the tag fits, then reads pow_nonce, nonce and the ciphertext length
      from the 36 bytes that follow it without a check. */
  function EnvelopeFromBytesAsWritten(data: seq<u8>): Read<Envelope> {
    if |data| < 1 + 8 + 4 + 32 + 4 + 8 + 24 + 4 + 16 then Reject
    else
      var ts :- Slice(data, 1, 9);
      var ttl :- Slice(data, 9, 13);
      var epk :- Slice(data, 13, 45);
      var tagLenBytes :- Slice(data, 45, 49);
      var tagLen := U32From(tagLenBytes);
      if 49 + tagLen > |data| then Reject
      else
        var tag :- Slice(data, 49, 49 + tagLen);
        var powNonce :- Slice(data, 49 + tagLen, 57 + tagLen);
        var nonce :- Slice(data, 57 + tagLen, 81 + tagLen);
        var cLenBytes :- Slice(data, 81 + tagLen, 85 + tagLen);
        var cLen := U32From(cLenBytes);
        if 85 + tagLen + cLen + 16 > |data| then Reject
        else
          var ciphertext :- Slice(data, 85 + tagLen, 85 + tagLen + cLen);
          var mac :- Slice(data, 85 + tagLen + cLen, 101 + tagLen + cLen);
          Value(Envelope(data[0], U64From(ts), U32From(ttl), epk, tag,
            U64From(powNonce), nonce, ciphertext, mac))
  }

  /** Field offsets of the envelope encoding. */
  lemma EnvelopeLayout(e: Envelope)
    ensures var b, t, c := EnvelopeBytes(e), |e.tag|, |e.ciphertext|;
      |b| == EnvelopeOverhead + t + c
      && b[0] == e.ver
      && b[1..9] == ToLE(e.ts, 8)
      && b[9..13] == ToLE(e.ttl, 4)
      && b[13..45] == e.epk
      && b[45..49] == ToLE(t % LengthLimit, 4)
      && b[49..49 + t] == e.tag
      && b[49 + t..57 + t] == ToLE(e.powNonce, 8)
      && b[57 + t..81 + t] == e.nonce
      && b[81 + t..85 + t] == ToLE(c % LengthLimit, 4)
      && b[85 + t..85 + t + c] == e.ciphertext
      && b[85 + t + c..] == e.mac
  {
    EnvelopeFixedLayout(e);
    EnvelopeMiddleLayout(e);
    EnvelopeTailLayout(e);
  }

  lemma EnvelopeFixedLayout(e: Envelope)
    ensures var b := EnvelopeBytes(e);
      |b| == EnvelopeOverhead + |e.tag| + |e.ciphertext|
      && b[0] == e.ver
      && b[1..9] == ToLE(e.ts, 8)
      && b[9..13] == ToLE(e.ttl, 4)
      && b[13..45] == e.epk
      && b[45..49] == ToLE(|e.tag| % LengthLimit, 4)
  {
  }

  lemma EnvelopeMiddleLayout(e: Envelope)
    ensures var b, t := EnvelopeBytes(e), |e.tag|;
      |b| == EnvelopeOverhead + t + |e.ciphertext|
      && b[49..49 + t] == e.tag
      && b[49 + t..57 + t] == ToLE(e.powNonce, 8)
      && b[57 + t..81 + t] == e.nonce
      && b[81 + t..85 + t] == ToLE(|e.ciphertext| % LengthLimit, 4)
  {
  }

  lemma EnvelopeTailLayout(e: Envelope)
    ensures var b, t, c := EnvelopeBytes(e), |e.tag|, |e.ciphertext|;
      |b| == EnvelopeOverhead + t + c
      && b[85 + t..85 + t + c] == e.ciphertext
      && b[85 + t + c..] == e.mac
  {
  }

  /** Input agreeing with an encoded envelope on its first m >= 101 bytes
      carries its fixed header fields and its tag length. */
  lemma EnvelopeFixedFields(e: Envelope, data: seq<u8>, m: nat)
    requires |e.tag| < LengthLimit
    requires EnvelopeOverhead <= m <= |EnvelopeBytes(e)| && m <= |data| && data[..m] == EnvelopeBytes(e)[..m]
    ensures data[0] == e.ver && U64From(data[1..9]) == e.ts && U32From(data[9..13]) == e.ttl
    ensures data[13..45] == e.epk && U32From(data[45..49]) == |e.tag|
  {
    EnvelopeFixedLayout(e);
    EnvelopeFixedFieldsOf(e, EnvelopeBytes(e), data, m);
  }

  lemma EnvelopeFixedFieldsOf(e: Envelope, b: seq<u8>, data: seq<u8>, m: nat)
    requires |e.tag| < LengthLimit
    requires EnvelopeOverhead <= m <= |b| && m <= |data| && data[..m] == b[..m]
    requires b[0] == e.ver && b[1..9] == ToLE(e.ts, 8) && b[9..13] == ToLE(e.ttl, 4)
    requires b[13..45] == e.epk && b[45..49] == ToLE(|e.tag| % LengthLimit, 4)
    ensures data[0] == e.ver && U64From(data[1..9]) == e.ts && U32From(data[9..13]) == e.ttl
    ensures data[13..45] == e.epk && U32From(data[45..49]) == |e.tag|
  {
    assert data[0] == data[..m][0];
    SharedU64(data, b, m, 1, e.ts);
    SharedU32(data, b, m, 9, e.ttl);
    SharedPrefixSlice(data, b, m, 13, 45);
    LengthFits(|e.tag|);
    SharedU32(data, b, m, 45, |e.tag| % LengthLimit);
  }

  /** Input agreeing with an encoded envelope up to its ciphertext length
      carries its tag, PoW nonce, AEAD nonce and ciphertext length. */
  lemma EnvelopeMiddleFields(e: Envelope, data: seq<u8>, m: nat)
    requires |e.ciphertext| < LengthLimit
    requires 85 + |e.tag| <= m <= |EnvelopeBytes(e)| && m <= |data| && data[..m] == EnvelopeBytes(e)[..m]
    ensures data[49..49 + |e.tag|] == e.tag
    ensures U64From(data[49 + |e.tag|..57 + |e.tag|]) == e.powNonce
    ensures data[57 + |e.tag|..81 + |e.tag|] == e.nonce
    ensures U32From(data[81 + |e.tag|..85 + |e.tag|]) == |e.ciphertext|
  {
    EnvelopeMiddleLayout(e);
    EnvelopeMiddleFieldsOf(e, EnvelopeBytes(e), data, m);
  }

  lemma EnvelopeMiddleFieldsOf(e: Envelope, b: seq<u8>, data: seq<u8>, m: nat)
    requires |e.ciphertext| < LengthLimit
    requires 85 + |e.tag| <= m <= |b| && m <= |data| && data[..m] == b[..m]
    requires var t := |e.tag|;
      b[49..49 + t] == e.tag && b[49 + t..57 + t] == ToLE(e.powNonce, 8)
      && b[57 + t..81 + t] == e.nonce && b[81 + t..85 + t] == ToLE(|e.ciphertext| % LengthLimit, 4)
    ensures data[49..49 + |e.tag|] == e.tag
    ensures U64From(data[49 + |e.tag|..57 + |e.tag|]) == e.powNonce
    ensures data[57 + |e.tag|..81 + |e.tag|] == e.nonce
    ensures U32From(data[81 + |e.tag|..85 + |e.tag|]) == |e.ciphertext|
  {
    var t := |e.tag|;
    SharedPrefixSlice(data, b, m, 49, 49 + t);
    SharedU64(data, b, m, 49 + t, e.powNonce);
    SharedPrefixSlice(data, b, m, 57 + t, 81 + t);
    LengthFits(|e.ciphertext|);
    SharedU32(data, b, m, 81 + t, |e.ciphertext| % LengthLimit);
  }

  /** Decoding an encoded envelope, whatever follows it, gives it back. */
  lemma EnvelopeRoundTrip(e: Envelope, extra: seq<u8>)
    requires |e.tag| < LengthLimit && |e.ciphertext| < LengthLimit
    ensures DecodeEnvelope(EnvelopeBytes(e) + extra) == Some(e)
  {
    var b := EnvelopeBytes(e);
    var data := b + extra;
    var t, c := |e.tag|, |e.ciphertext|;
    assert data[..|b|] == b;
    EnvelopeFixedFields(e, data, |b|);
    EnvelopeMiddleFields(e, data, |b|);
    EnvelopeTailLayout(e);
    SharedPrefixSlice(data, b, |b|, 85 + t, 85 + t + c);
    SharedPrefixSlice(data, b, |b|, 85 + t + c, 101 + t + c);
    assert DecodeEnvelope(data) == Some(EnvelopeAt(data, t, c));
  }

  /** A decoded envelope re-encodes to exactly the bytes it was read from. */
  lemma EnvelopeDecodeEncode(data: seq<u8>, e: Envelope)
    requires DecodeEnvelope(data) == Some(e)
    ensures |e.tag| < LengthLimit && |e.ciphertext| < LengthLimit
    ensures EnvelopeBytes(e) <= data
  {
    var t := U32From(data[45..49]);
    var c := U32From(data[81 + t..85 + t]);
    assert e == EnvelopeAt(data, t, c);
    EnvelopeAtReencodes(data, t, c);
  }

  lemma EnvelopeAtReencodes(data: seq<u8>, t: u32, c: u32)
    requires 101 + t + c <= |data|
    requires t == U32From(data[45..49]) && c == U32From(data[81 + t..85 + t])
    ensures EnvelopeBytes(EnvelopeAt(data, t, c)) == data[..101 + t + c]
  {
    var e := EnvelopeAt(data, t, c);
    U64Reencodes(data[1..9]);
    U32Reencodes(data[9..13]);
    U32Reencodes(data[45..49]);
    U64Reencodes(data[49 + t..57 + t]);
    U32Reencodes(data[81 + t..85 + t]);
    var a0 := [e.ver] + ToLE(e.ts, 8) + ToLE(e.ttl, 4) + e.epk + ToLE(t % LengthLimit, 4);
    var a1 := a0 + e.tag + ToLE(e.powNonce, 8) + e.nonce + ToLE(c % LengthLimit, 4);
    assert [e.ver] == data[..1];
    PrefixExtend4(data, [e.ver], ToLE(e.ts, 8), ToLE(e.ttl, 4), e.epk, ToLE(t % LengthLimit, 4), 1, 9, 13, 45, 49);
    PrefixExtend4(data, a0, e.tag, ToLE(e.powNonce, 8), e.nonce, ToLE(c % LengthLimit, 4),
      49, 49 + t, 57 + t, 81 + t, 85 + t);
    PrefixExtend(data, a1, e.ciphertext, 85 + t, 85 + t + c);
    PrefixExtend(data, a1 + e.ciphertext, e.mac, 85 + t + c, 101 + t + c);
  }

  /** Every proper prefix of an encoded envelope is rejected. */
  lemma EnvelopeTruncationRejected(e: Envelope, k: nat)
    requires |e.tag| < LengthLimit && |e.ciphertext| < LengthLimit
    requires k < |EnvelopeBytes(e)|
    ensures DecodeEnvelope(EnvelopeBytes(e)[..k]) == None
  {
    var data := EnvelopeBytes(e)[..k];
    EnvelopeFixedLayout(e);
    if EnvelopeOverhead <= k {
      EnvelopeFixedFields(e, data, k);
      if 85 + |e.tag| <= k {
        EnvelopeMiddleFields(e, data, k);
      }
    }
  }

  /** As written, `Envelope::from_bytes` panics exactly when the input has at
      least 101 bytes and the tag fits but the 36 bytes after it do not, and
      otherwise agrees with the corrected parser. */
  lemma EnvelopeAsWrittenDiffersOnlyByPanic(data: seq<u8>)
    ensures EnvelopeFromBytesAsWritten(data).OutOfBounds? <==>
      EnvelopeOverhead <= |data| && 49 + U32From(data[45..49]) <= |data| < 85 + U32From(data[45..49])
    ensures EnvelopeFromBytesAsWritten(data).Value? ==>
      DecodeEnvelope(data) == Some(EnvelopeFromBytesAsWritten(data).value)
    ensures EnvelopeFromBytesAsWritten(data).Reject? ==> DecodeEnvelope(data) == None
  {
  }

  /** 101 bytes whose tag length is 52: the tag ends exactly at the end of the
      input and the source slices the PoW nonce from beyond it. */
  lemma EnvelopeAsWrittenReadsPastEnd()
    ensures var data := seq(101, i => if i == 45 then 52 else 0);
      EnvelopeFromBytesAsWritten(data).OutOfBounds? && DecodeEnvelope(data) == None
  {
    var data: seq<u8> := seq(101, i => if i == 45 then 52 else 0);
    assert data[45..49] == ToLE(52, 4);
    U32RoundTrip(52);
    EnvelopeAsWrittenDiffersOnlyByPanic(data);
  }

  // ------------------------------------------------ building and opening

  /** The HKDF `info` string "pc.enc|pc.tag" as bytes. */
  const HkdfInfo: seq<u8> := [0x70, 0x63, 0x2e, 0x65, 0x6e, 0x63, 0x7c, 0x70, 0x63, 0x2e, 0x74, 0x61, 0x67]

  /** `as u64` on a millisecond count keeps its low 64 bits. */
  function TruncateU64(n: nat): (r: u64)
    ensures n < NonceLimit ==> r == n
  {
    n % NonceLimit
  }

  /** The 64 bytes HKDF-SHA256 expands from the X25519 shared secret. */
  function KeyMaterial(c: Primitives, shared: Bytes32): Bytes64 {
    c.hkdfSha256(shared, HkdfInfo)
  }

  /** `enc_key = okm[..32]`. */
  function EncKey(okm: Bytes64): Bytes32 {
    okm[..32]
  }

  /** `tag_key = okm[32..64]`. */
  function TagKey(okm: Bytes64): Bytes32 {
    okm[32..]
  }

  /** The stealth tag: HMAC-SHA256 under the tag key over the 16 little-endian bytes of `msg_id`. */
  function StealthTag(c: Primitives, okm: Bytes64, msgId: u128): Bytes32 {
    c.hmacSha256(TagKey(okm), ToLE(msgId, 16))
  }

  /** The data the proof of work is computed over: version 1, zero
      placeholders for ts (8 bytes) and ttl (4 bytes), the ephemeral public
      key and the tag, with no tag length. */
  function PowHeader(epk: Bytes32, tag: seq<u8>): seq<u8> {
    [1] + ToLE(0, 8) + ToLE(0, 4) + epk + tag
  }

  /** The envelope `Envelope::new` builds for a payload, given its random
      inputs, the timestamp and the proof-of-work nonce. */
  function Assemble(c: Primitives, spendPublic: Bytes32, p: Payload, ttl: u32,
                    ephSecret: Bytes32, nonce: Bytes24, ts: u64, powNonce: u64): (e: Envelope)
    requires c.SealAppendsTag()
    ensures e.ciphertext + e.mac
      == c.seal(EncKey(KeyMaterial(c, c.diffieHellman(ephSecret, spendPublic))), nonce, PayloadBytes(p))
    ensures |e.ciphertext| == |PayloadBytes(p)| && |e.tag| == 32
  {
    var okm := KeyMaterial(c, c.diffieHellman(ephSecret, spendPublic));
    var sealed := c.seal(EncKey(okm), nonce, PayloadBytes(p));
    Envelope(1, ts, ttl, c.publicKey(ephSecret), StealthTag(c, okm, p.msgId), powNonce, nonce,
      sealed[..|sealed| - 16], sealed[|sealed| - 16..])
  }

  /** `Envelope::new`.  The ephemeral secret, the AEAD nonce (both drawn from
      `OsRng` in the source) and the wall-clock time in milliseconds are
      parameters.  `None` stands for the case where no 64-bit nonce meets the
      difficulty, in which the source's `compute_nonce` never returns. */
  method New(c: Primitives, spendPublic: Bytes32, msgId: u128, senderFp: u32,
             ratchetHeader: seq<u8>, body: seq<u8>, ttl: u32, powDifficulty: u32,
             ephSecret: Bytes32, nonce: Bytes24, nowMillis: nat) returns (r: Option<Envelope>)
    requires c.SealAppendsTag()
    ensures r.Some? ==> r.value.ver == 1 && r.value.ttl == ttl && r.value.ts == TruncateU64(nowMillis)
    ensures r.Some? ==> r.value.epk == c.publicKey(ephSecret) && r.value.nonce == nonce
    ensures r.Some? ==>
      var sealed := c.seal(EncKey(KeyMaterial(c, c.diffieHellman(ephSecret, spendPublic))), nonce,
        PayloadBytes(Payload(msgId, senderFp, ratchetHeader, body)));
      r.value.ciphertext + r.value.mac == sealed && r.value.mac == sealed[|sealed| - 16..]
    ensures r.Some? ==> r.value == Assemble(c, spendPublic, Payload(msgId, senderFp, ratchetHeader, body),
      ttl, ephSecret, nonce, TruncateU64(nowMillis), r.value.powNonce)
    ensures r.Some? ==> Hashcash(powDifficulty).Accepts(c.sha256, PowHeader(r.value.epk, r.value.tag), r.value.powNonce)
    ensures r.Some? ==> forall m: u64 :: m < r.value.powNonce ==>
      !Hashcash(powDifficulty).Accepts(c.sha256, PowHeader(r.value.epk, r.value.tag), m)
    ensures r.None? ==>
      var okm := KeyMaterial(c, c.diffieHellman(ephSecret, spendPublic));
      forall m: u64 :: !Hashcash(powDifficulty).Accepts(c.sha256, PowHeader(c.publicKey(ephSecret), StealthTag(c, okm, msgId)), m)
    ensures powDifficulty == 0 ==> r.Some? && r.value.powNonce == 0
  {
    var epk := c.publicKey(ephSecret);
    var shared := c.diffieHellman(ephSecret, spendPublic);
    var okm := KeyMaterial(c, shared);
    var tag := c.hmacSha256(TagKey(okm), ToLE(msgId, 16));
    var payload := Payload(msgId, senderFp, ratchetHeader, body);
    var payloadBytes := payload.ToBytes();
    var sealed := c.seal(EncKey(okm), nonce, payloadBytes);
    var ciphertext, mac := sealed[..|sealed| - 16], sealed[|sealed| - 16..];
    var header := [];
    header := header + [1];
    header := header + ToLE(0, 8);
    header := header + ToLE(0, 4);
    header := header + epk;
    header := header + tag;
    assert header == PowHeader(epk, tag);
    var search := Hashcash(powDifficulty).ComputeNonce(c.sha256, header);
    if search.Exhausted? {
      return None;
    }
    var ts := TruncateU64(nowMillis);
    var e := Envelope(1, ts, ttl, epk, tag, search.nonce, nonce, ciphertext, mac);
    assert e == Assemble(c, spendPublic, payload, ttl, ephSecret, nonce, ts, search.nonce);
    r := Some(e);
  }

  /** `Envelope::decrypt`: rebuild the encryption key from the spend secret
      and the envelope's ephemeral key, open ciphertext and mac together, and
      parse the plaintext as a payload. */
  function Decrypt(e: Envelope, c: Primitives, spendSecret: Bytes32): Option<Payload> {
    var okm := KeyMaterial(c, c.diffieHellman(spendSecret, e.epk));
    match c.open(EncKey(okm), e.nonce, e.ciphertext + e.mac)
    case None => None
    case Some(plaintext) => DecodePayload(plaintext)
  }

  /** `Envelope::verify_recipient`: recompute the stealth tag for `msgId`
      from the spend secret and compare it with the envelope's tag. */
  predicate VerifyRecipient(e: Envelope, c: Primitives, spendSecret: Bytes32, msgId: u128) {
    StealthTag(c, KeyMaterial(c, c.diffieHellman(spendSecret, e.epk)), msgId) == e.tag
  }

  /** The recipient holding the spend secret derives the sender's key material. */
  lemma RecipientSharesKeyMaterial(c: Primitives, spendSecret: Bytes32, ephSecret: Bytes32)
    requires c.DiffieHellmanCommutes()
    ensures KeyMaterial(c, c.diffieHellman(spendSecret, c.publicKey(ephSecret)))
         == KeyMaterial(c, c.diffieHellman(ephSecret, c.publicKey(spendSecret)))
  {
  }

  /** The holder of the spend secret decrypts an envelope built for its
      public key to the very payload that went in. */
  lemma DecryptInvertsNew(c: Primitives, spendSecret: Bytes32, p: Payload, ttl: u32,
                          ephSecret: Bytes32, nonce: Bytes24, ts: u64, powNonce: u64)
    requires c.SealAppendsTag() && c.OpenInvertsSeal() && c.DiffieHellmanCommutes()
    requires |p.ratchetHeader| < LengthLimit && |p.body| < LengthLimit
    ensures Decrypt(Assemble(c, c.publicKey(spendSecret), p, ttl, ephSecret, nonce, ts, powNonce), c, spendSecret) == Some(p)
  {
    var e := Assemble(c, c.publicKey(spendSecret), p, ttl, ephSecret, nonce, ts, powNonce);
    RecipientSharesKeyMaterial(c, spendSecret, ephSecret);
    var okm := KeyMaterial(c, c.diffieHellman(ephSecret, c.publicKey(spendSecret)));
    assert c.open(EncKey(okm), nonce, e.ciphertext + e.mac) == Some(PayloadBytes(p));
    PayloadRoundTrip(p, []);
    assert PayloadBytes(p) + [] == PayloadBytes(p);
  }

  /** The holder of the spend secret recognises an envelope built for its public key. */
  lemma VerifyRecipientAcceptsNew(c: Primitives, spendSecret: Bytes32, p: Payload, ttl: u32,
                                  ephSecret: Bytes32, nonce: Bytes24, ts: u64, powNonce: u64)
    requires c.SealAppendsTag() && c.DiffieHellmanCommutes()
    ensures VerifyRecipient(Assemble(c, c.publicKey(spendSecret), p, ttl, ephSecret, nonce, ts, powNonce), c, spendSecret, p.msgId)
  {
    RecipientSharesKeyMaterial(c, spendSecret, ephSecret);
  }

  /** Whatever `Decrypt` returns is authenticated: the AEAD accepted the
      ciphertext and mac, and the payload re-encodes to a prefix of the
      plaintext it unsealed to. */
  lemma DecryptedPayloadIsAuthentic(e: Envelope, c: Primitives, spendSecret: Bytes32, p: Payload)
    requires Decrypt(e, c, spendSecret) == Some(p)
    ensures var okm := KeyMaterial(c, c.diffieHellman(spendSecret, e.epk));
      var unsealed := c.open(EncKey(okm), e.nonce, e.ciphertext + e.mac);
      unsealed.Some? && PayloadBytes(p) <= unsealed.value
  {
    var okm := KeyMaterial(c, c.diffieHellman(spendSecret, e.epk));
    var unsealed := c.open(EncKey(okm), e.nonce, e.ciphertext + e.mac);
    PayloadDecodeEncode(unsealed.value, p);
  }

  /** An envelope built by `Envelope::new` is 101 + 32 + 28 bytes longer than
      the ratchet header and body it carries, survives the wire unchanged, and
      opens for the recipient. */
  lemma AssembledEnvelopeDelivers(c: Primitives, spendSecret: Bytes32, p: Payload, ttl: u32,
                                  ephSecret: Bytes32, nonce: Bytes24, ts: u64, powNonce: u64)
    requires c.SealAppendsTag() && c.OpenInvertsSeal() && c.DiffieHellmanCommutes()
    requires PayloadOverhead + |p.ratchetHeader| + |p.body| < LengthLimit
    ensures var e := Assemble(c, c.publicKey(spendSecret), p, ttl, ephSecret, nonce, ts, powNonce);
      |EnvelopeBytes(e)| == EnvelopeOverhead + 32 + PayloadOverhead + |p.ratchetHeader| + |p.body|
      && DecodeEnvelope(EnvelopeBytes(e)) == Some(e)
      && Decrypt(e, c, spendSecret) == Some(p)
      && VerifyRecipient(e, c, spendSecret, p.msgId)
  {
    var e := Assemble(c, c.publicKey(spendSecret), p, ttl, ephSecret, nonce, ts, powNonce);
    PayloadLayout(p);
    EnvelopeFixedLayout(e);
    EnvelopeRoundTrip(e, []);
    assert EnvelopeBytes(e) + [] == EnvelopeBytes(e);
    DecryptInvertsNew(c, spendSecret, p, ttl, ephSecret, nonce, ts, powNonce);
    VerifyRecipientAcceptsNew(c, spendSecret, p, ttl, ephSecret, nonce, ts, powNonce);
  }
}
