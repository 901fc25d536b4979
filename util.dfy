/**
 * Byte helpers of `util.rs`: counting the leading zero bits of a byte
 * string (the proof-of-work difficulty measure) and lowercase hex encoding.
 * SHA-256, the third helper there, is the uninterpreted `Crypto.Sha256`.
 */
module Util {
  import opened Bytes

  function Pow2(n: nat): (r: nat)
    ensures r >= 1
  {
    if n == 0 then 1 else 2 * Pow2(n - 1)
  }

  lemma {:induction false} Pow2Add(a: nat, b: nat)
    ensures Pow2(a + b) == Pow2(a) * Pow2(b)
  {
    if a > 0 {
      Pow2Add(a - 1, b);
    }
  }

  lemma Pow2Monotone(a: nat, b: nat)
    requires a <= b
    ensures Pow2(a) <= Pow2(b)
  {
    Pow2Add(a, b - a);
  }

  lemma Pow2UpTo8()
    ensures Pow2(0) == 1 && Pow2(1) == 2 && Pow2(2) == 4 && Pow2(3) == 8 && Pow2(4) == 16
    ensures Pow2(5) == 32 && Pow2(6) == 64 && Pow2(7) == 128 && Pow2(8) == 256
  {
  }

  lemma MulMonotone(a: nat, b: nat, c: nat)
    requires a <= b
    ensures a * c <= b * c
  {
  }

  /** Leading zero bits of one byte (`u8::leading_zeros`): the number of
      high-order bits that are clear before the first set bit. */
  function Clz8(x: u8): (n: nat)
    ensures n <= 8
    ensures n == 8 <==> x == 0
    ensures x != 0 ==> Pow2(7 - n) <= x < Pow2(8 - n)
  {
    Pow2UpTo8();
    if x >= 128 then 0
    else if x >= 64 then 1
    else if x >= 32 then 2
    else if x >= 16 then 3
    else if x >= 8 then 4
    else if x >= 4 then 5
    else if x >= 2 then 6
    else if x >= 1 then 7
    else 8
  }

  /** Specification of `leading_zero_bits`: 8 for every leading zero byte,
      then the leading zeros of the first non-zero byte. */
  function LeadingZeroBitCount(bytes: seq<u8>): (n: nat)
    ensures n <= 8 * |bytes|
  {
    if bytes == [] then 0
    else if bytes[0] == 0 then 8 + LeadingZeroBitCount(bytes[1..])
    else Clz8(bytes[0])
  }

  /** `leading_zero_bits`: scan the bytes, adding 8 per zero byte and
      stopping at the first non-zero one. */
  method LeadingZeroBits(bytes: seq<u8>) returns (count: nat)
    ensures count == LeadingZeroBitCount(bytes)
  {
    count := 0;
    for i := 0 to |bytes|
      invariant count == 8 * i
      invariant forall j :: 0 <= j < i ==> bytes[j] == 0
      invariant LeadingZeroBitCount(bytes) == count + LeadingZeroBitCount(bytes[i..])
    {
      assert bytes[i..][1..] == bytes[i + 1..];
      if bytes[i] == 0 {
        count := count + 8;
      } else {
        count := count + Clz8(bytes[i]);
        break;
      }
    }
  }

  /** Big-endian value of a byte string: the number a digest stands for. */
  function BigEndianValue(bytes: seq<u8>): nat
  {
    if bytes == [] then 0 else bytes[0] * Pow2(8 * (|bytes| - 1)) + BigEndianValue(bytes[1..])
  }

  lemma {:induction false} BigEndianValueBound(bytes: seq<u8>)
    ensures BigEndianValue(bytes) < Pow2(8 * |bytes|)
  {
    if bytes != [] {
      var low := 8 * (|bytes| - 1);
      var p := Pow2(low);
      BigEndianValueBound(bytes[1..]);
      assert BigEndianValue(bytes) < bytes[0] * p + p;
      assert bytes[0] * p + p == (bytes[0] as nat + 1) * p;
      MulMonotone(bytes[0] as nat + 1, 256, p);
      Pow2UpTo8();
      Pow2Add(8, low);
    }
  }

  lemma {:induction false} AllZeroBytes(bytes: seq<u8>)
    requires forall i :: 0 <= i < |bytes| ==> bytes[i] == 0
    ensures LeadingZeroBitCount(bytes) == 8 * |bytes|
  {
    if bytes != [] {
      AllZeroBytes(bytes[1..]);
    }
  }

  /** Only zero bytes reach the maximum count. */
  lemma {:induction false} FullCountMeansAllZero(bytes: seq<u8>, i: nat)
    requires LeadingZeroBitCount(bytes) == 8 * |bytes|
    requires i < |bytes|
    ensures bytes[i] == 0
  {
    if i > 0 {
      FullCountMeansAllZero(bytes[1..], i - 1);
    }
  }

  /** With the first non-zero byte at index k, the count is 8k plus that byte's
      leading zeros, whatever follows it. */
  lemma {:induction false} LeadingZeroBitsAtFirstNonZero(bytes: seq<u8>, k: nat)
    requires k < |bytes| && bytes[k] != 0
    requires forall j :: 0 <= j < k ==> bytes[j] == 0
    ensures LeadingZeroBitCount(bytes) == 8 * k + Clz8(bytes[k])
    ensures Clz8(bytes[k]) < 8
  {
    if k > 0 {
      LeadingZeroBitsAtFirstNonZero(bytes[1..], k - 1);
    }
  }

  /** Bytes after a non-zero byte never change the count (the early `break`). */
  lemma {:induction false} LeadingZeroBitsIgnoreTail(bytes: seq<u8>, tail: seq<u8>, k: nat)
    requires k < |bytes| && bytes[k] != 0
    ensures LeadingZeroBitCount(bytes + tail) == LeadingZeroBitCount(bytes)
  {
    if bytes[0] != 0 {
    } else {
      assert (bytes + tail)[1..] == bytes[1..] + tail;
      LeadingZeroBitsIgnoreTail(bytes[1..], tail, k - 1);
    }
  }

  /** A non-zero leading byte fixes the position of the highest set bit. */
  lemma HighestBitInHead(head: u8, rest: nat, low: nat)
    requires head != 0 && rest < Pow2(low)
    ensures Pow2(7 - Clz8(head) + low) <= head * Pow2(low) + rest < Pow2(8 - Clz8(head) + low)
  {
    var n, p := Clz8(head), Pow2(low);
    Pow2Add(7 - n, low);
    Pow2Add(8 - n, low);
    MulMonotone(Pow2(7 - n), head, p);
    MulMonotone(head as nat + 1, Pow2(8 - n), p);
    assert (head as nat + 1) * p == head * p + p;
  }

  /** The count is the position of the highest set bit of the big-endian
      value: a string with z leading zero bits and w = 8|bytes| bits in all
      has a value in [2^(w-z-1), 2^(w-z)), and value 0 when z == w. */
  lemma {:induction false} LeadingZeroBitsMagnitude(bytes: seq<u8>)
    ensures LeadingZeroBitCount(bytes) == 8 * |bytes| ==> BigEndianValue(bytes) == 0
    ensures LeadingZeroBitCount(bytes) < 8 * |bytes| ==>
      Pow2(8 * |bytes| - LeadingZeroBitCount(bytes) - 1) <= BigEndianValue(bytes)
      < Pow2(8 * |bytes| - LeadingZeroBitCount(bytes))
  {
    if bytes != [] {
      var rest := bytes[1..];
      var low := 8 * |rest|;
      assert BigEndianValue(bytes) == bytes[0] * Pow2(low) + BigEndianValue(rest);
      if bytes[0] == 0 {
        assert bytes[0] * Pow2(low) == 0;
        LeadingZeroBitsMagnitude(rest);
      } else {
        BigEndianValueBound(rest);
        HighestBitInHead(bytes[0], BigEndianValue(rest), low);
        assert LeadingZeroBitCount(bytes) == Clz8(bytes[0]);
      }
    }
  }

  /** At least t leading zero bits means a value below 2^(w - t). */
  lemma LeadingZeroBitsThreshold(bytes: seq<u8>, t: nat)
    requires t <= 8 * |bytes|
    ensures LeadingZeroBitCount(bytes) >= t <==> BigEndianValue(bytes) < Pow2(8 * |bytes| - t)
  {
    var z, w := LeadingZeroBitCount(bytes), 8 * |bytes|;
    LeadingZeroBitsMagnitude(bytes);
    if z >= t {
      if z < w { Pow2Monotone(w - z, w - t); }
    } else {
      Pow2Monotone(w - t, w - z - 1);
    }
  }

  /** One lowercase hexadecimal digit. */
  function HexDigit(nibble: nat): (c: char)
    requires nibble < 16
    ensures c in "0123456789abcdef"
  {
    if nibble < 10 then (48 + nibble) as char else (87 + nibble) as char
  }

  lemma HexDigitInjective(a: nat, b: nat)
    requires a < 16 && b < 16 && HexDigit(a) == HexDigit(b)
    ensures a == b
  {
  }

  /** One byte as two lowercase hex digits, high nibble first. */
  function HexByte(b: u8): (s: string)
    ensures |s| == 2
  {
    [HexDigit(b / 16), HexDigit(b % 16)]
  }

  /** `to_hex`: every byte as two lowercase hex digits, in order. */
  function ToHex(bytes: seq<u8>): (s: string)
    ensures |s| == 2 * |bytes|
  {
    if bytes == [] then "" else HexByte(bytes[0]) + ToHex(bytes[1..])
  }

  lemma HexByteInjective(a: u8, b: u8)
    requires HexByte(a) == HexByte(b)
    ensures a == b
  {
    HexDigitInjective(a / 16, b / 16);
    HexDigitInjective(a % 16, b % 16);
  }

  lemma {:induction false} ToHexAppend(a: seq<u8>, b: seq<u8>)
    ensures ToHex(a + b) == ToHex(a) + ToHex(b)
  {
    if a == [] {
      assert a + b == b;
    } else {
      assert (a + b)[1..] == a[1..] + b;
      ToHexAppend(a[1..], b);
    }
  }

  /** Byte i becomes characters 2i and 2i+1. */
  lemma {:induction false} ToHexAt(bytes: seq<u8>, i: nat)
    requires i < |bytes|
    ensures ToHex(bytes)[2 * i..2 * i + 2] == HexByte(bytes[i])
  {
    var head, rest := HexByte(bytes[0]), ToHex(bytes[1..]);
    assert ToHex(bytes) == head + rest;
    if i == 0 {
      assert (head + rest)[..2] == head;
    } else {
      ToHexAt(bytes[1..], i - 1);
      SliceShift(head, rest, 2 * (i - 1), 2);
      assert bytes[1..][i - 1] == bytes[i];
    }
  }

  /** Slicing past a prefix a of a + b slices b. */
  lemma SliceShift<T>(a: seq<T>, b: seq<T>, j: nat, k: nat)
    requires j + k <= |b|
    ensures (a + b)[|a| + j..|a| + j + k] == b[j..j + k]
  {
  }

  /** Distinct byte strings have distinct hex encodings. */
  lemma ToHexInjective(a: seq<u8>, b: seq<u8>)
    requires ToHex(a) == ToHex(b)
    ensures a == b
  {
    assert |a| == |b|;
    forall i | 0 <= i < |a|
      ensures a[i] == b[i]
    {
      ToHexAt(a, i);
      ToHexAt(b, i);
      HexByteInjective(a[i], b[i]);
    }
  }
}
