/**
 * Fixed-width unsigned integers and the little-endian byte encoding that
 * Rust's `to_le_bytes` / `from_le_bytes` give them.  Every multi-byte
 * integer on PhantomChat's wire is little-endian.
 */
module Bytes {

  type u8 = x: int | 0 <= x < 0x100
  type u32 = x: int | 0 <= x < 0x1_0000_0000
  type u64 = x: int | 0 <= x < 0x1_0000_0000_0000_0000
  type u128 = x: int | 0 <= x < 0x1_0000_0000_0000_0000_0000_0000_0000_0000

  /** Rust's `[u8; N]` arrays, which are plain values. */
  type Bytes16 = s: seq<u8> | |s| == 16 witness seq(16, _ => 0)
  type Bytes24 = s: seq<u8> | |s| == 24 witness seq(24, _ => 0)
  type Bytes32 = s: seq<u8> | |s| == 32 witness seq(32, _ => 0)
  type Bytes64 = s: seq<u8> | |s| == 64 witness seq(64, _ => 0)

  /** 2^32: the range of the `u32` length prefixes (`len() as u32`). */
  const LengthLimit: nat := 0x1_0000_0000

  function Pow256(n: nat): (r: nat)
    ensures r > 0
  {
    if n == 0 then 1 else 256 * Pow256(n - 1)
  }

  /** The `width` low-order bytes of `n`, least significant first
      (`(n as uW).to_le_bytes()`). */
  function ToLE(n: nat, width: nat): (r: seq<u8>)
    ensures |r| == width
  {
    if width == 0 then [] else [n % 256] + ToLE(n / 256, width - 1)
  }

  /** The number whose little-endian bytes are `s` (`uW::from_le_bytes`). */
  function FromLE(s: seq<u8>): (r: nat)
    ensures r < Pow256(|s|)
  {
    if s == [] then 0 else s[0] + 256 * FromLE(s[1..])
  }

  lemma {:induction false} FromLEToLE(n: nat, width: nat)
    requires n < Pow256(width)
    ensures FromLE(ToLE(n, width)) == n
  {
    if width > 0 {
      var rest := ToLE(n / 256, width - 1);
      assert ToLE(n, width)[1..] == rest;
      FromLEToLE(n / 256, width - 1);
    }
  }

  lemma {:induction false} ToLEFromLE(s: seq<u8>)
    ensures ToLE(FromLE(s), |s|) == s
  {
    if s != [] {
      var v := FromLE(s);
      assert v % 256 == s[0] && v / 256 == FromLE(s[1..]);
      ToLEFromLE(s[1..]);
    }
  }

  /** Equal encodings of in-range numbers are equal numbers. */
  lemma ToLEInjective(a: nat, b: nat, width: nat)
    requires a < Pow256(width) && b < Pow256(width)
    requires ToLE(a, width) == ToLE(b, width)
    ensures a == b
  {
    FromLEToLE(a, width);
    FromLEToLE(b, width);
  }

  lemma Pow256Of4()
    ensures Pow256(4) == 0x1_0000_0000
  {
  }

  lemma Pow256Of8()
    ensures Pow256(8) == 0x1_0000_0000_0000_0000
  {
    Pow256Of4();
    assert Pow256(8) == 256 * 256 * 256 * 256 * Pow256(4);
  }

  lemma Pow256Of16()
    ensures Pow256(16) == 0x1_0000_0000_0000_0000_0000_0000_0000_0000
  {
    Pow256Of8();
    assert Pow256(16) == 256 * 256 * 256 * 256 * 256 * 256 * 256 * 256 * Pow256(8);
  }

  /** `u32::from_le_bytes`, `u64::from_le_bytes`, `u128::from_le_bytes`. */
  function U32From(s: seq<u8>): u32
    requires |s| == 4
  {
    Pow256Of4();
    FromLE(s)
  }

  function U64From(s: seq<u8>): u64
    requires |s| == 8
  {
    Pow256Of8();
    FromLE(s)
  }

  function U128From(s: seq<u8>): u128
    requires |s| == 16
  {
    Pow256Of16();
    FromLE(s)
  }

  lemma U32RoundTrip(x: u32)
    ensures U32From(ToLE(x, 4)) == x
  {
    Pow256Of4();
    FromLEToLE(x, 4);
  }

  lemma U64RoundTrip(x: u64)
    ensures U64From(ToLE(x, 8)) == x
  {
    Pow256Of8();
    FromLEToLE(x, 8);
  }

  lemma U128RoundTrip(x: u128)
    ensures U128From(ToLE(x, 16)) == x
  {
    Pow256Of16();
    FromLEToLE(x, 16);
  }

  /** Four bytes read as a `u32` (and reduced mod 2^32, a no-op) encode back to themselves. */
  lemma U32Reencodes(s: seq<u8>)
    requires |s| == 4
    ensures U32From(s) % LengthLimit == U32From(s)
    ensures ToLE(U32From(s), 4) == s
  {
    ToLEFromLE(s);
  }

  lemma U64Reencodes(s: seq<u8>)
    requires |s| == 8
    ensures ToLE(U64From(s), 8) == s
  {
    ToLEFromLE(s);
  }

  lemma U128Reencodes(s: seq<u8>)
    requires |s| == 16
    ensures ToLE(U128From(s), 16) == s
  {
    ToLEFromLE(s);
  }

  /** A length below 2^32 survives the `as u32` cast. */
  lemma LengthFits(n: nat)
    requires n < LengthLimit
    ensures n % LengthLimit == n
  {
  }

  /** Extending a prefix of s by the slice that follows it gives a longer prefix. */
  lemma PrefixExtend(s: seq<u8>, a: seq<u8>, x: seq<u8>, i: nat, j: nat)
    requires i <= j <= |s| && a == s[..i] && x == s[i..j]
    ensures a + x == s[..j]
  {
    assert s[..i] + s[i..j] == s[..j];
  }

  /** Four adjacent slices appended to a prefix give a longer prefix. */
  lemma PrefixExtend4(s: seq<u8>, a: seq<u8>, x1: seq<u8>, x2: seq<u8>, x3: seq<u8>, x4: seq<u8>,
                      i: nat, j1: nat, j2: nat, j3: nat, j4: nat)
    requires i <= j1 <= j2 <= j3 <= j4 <= |s| && a == s[..i]
    requires x1 == s[i..j1] && x2 == s[j1..j2] && x3 == s[j2..j3] && x4 == s[j3..j4]
    ensures a + x1 + x2 + x3 + x4 == s[..j4]
  {
    PrefixExtend(s, a, x1, i, j1);
    PrefixExtend(s, a + x1, x2, j1, j2);
    PrefixExtend(s, a + x1 + x2, x3, j2, j3);
    PrefixExtend(s, a + x1 + x2 + x3, x4, j3, j4);
  }

  /** Adjacent slices join. */
  lemma SliceJoin(s: seq<u8>, i: nat, j: nat, k: nat)
    requires i <= j <= k <= |s|
    ensures s[i..j] + s[j..k] == s[i..k]
  {
  }
}
