/** Fixed-width unsigned integers and their little-endian byte encoding,
    as used by Go's encoding/binary.LittleEndian in the page store. */
module Bytes {

  type byte = x: int | 0 <= x < 0x100
  type u16 = x: int | 0 <= x < 0x1_0000
  type u32 = x: int | 0 <= x < 0x1_0000_0000
  type u64 = x: int | 0 <= x < 0x1_0000_0000_0000_0000

  const MaxU64: int := 0xFFFF_FFFF_FFFF_FFFF

  /** 256 to the power n: one more than the largest value n bytes can hold. */
  function Pow256(n: nat): (r: nat)
    ensures r >= 1
  {
    if n == 0 then 1 else 256 * Pow256(n - 1)
  }

  /** The low n bytes of x, least significant first (PutUint16/32/64 for n = 2, 4, 8). */
  function LE(x: nat, n: nat): (s: seq<byte>)
    ensures |s| == n
  {
    if n == 0 then [] else [x % 256] + LE(x / 256, n - 1)
  }

  /** The number whose little-endian encoding is s (Uint16/32/64 for |s| = 2, 4, 8). */
  function FromLE(s: seq<byte>): (x: nat)
    ensures x < Pow256(|s|)
  {
    if s == [] then 0 else s[0] + 256 * FromLE(s[1..])
  }

  /** Decoding an encoding gives the number back, for every number that fits. */
  lemma {:induction false} FromLEOfLE(x: nat, n: nat)
    requires x < Pow256(n)
    ensures FromLE(LE(x, n)) == x
  {
    if n > 0 {
      assert x / 256 < Pow256(n - 1);
      FromLEOfLE(x / 256, n - 1);
      assert LE(x, n)[1..] == LE(x / 256, n - 1);
    }
  }

  /** Encoding a decoded byte string gives the same bytes back. */
  lemma {:induction false} LEOfFromLE(s: seq<byte>)
    ensures LE(FromLE(s), |s|) == s
  {
    if s != [] {
      var x := FromLE(s);
      assert x % 256 == s[0] && x / 256 == FromLE(s[1..]);
      LEOfFromLE(s[1..]);
    }
  }

  /** The two bytes of a 16-bit value, spelled out. */
  lemma LE2(x: u16)
    ensures LE(x, 2) == [x % 256, x / 256]
  {
    assert LE(x / 256, 1) == [(x / 256) % 256] + LE(x / 65536, 0);
  }

  /** The 64-bit increment of Go's `x++` on a uint64: wraps to 0 at the top. */
  function Inc64(x: u64): u64
  {
    if x == MaxU64 then 0 else x + 1
  }
}
