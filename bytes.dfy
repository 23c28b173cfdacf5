/** The fixed-width integers of the wheel program and the little-endian
    codec of `u64` (`to_le_bytes` / `from_le_bytes`). */
module Bytes {

  const TWO_TO_64: nat := 0x1_0000_0000_0000_0000

  /** Rust `u8`. */
  type u8 = x: int | 0 <= x < 0x100

  /** Rust `u64`. */
  type u64 = x: int | 0 <= x < 0x1_0000_0000_0000_0000

  /** A `[u8; 32]`: a block hash, a secret, a commitment, a digest or a key. */
  type Bytes32 = s: seq<u8> | |s| == 32 witness seq(32, _ => 0)

  /** 256 to the power n: one more than the largest value n bytes can hold. */
  function Pow256(n: nat): (r: nat)
    ensures r > 0
  {
    if n == 0 then 1 else 256 * Pow256(n - 1)
  }

  lemma Pow256Of8()
    ensures Pow256(8) == TWO_TO_64
  {
  }

  /** Little-endian reading of a byte string: byte i weighs 256^i. */
  function FromLe(b: seq<u8>): (r: nat)
    ensures r < Pow256(|b|)
  {
    if b == [] then 0 else b[0] + 256 * FromLe(b[1..])
  }

  /** The n low-order bytes of v, least significant first. */
  function LeBytes(v: nat, n: nat): (r: seq<u8>)
    requires v < Pow256(n)
    ensures |r| == n
    ensures FromLe(r) == v
  {
    if n == 0 then [] else [v % 256] + LeBytes(v / 256, n - 1)
  }

  /** Encoding what was decoded gives back the bytes. */
  lemma {:induction false} LeBytesOfFromLe(b: seq<u8>)
    ensures LeBytes(FromLe(b), |b|) == b
  {
    if b != [] {
      var rest := FromLe(b[1..]);
      assert FromLe(b) % 256 == b[0] && FromLe(b) / 256 == rest;
      LeBytesOfFromLe(b[1..]);
      assert LeBytes(FromLe(b), |b|) == [b[0]] + LeBytes(rest, |b| - 1);
    }
  }

  /** `u64::to_le_bytes`. */
  function ToLeBytes(v: u64): (r: seq<u8>)
    ensures |r| == 8
    ensures FromLe(r) == v
  {
    Pow256Of8();
    LeBytes(v, 8)
  }

  /** `u64::from_le_bytes`: the value is below 2^64 by its type, and the
      bytes are exactly the encoding of the value. */
  function U64FromLeBytes(b: seq<u8>): (r: u64)
    requires |b| == 8
    ensures r == FromLe(b)
    ensures ToLeBytes(r) == b
  {
    Pow256Of8();
    LeBytesOfFromLe(b);
    FromLe(b)
  }

  /** Decoding the encoding of any `u64` gives it back. */
  lemma LeRoundTrip(v: u64)
    ensures U64FromLeBytes(ToLeBytes(v)) == v
  {
  }
}
