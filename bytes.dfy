/** Bytes, as the parsers of the modelled code read them. */
module Bytes {
  /** A `u8`. */
  type byte = x: int | 0 <= x < 256

  /** `n` zero bytes. */
  function Zeros(n: nat): (r: seq<byte>)
    ensures |r| == n && forall i :: 0 <= i < n ==> r[i] == 0
  {
    if n == 0 then [] else Zeros(n - 1) + [0]
  }

  /** A little-endian `u32` at offset `at`. */
  function Le32(b: seq<byte>, at: nat): (r: nat)
    requires at + 4 <= |b|
    ensures r < 0x1_0000_0000
  {
    b[at] as nat + 0x100 * (b[at + 1] as nat) + 0x1_0000 * (b[at + 2] as nat) + 0x100_0000 * (b[at + 3] as nat)
  }

  /** A little-endian `u64` at offset `at`: two `u32` halves. */
  function Le64(b: seq<byte>, at: nat): (r: nat)
    requires at + 8 <= |b|
    ensures r < 0x1_0000_0000_0000_0000
  {
    Le32(b, at) + 0x1_0000_0000 * Le32(b, at + 4)
  }
}
