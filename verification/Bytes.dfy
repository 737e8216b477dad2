/** Octets, Go byte strings and big-endian 16-bit words. */
module Bytes {
  newtype byte = x: int | 0 <= x < 256

  // A Go string or a byte slice taken by value.
  type bytes = seq<byte>

  type u16 = n: int | 0 <= n < 0x1_0000

  // binary.BigEndian.Uint16
  function U16(b: bytes): u16
    requires |b| == 2
  {
    b[0] as int * 256 + b[1] as int
  }

  function Hi(n: u16): byte {
    (n / 256) as byte
  }

  function Lo(n: u16): byte {
    (n % 256) as byte
  }

  // Go's uint16(n) conversion keeps the low sixteen bits.
  function ToU16(n: nat): u16 {
    n % 0x1_0000
  }

  function Zeros(n: nat): (z: bytes)
    ensures |z| == n && forall i :: 0 <= i < n ==> z[i] == 0
  {
    seq(n, _ => 0)
  }

  function Min(a: int, b: int): int {
    if a < b then a else b
  }
}

module Options {
  datatype Option<+T> = None | Some(value: T)
}
