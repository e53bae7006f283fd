/** Octets and the fixed-size addresses built from them, all in network byte order. */
module Octets {

  type byte = b: int | 0 <= b < 256

  /** `struct ether_addr` and `struct in_addr` as the raw bytes the program copies and compares. */
  type Mac = s: seq<byte> | |s| == 6 witness [0, 0, 0, 0, 0, 0]
  type Quad = s: seq<byte> | |s| == 4 witness [0, 0, 0, 0]
  type IPv4 = Quad

  datatype Option<+T> = None | Some(value: T)

  const TWO64: nat := 0x1_0000_0000_0000_0000

  /** The two bytes `htons` leaves in memory; a wider argument is truncated to 16 bits. */
  function Be16(n: nat): (r: seq<byte>)
    ensures |r| == 2 && (n < 0x1_0000 ==> Word(r[0], r[1]) == n)
  {
    [n / 256 % 256, n % 256]
  }

  /** `ntohs` of two bytes in memory. */
  function Word(hi: byte, lo: byte): (w: nat)
    ensures w < 0x1_0000
  {
    256 * hi + lo
  }

  function Zeros(n: nat): (r: seq<byte>)
    ensures |r| == n && forall i :: 0 <= i < n ==> r[i] == 0
  {
    seq(n, _ => 0)
  }
}
