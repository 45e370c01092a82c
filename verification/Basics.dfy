/** Shared vocabulary: bytes, 16-bit words, optional values and results. */
module Basics {

  type byte = x: int | 0 <= x < 0x100
  type u16 = x: int | 0 <= x < 0x1_0000
  type Packet = seq<byte>

  datatype Option<+T> = None | Some(value: T)

  datatype Result<+T, +E> = Ok(value: T) | Err(error: E)

  /** A buffer of n zero bytes, as `vec![0u8; n]` makes it. */
  function Zeros(n: nat): (z: Packet)
    ensures |z| == n
    ensures forall i :: 0 <= i < n ==> z[i] == 0
  {
    seq(n, _ => 0)
  }

  /** A 16-bit word read most significant byte first. */
  function BigEndian(hi: byte, lo: byte): u16 {
    hi * 0x100 + lo
  }

  function HighByte(w: u16): byte {
    w / 0x100
  }

  function LowByte(w: u16): byte {
    w % 0x100
  }

  function Min(a: nat, b: nat): nat {
    if a < b then a else b
  }

  /** A count cast to a signed 32-bit number wraps around. */
  function AsI32(n: nat): int {
    var low := n % 0x1_0000_0000;
    if low < 0x8000_0000 then low else low - 0x1_0000_0000
  }

  /** The cast keeps the number modulo 2^32, within the signed range. */
  lemma AsI32Exact(n: nat)
    ensures -0x8000_0000 <= AsI32(n) < 0x8000_0000
    ensures (AsI32(n) - n) % 0x1_0000_0000 == 0
  {
    assert n == n / 0x1_0000_0000 * 0x1_0000_0000 + n % 0x1_0000_0000;
  }

  lemma SubsetSize<T>(a: set<T>, b: set<T>)
    requires a <= b
    ensures |a| <= |b|
    ensures |a| == |b| <==> a == b
  {
    assert b == a + (b - a);
  }

  /** No element occurs twice. */
  ghost predicate Distinct<T>(s: seq<T>) {
    forall i, j :: 0 <= i < j < |s| ==> s[i] != s[j]
  }
}
