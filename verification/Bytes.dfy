/** Bytes, and numbers written as big-endian bytes. */
module Bytes {

  type Byte = bv8

  function Zeros(n: nat): (z: seq<Byte>)
    ensures |z| == n && forall i :: 0 <= i < n ==> z[i] == 0
  {
    seq(n, _ => 0)
  }

  function LowByte(n: nat): Byte {
    (n % 256) as Byte
  }

  /** The k low-order bytes of n, most significant first. */
  function BigEndian(n: nat, k: nat): (b: seq<Byte>)
    ensures |b| == k
  {
    if k == 0 then [] else BigEndian(n / 256, k - 1) + [LowByte(n)]
  }

  /** n shifted right by i bytes. */
  function ShiftBytes(n: nat, i: nat): nat {
    if i == 0 then n else ShiftBytes(n / 256, i - 1)
  }

  /** Byte number i from the end is n shifted right by i bytes, cut to eight bits. */
  lemma {:induction false} BigEndianByte(n: nat, k: nat, i: nat)
    requires i < k
    ensures BigEndian(n, k)[k - 1 - i] == LowByte(ShiftBytes(n, i))
  {
    if i > 0 {
      BigEndianByte(n / 256, k - 1, i - 1);
    }
  }
}
