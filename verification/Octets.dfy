/** Octets, 16-bit big-endian reads, and the memory a received datagram lives in. */
module Octets {

  type Byte = b: int | 0 <= b < 256

  function U16(hi: Byte, lo: Byte): (n: nat)
    ensures n < 0x10000
  {
    hi * 256 + lo
  }

  function PutU16(n: nat): (s: seq<Byte>)
    requires n < 0x10000
    ensures |s| == 2 && U16(s[0], s[1]) == n
  {
    [n / 256, n % 256]
  }

  /** A datagram and what a pointer into it can read. A QByteArray always has a zero
      byte right after its contents; what follows that byte is not known. */
  datatype Memory = Memory(pkt: seq<Byte>, beyond: int -> Byte)
  {
    function At(i: nat): Byte {
      if i < |pkt| then pkt[i] else if i == |pkt| then 0 else beyond(i)
    }

    function U16At(i: nat): (n: nat)
      ensures n < 0x10000
    {
      U16(At(i), At(i + 1))
    }

    function Bytes(i: nat, n: nat): (s: seq<Byte>)
      ensures |s| == n
      ensures forall j :: 0 <= j < n ==> s[j] == At(i + j)
      ensures i + n <= |pkt| ==> s == pkt[i..i + n]
    {
      seq<Byte>(n, j requires 0 <= j < n => At(i + j))
    }
  }
}
