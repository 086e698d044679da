/** Machine integers and the network byte order used by every encoder. */
module Bytes {
  const TWO_32: int := 0x1_0000_0000

  type byte = x: int | 0 <= x < 0x100
  type uint16 = x: int | 0 <= x < 0x1_0000
  type uint32 = x: int | 0 <= x < TWO_32

  /** The exported form of one IPAP message. */
  type Payload = seq<byte>

  datatype Option<+T> = None | Some(value: T) {
    function GetOr(default: T): T {
      match this
      case Some(v) => v
      case None => default
    }
  }

  function Encode32(v: uint32): (bs: seq<byte>)
    ensures |bs| == 4
  {
    [v / 0x100_0000, v / 0x1_0000 % 0x100, v / 0x100 % 0x100, v % 0x100]
  }

  function Decode32(bs: seq<byte>): uint32
    requires |bs| >= 4
  {
    (bs[0] as int) * 0x100_0000 + (bs[1] as int) * 0x1_0000 + (bs[2] as int) * 0x100 + bs[3] as int
  }

  lemma DigitsOf(v: uint32)
    ensures v == v / 0x100_0000 * 0x100_0000 + v / 0x1_0000 % 0x100 * 0x1_0000 + v / 0x100 % 0x100 * 0x100 + v % 0x100
  {
  }

  lemma Decode32Encode32(v: uint32, rest: seq<byte>)
    ensures Decode32(Encode32(v) + rest) == v
  {
    DigitsOf(v);
  }

  function Zeros(n: nat): (z: seq<byte>)
    ensures |z| == n && forall i :: 0 <= i < n ==> z[i] == 0
  {
    seq(n, i => 0)
  }

  lemma Concatenates(a: seq<byte>, b: seq<byte>, c: seq<byte>)
    ensures a + b + c == a + (b + c)
  {
  }
}
