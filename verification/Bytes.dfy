/**
 Bytes, machine words and the two byte-stream objects of the codecs: `Buffer`, which is
 appended to, and `Cursor`, which is consumed from the front.
 */
module Bytes {

  type byte = x: int | 0 <= x < 0x100
  type u16 = x: int | 0 <= x < 0x1_0000
  type u32 = x: int | 0 <= x < 0x1_0000_0000

  /** The bytes of an application payload. */
  type Data = seq<byte>

  /** The part of a packet that the receive task reads from the socket. */
  function Received(packet: Data): Data {
    if |packet| <= 2048 then packet else packet[..2048]
  }

  function AsU16(x: nat): u16 {
    x % 0x1_0000
  }

  function AsU32(x: nat): u32 {
    x % 0x1_0000_0000
  }

  function U16Be(x: u16): (s: seq<byte>)
    ensures |s| == 2 && s[0] as int * 0x100 + s[1] as int == x
  {
    [x / 0x100, x % 0x100]
  }

  function U32Be(x: u32): (s: seq<byte>)
    ensures |s| == 4
    ensures s[0] as int * 0x100_0000 + s[1] as int * 0x1_0000 + s[2] as int * 0x100 + s[3] as int == x
  {
    U16Be(x / 0x1_0000) + U16Be(x % 0x1_0000)
  }

  function ReadU16Be(s: seq<byte>): (x: u16)
    requires |s| >= 2
    ensures U16Be(x) == s[..2]
  {
    s[0] as int * 0x100 + s[1] as int
  }

  lemma Halves(hi: u16, lo: u16)
    ensures (hi * 0x1_0000 + lo) / 0x1_0000 == hi && (hi * 0x1_0000 + lo) % 0x1_0000 == lo
  {
  }

  function ReadU32Be(s: seq<byte>): (x: u32)
    requires |s| >= 4
    ensures U32Be(x) == s[..4]
  {
    var hi, lo := ReadU16Be(s), ReadU16Be(s[2..]);
    Halves(hi, lo);
    assert s[..2] + s[2..][..2] == s[..4];
    hi * 0x1_0000 + lo
  }

  class Buffer {
    var data: seq<byte>

    constructor ()
      ensures data == []
    {
      data := [];
    }

    method PutU8(b: byte)
      modifies this
      ensures data == old(data) + [b]
    {
      data := data + [b];
    }

    method PutSlice(s: seq<byte>)
      modifies this
      ensures data == old(data) + s
    {
      data := data + s;
    }
  }

  class Cursor {
    var rest: seq<byte>

    constructor (s: seq<byte>)
      ensures rest == s
    {
      rest := s;
    }

    method GetU8() returns (b: byte)
      requires |rest| >= 1
      modifies this
      ensures b == old(rest)[0] && rest == old(rest)[1..]
    {
      b := rest[0];
      rest := rest[1..];
    }

    method Advance(n: nat)
      requires |rest| >= n
      modifies this
      ensures rest == old(rest)[n..]
    {
      rest := rest[n..];
    }
  }
}
