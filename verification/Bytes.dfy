/** Bytes, and the integers they spell in either byte order. */
module Bytes {
  type Byte = x: nat | x < 256

  /** Two bytes read by the (little-endian) processor. */
  function Le16(lo: Byte, hi: Byte): (w: nat)
    ensures w < 0x1_0000
  {
    lo as nat + 0x100 * hi as nat
  }

  /** Two bytes in network order. */
  function Be16(hi: Byte, lo: Byte): (w: nat)
    ensures w < 0x1_0000
  {
    0x100 * hi as nat + lo as nat
  }

  function Le32(bytes: seq<Byte>, at: nat): (w: nat)
    requires at + 4 <= |bytes|
    ensures w < 0x1_0000_0000
  {
    Le16(bytes[at], bytes[at + 1]) + 0x1_0000 * Le16(bytes[at + 2], bytes[at + 3])
  }

  function Le64(bytes: seq<Byte>, at: nat): (w: nat)
    requires at + 8 <= |bytes|
    ensures w < 0x1_0000_0000_0000_0000
  {
    Le32(bytes, at) + 0x1_0000_0000 * Le32(bytes, at + 4)
  }

  // ----- Writing little-endian integers

  function Bytes16(x: nat): (s: seq<Byte>)
    requires x < 0x1_0000
    ensures |s| == 2
  {
    [x % 0x100, x / 0x100]
  }

  function Bytes32(x: nat): (s: seq<Byte>)
    requires x < 0x1_0000_0000
    ensures |s| == 4
  {
    Bytes16(x % 0x1_0000) + Bytes16(x / 0x1_0000)
  }

  function Bytes64(x: nat): (s: seq<Byte>)
    requires x < 0x1_0000_0000_0000_0000
    ensures |s| == 8
  {
    Bytes32(x % 0x1_0000_0000) + Bytes32(x / 0x1_0000_0000)
  }

  /** Reading gives back what was written. */
  lemma Read16(bytes: seq<Byte>, at: nat, x: nat)
    requires at + 2 <= |bytes| && x < 0x1_0000 && bytes[at..at + 2] == Bytes16(x)
    ensures Le16(bytes[at], bytes[at + 1]) == x
  {
    assert bytes[at] == bytes[at..at + 2][0] && bytes[at + 1] == bytes[at..at + 2][1];
  }

  lemma Read32(bytes: seq<Byte>, at: nat, x: nat)
    requires at + 4 <= |bytes| && x < 0x1_0000_0000 && bytes[at..at + 4] == Bytes32(x)
    ensures Le32(bytes, at) == x
  {
    hide Bytes16;
    assert bytes[at..at + 2] == bytes[at..at + 4][..2] && bytes[at + 2..at + 4] == bytes[at..at + 4][2..];
    Read16(bytes, at, x % 0x1_0000);
    Read16(bytes, at + 2, x / 0x1_0000);
  }

  lemma Read64(bytes: seq<Byte>, at: nat, x: nat)
    requires at + 8 <= |bytes| && x < 0x1_0000_0000_0000_0000 && bytes[at..at + 8] == Bytes64(x)
    ensures Le64(bytes, at) == x
  {
    hide Bytes32, Le32;
    assert bytes[at..at + 4] == bytes[at..at + 8][..4] && bytes[at + 4..at + 8] == bytes[at..at + 8][4..];
    Read32(bytes, at, x % 0x1_0000_0000);
    Read32(bytes, at + 4, x / 0x1_0000_0000);
  }
}
