/** Bytes, machine words and the byte-order conversions of dhcp/src/endians.hpp.
    The byte order of the host is a parameter; a `bit_cast` reads or writes the
    bytes of a word in the order in which they lie in that host's memory. */
module Words {

  type byte = x: int | 0 <= x < 0x100
  type u16 = x: int | 0 <= x < 0x1_0000
  type u32 = x: int | 0 <= x < 0x1_0000_0000

  const MAX_U32: u32 := 0xFFFF_FFFF

  datatype Host = Little | Big

  /** The word whose bytes, most significant first, are the arguments. */
  function Word16(b0: int, b1: int): int {
    b0 * 0x100 + b1
  }

  function Word32(b0: int, b1: int, b2: int, b3: int): int {
    ((b0 * 0x100 + b1) * 0x100 + b2) * 0x100 + b3
  }

  /** Network (big-endian) reading of two and of four bytes. */
  function BigEndian16(b: seq<byte>): u16
    requires |b| == 2
  {
    Word16(b[0], b[1])
  }

  function BigEndian32(b: seq<byte>): u32
    requires |b| == 4
  {
    Word32(b[0], b[1], b[2], b[3])
  }

  /** The bytes of a word, most significant first: each shift right by 8 is a division by 256. */
  function Network16(x: u16): (b: seq<byte>)
    ensures |b| == 2
  {
    [x / 0x100, x % 0x100]
  }

  function Network32(x: u32): (b: seq<byte>)
    ensures |b| == 4
  {
    [x / 0x100 / 0x100 / 0x100, x / 0x100 / 0x100 % 0x100, x / 0x100 % 0x100, x % 0x100]
  }

  function Reversed(b: seq<byte>): (r: seq<byte>)
    ensures |r| == |b|
  {
    seq(|b|, i requires 0 <= i < |b| => b[|b| - 1 - i])
  }

  /** `std::byteswap`. */
  function Swap16(x: u16): u16 {
    BigEndian16(Reversed(Network16(x)))
  }

  function Swap32(x: u32): u32 {
    BigEndian32(Reversed(Network32(x)))
  }

  /** The word whose bytes lie in memory as `b`. */
  function BitCast16(host: Host, b: seq<byte>): u16
    requires |b| == 2
  {
    if host.Little? then Word16(b[1], b[0]) else Word16(b[0], b[1])
  }

  function BitCast32(host: Host, b: seq<byte>): u32
    requires |b| == 4
  {
    if host.Little? then Word32(b[3], b[2], b[1], b[0]) else Word32(b[0], b[1], b[2], b[3])
  }

  /** The bytes of a word as they lie in memory. */
  function Memory16(host: Host, x: u16): (b: seq<byte>)
    ensures |b| == 2 && BitCast16(host, b) == x
  {
    if host.Little? then Reversed(Network16(x)) else Network16(x)
  }

  function Memory32(host: Host, x: u32): (b: seq<byte>)
    ensures |b| == 4 && BitCast32(host, b) == x
  {
    Network32Inverse([0, 0, 0, 0], x);
    if host.Little? then Reversed(Network32(x)) else Network32(x)
  }

  /** Reading a word off the wire gives its big-endian value on either host. */
  function NetworkToHost16(host: Host, b: seq<byte>): (x: u16)
    requires |b| == 2
    ensures x == BigEndian16(b)
  {
    ReversedTwice16(b);
    var raw := BitCast16(host, b);
    if host.Little? then Swap16(raw) else raw
  }

  function NetworkToHost32(host: Host, b: seq<byte>): (x: u32)
    requires |b| == 4
    ensures x == BigEndian32(b)
  {
    ReversedTwice32(b);
    var raw := BitCast32(host, b);
    if host.Little? then Swap32(raw) else raw
  }

  /** Writing a word in network order undoes reading it, on either host. */
  function HostToNetwork32(host: Host, x: u32): (b: seq<byte>)
    ensures |b| == 4 && BigEndian32(b) == x
    ensures b == Network32(x)
  {
    var b := Network32(x);
    assert Reversed(Reversed(b)) == b;
    Network32Inverse(Reversed(b), x);
    Memory32(host, if host.Little? then Swap32(x) else x)
  }

  lemma DivMod(hi: int, lo: int)
    requires 0 <= lo < 0x100
    ensures (hi * 0x100 + lo) / 0x100 == hi
    ensures (hi * 0x100 + lo) % 0x100 == lo
  {
  }

  /** Four bytes are determined by their big-endian value, and every value has such bytes. */
  lemma Network32Inverse(b: seq<byte>, x: u32)
    requires |b| == 4
    ensures BigEndian32(Network32(x)) == x
    ensures Network32(BigEndian32(b)) == b
  {
    var b0: int, b1: int, b2: int, b3: int := b[0], b[1], b[2], b[3];
    DivMod((b0 * 0x100 + b1) * 0x100 + b2, b3);
    DivMod(b0 * 0x100 + b1, b2);
    DivMod(b0, b1);
  }

  lemma Network16Inverse(b: seq<byte>, x: u16)
    requires |b| == 2
    ensures BigEndian16(Network16(x)) == x
    ensures Network16(BigEndian16(b)) == b
  {
    var b0: int, b1: int := b[0], b[1];
    DivMod(b0, b1);
  }

  lemma ReversedTwice16(b: seq<byte>)
    requires |b| == 2
    ensures Swap16(BigEndian16(Reversed(b))) == BigEndian16(b)
  {
    Network16Inverse(Reversed(b), 0);
    assert Reversed(Reversed(b)) == b;
  }

  lemma ReversedTwice32(b: seq<byte>)
    requires |b| == 4
    ensures Swap32(BigEndian32(Reversed(b))) == BigEndian32(b)
  {
    hide Network32, BigEndian32;
    Network32Inverse(Reversed(b), 0);
    assert Reversed(Reversed(b)) == b;
  }

  /** What the host writes from memory for a word it read from the wire: the wire
      bytes themselves when it is big-endian, and their reversal when it is not. */
  lemma MemoryOfNetwork16(host: Host, b: seq<byte>)
    requires |b| == 2
    ensures Memory16(host, BigEndian16(b)) == if host.Little? then Reversed(b) else b
  {
    Network16Inverse(b, 0);
  }

  lemma MemoryOfNetwork32(host: Host, b: seq<byte>)
    requires |b| == 4
    ensures Memory32(host, BigEndian32(b)) == if host.Little? then Reversed(b) else b
  {
    Network32Inverse(b, 0);
  }

  function Zeros(n: nat): (b: seq<byte>)
    ensures |b| == n
  {
    seq(n, _ => 0)
  }
}
