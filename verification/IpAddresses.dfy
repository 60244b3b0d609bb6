/** IPv4 addresses as dhcp/src/IpAddress.cpp keeps them: four bytes, first byte most significant. */
module IpAddresses {
  import opened Wrappers
  import opened Words

  type Quad = q: seq<byte> | |q| == 4 witness [0, 0, 0, 0]

  datatype AddressError = TooFewOctets

  function ToUint32(host: Host, q: Quad): u32 {
    NetworkToHost32(host, q)
  }

  function FromUint32(host: Host, x: u32): Quad {
    HostToNetwork32(host, x)
  }

  /** The neighbours of `x` in 32-bit arithmetic, which wraps around. */
  function Successor(x: u32): u32 {
    (x + 1) % 0x1_0000_0000
  }

  function Predecessor(x: u32): u32 {
    (x - 1) % 0x1_0000_0000
  }

  /** `ip++` and `ip--`: one up or down in 32-bit arithmetic. */
  function Increment(host: Host, q: Quad): Quad {
    FromUint32(host, Successor(ToUint32(host, q)))
  }

  function Decrement(host: Host, q: Quad): Quad {
    FromUint32(host, Predecessor(ToUint32(host, q)))
  }

  predicate Less(host: Host, l: Quad, r: Quad) {
    ToUint32(host, l) < ToUint32(host, r)
  }

  /** Addresses and 32-bit numbers are the same thing, on either host, so a set or map
      of addresses may be keyed by their numbers. */
  lemma AddressIsNumber(host: Host, q: Quad, x: u32)
    ensures FromUint32(host, ToUint32(host, q)) == q
    ensures ToUint32(host, FromUint32(host, x)) == x
    ensures ToUint32(Little, q) == ToUint32(Big, q)
  {
    Network32Inverse(q, ToUint32(host, q));
    Network32Inverse(FromUint32(host, ToUint32(host, q)), x);
  }

  lemma SuccessorOfPredecessor(x: u32)
    ensures Predecessor(Successor(x)) == x == Successor(Predecessor(x))
  {
  }

  /** Stepping wraps from the last address to the first, and stepping back undoes it. */
  lemma IncrementIsSuccessor(host: Host, q: Quad)
    ensures ToUint32(host, Increment(host, q)) == Successor(ToUint32(host, q))
    ensures Decrement(host, Increment(host, q)) == q == Increment(host, Decrement(host, q))
  {
    hide NetworkToHost32, HostToNetwork32, Successor, Predecessor, ToUint32, FromUint32;
    var x := ToUint32(host, q);
    SuccessorOfPredecessor(x);
    AddressIsNumber(host, q, Successor(x));
    AddressIsNumber(host, q, Predecessor(x));
  }

  /** `operator<` is the order of the four bytes, read from the left. */
  lemma LessIsByteOrder(host: Host, l: Quad, r: Quad)
    ensures Less(host, l, r) <==>
            || l[0] < r[0]
            || (l[0] == r[0] && l[1] < r[1])
            || (l[0] == r[0] && l[1] == r[1] && l[2] < r[2])
            || (l[0] == r[0] && l[1] == r[1] && l[2] == r[2] && l[3] < r[3])
  {
    assert ToUint32(host, l) == BigEndian32(l) && ToUint32(host, r) == BigEndian32(r);
  }

  /** The copying loop: it needs four bytes and takes the first four. */
  method FromBigEndianBytes(bytes: seq<byte>) returns (r: Result<Quad, AddressError>)
    ensures r == if |bytes| >= 4 then Ok(bytes[..4]) else Err(TooFewOctets)
  {
    var data: seq<byte> := [0, 0, 0, 0];
    var i := 0;
    while i != |bytes| && i < 4
      invariant 0 <= i <= 4 && i <= |bytes|
      invariant |data| == 4 && data[..i] == bytes[..i]
    {
      data := data[i := bytes[i]];
      i := i + 1;
    }
    if i < 4 {
      return Err(TooFewOctets);
    }
    assert data == bytes[..4];
    return Ok(data);
  }
}
