/** MAC addresses: dhcp/src/HardwareAddress.cpp. */
module HardwareAddresses {
  import opened Wrappers
  import opened Words

  type Mac = m: seq<byte> | |m| == 6 witness [0, 0, 0, 0, 0, 0]

  const CHADDR_LENGTH := 16

  datatype MacError = TooFewBytes

  /** The key order of the maps: the first differing byte decides. */
  function LessFrom(l: Mac, r: Mac, i: nat): bool
    requires i <= 6
    decreases 6 - i
  {
    if i == 6 then false
    else if l[i] > r[i] then false
    else if l[i] < r[i] then true
    else LessFrom(l, r, i + 1)
  }

  predicate Less(l: Mac, r: Mac) {
    LessFrom(l, r, 0)
  }

  method LessThan(l: Mac, r: Mac) returns (less: bool)
    ensures less == Less(l, r)
  {
    for i := 0 to 6
      invariant Less(l, r) == LessFrom(l, r, i)
    {
      if l[i] > r[i] {
        return false;
      }
      if l[i] < r[i] {
        return true;
      }
    }
    return false;
  }

  lemma {:induction false} LessFromTransitive(a: Mac, b: Mac, c: Mac, i: nat)
    requires i <= 6 && LessFrom(a, b, i) && LessFrom(b, c, i)
    ensures LessFrom(a, c, i)
    decreases 6 - i
  {
    if a[i] == b[i] == c[i] {
      LessFromTransitive(a, b, c, i + 1);
    }
  }

  lemma {:induction false} LessFromTrichotomy(a: Mac, b: Mac, i: nat)
    requires i <= 6
    ensures !(LessFrom(a, b, i) && LessFrom(b, a, i))
    ensures !LessFrom(a, b, i) && !LessFrom(b, a, i) <==> a[i..] == b[i..]
    decreases 6 - i
  {
    if i < 6 {
      LessFromTrichotomy(a, b, i + 1);
      assert a[i..] == [a[i]] + a[i + 1..] && b[i..] == [b[i]] + b[i + 1..];
    }
  }

  /** An address is less than another exactly when, at the first byte where they differ, its
      byte is the lesser one. */
  lemma LessIsFirstDifference(a: Mac, b: Mac)
    ensures Less(a, b) <==> exists i :: 0 <= i < 6 && a[..i] == b[..i] && a[i] < b[i]
  {
    LessFromDifference(a, b, 0);
  }

  lemma {:induction false} LessFromDifference(a: Mac, b: Mac, from: nat)
    requires from <= 6 && a[..from] == b[..from]
    ensures LessFrom(a, b, from) <==> exists i :: from <= i < 6 && a[..i] == b[..i] && a[i] < b[i]
    decreases 6 - from
  {
    if from < 6 {
      if a[from] == b[from] {
        assert a[..from + 1] == b[..from + 1];
        LessFromDifference(a, b, from + 1);
      } else {
        assert forall i | from < i < 6 :: a[..i][from] != b[..i][from];
      }
    }
  }

  /** `operator<` is a strict total order whose equivalence is equality of the bytes, so
      an ordered map keyed by MAC addresses tells two of them apart exactly when they differ. */
  lemma LessIsKeyOrder(a: Mac, b: Mac, c: Mac)
    ensures !Less(a, a)
    ensures !Less(a, b) && !Less(b, a) <==> a == b
    ensures Less(a, b) && Less(b, c) ==> Less(a, c)
  {
    LessFromTrichotomy(a, a, 0);
    LessFromTrichotomy(a, b, 0);
    if Less(a, b) && Less(b, c) {
      LessFromTransitive(a, b, c, 0);
    }
  }

  method FromBigEndianBytes(bytes: seq<byte>) returns (r: Result<Mac, MacError>)
    ensures r == if |bytes| >= 6 then Ok(bytes[..6]) else Err(TooFewBytes)
  {
    var data: seq<byte> := [0, 0, 0, 0, 0, 0];
    var i := 0;
    while i != |bytes| && i < 6
      invariant 0 <= i <= 6 && i <= |bytes|
      invariant |data| == 6 && data[..i] == bytes[..i]
    {
      data := data[i := bytes[i]];
      i := i + 1;
    }
    if i < 6 {
      return Err(TooFewBytes);
    }
    assert data == bytes[..6];
    return Ok(data);
  }

  /** The 16-byte client hardware address field: the six bytes, then ten zeros. */
  method ToChaddr(mac: Mac) returns (chaddr: seq<byte>)
    ensures chaddr == mac + Zeros(CHADDR_LENGTH - 6)
  {
    chaddr := Zeros(CHADDR_LENGTH);
    for i := 0 to 6
      invariant |chaddr| == CHADDR_LENGTH
      invariant chaddr == mac[..i] + Zeros(CHADDR_LENGTH - i)
    {
      chaddr := chaddr[i := mac[i]];
    }
    assert mac[..6] == mac;
  }
}
