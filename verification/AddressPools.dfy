/** The address allocator of dhcp/src/AddressPool.cpp.

    `Pool` is the value of a pool and `Step`/`Reply` say what one operation does to it
    and answers; `AddressPool` is the object whose containers the operations update.
    Addresses are keyed by their 32-bit numbers (see IpAddresses.AddressIsNumber) and
    MAC addresses by their bytes (see HardwareAddresses.LessIsKeyOrder). */
module AddressPools {
  import opened Wrappers
  import opened Words
  import opened HardwareAddresses
  import opened IpAddresses

  datatype Pool = Pool(
    first: u32, last: u32,
    included: set<u32>, excluded: set<u32>,
    reservedIp: map<u32, Mac>, reservedMac: map<Mac, u32>,
    takenIp: map<u32, Mac>, takenMac: map<Mac, u32>)

  datatype PoolError = NotIncluded | AlreadyReserved | InUse | NotReserved | NoFreeAddress | NoPool

  datatype Answer = Done | Granted(ip: u32) | Thrown(error: PoolError)

  datatype Op =
    | Exclude(ip: u32)
    | ExcludeRange(lo: u32, hi: u32)
    | Reserve(ip: u32, mac: Mac)
    | Unreserve(ip: u32)
    | Get(mac: Mac)

  predicate Within(x: u32, first: u32, last: u32) {
    first <= x <= last
  }

  function Range(first: u32, last: u32): set<u32> {
    set x: u32 | Within(x, first, last)
  }

  function Fresh(first: u32, last: u32): Pool {
    Pool(first, last, Range(first, last), {}, map[], map[], map[], map[])
  }

  /** Removes the reservation of `ip` from both maps. */
  function Unreserved(p: Pool, ip: u32): Pool
    requires ip in p.reservedIp
  {
    p.(reservedMac := p.reservedMac - {p.reservedIp[ip]}, reservedIp := p.reservedIp - {ip})
  }

  function Excluded(p: Pool, ip: u32): Pool {
    if ip !in p.included then p
    else
      var q := if ip in p.reservedIp then Unreserved(p, ip) else p;
      q.(excluded := p.excluded + {ip}, included := p.included - {ip})
  }

  /** The number of steps up from `a` to `b` in the cyclic order of addresses. */
  function Distance(a: u32, b: u32): u32 {
    if a <= b then b - a else b - a + 0x1_0000_0000
  }

  function ExcludedFrom(p: Pool, current: u32, hi: u32): Pool
    decreases Distance(current, hi)
  {
    if current == hi then Excluded(p, hi)
    else ExcludedFrom(Excluded(p, current), Successor(current), hi)
  }

  /** The addresses a new client may get. */
  function Free(p: Pool): set<u32> {
    set x | x in p.included && x !in p.reservedIp && x !in p.takenIp
  }

  predicate IsLeast(x: u32, s: set<u32>) {
    x in s && forall y | y in s :: x <= y
  }

  lemma {:induction false} LeastExists(s: set<u32>)
    requires s != {}
    ensures exists x :: IsLeast(x, s)
    decreases s
  {
    var y :| y in s;
    if s - {y} == {} {
      assert s == {y};
      assert IsLeast(y, s);
    } else {
      LeastExists(s - {y});
      var x :| IsLeast(x, s - {y});
      assert s == (s - {y}) + {y};
      assert IsLeast(if y < x then y else x, s);
    }
  }

  ghost function Least(s: set<u32>): (x: u32)
    requires s != {}
    ensures IsLeast(x, s)
  {
    LeastExists(s);
    var x :| IsLeast(x, s);
    x
  }

  function Taken(p: Pool, ip: u32, mac: Mac): Pool {
    p.(takenMac := p.takenMac[mac := ip], takenIp := p.takenIp[ip := mac])
  }

  /** What an operation answers: an address, the exception it throws, or nothing. */
  ghost function Reply(p: Pool, op: Op): Answer {
    match op
    case Exclude(_) => Done
    case ExcludeRange(_, _) => Done
    case Reserve(ip, _) =>
      if ip !in p.included then Thrown(NotIncluded)
      else if ip in p.reservedIp then Thrown(AlreadyReserved)
      else if ip in p.takenIp then Thrown(InUse)
      else Done
    case Unreserve(ip) => if ip in p.reservedIp then Done else Thrown(NotReserved)
    case Get(mac) =>
      if mac in p.reservedMac then Granted(p.reservedMac[mac])
      else if mac in p.takenMac then Granted(p.takenMac[mac])
      else if Free(p) != {} then Granted(Least(Free(p)))
      else Thrown(NoFreeAddress)
  }

  /** The pool an operation leaves behind. A thrown exception leaves it as it was. */
  ghost function Step(p: Pool, op: Op): Pool {
    match op
    case Exclude(ip) => Excluded(p, ip)
    case ExcludeRange(lo, hi) => ExcludedFrom(p, lo, hi)
    case Reserve(ip, mac) =>
      if Reply(p, op).Done?
      then p.(reservedIp := p.reservedIp[ip := mac], reservedMac := p.reservedMac[mac := ip])
      else p
    case Unreserve(ip) => if ip in p.reservedIp then Unreserved(p, ip) else p
    case Get(mac) =>
      var answer := Reply(p, op);
      if !answer.Granted? || (mac !in p.reservedMac && mac in p.takenMac) then p
      else Taken(p, answer.ip, mac)
  }

  class AddressPool {
    const first: u32
    const last: u32
    var included: set<u32>
    var excluded: set<u32>
    var reservedIp: map<u32, Mac>
    var reservedMac: map<Mac, u32>
    var takenIp: map<u32, Mac>
    var takenMac: map<Mac, u32>

    ghost function State(): Pool
      reads this
    {
      Pool(first, last, included, excluded, reservedIp, reservedMac, takenIp, takenMac)
    }

    /** The counting loop. For `last` = 2^32 - 1 the C++ loop never ends (EndlessRange). */
    constructor (first: u32, last: u32)
      requires last < MAX_U32
      ensures State() == Fresh(first, last)
    {
      this.first, this.last := first, last;
      excluded, reservedIp, reservedMac, takenIp, takenMac := {}, map[], map[], map[], map[];
      included := {};
      new;
      var ip := first;
      while ip <= last
        invariant forall x: u32 :: x in included <==> Within(x, first, last) && x < ip
        invariant State() == Fresh(first, last).(included := included)
        decreases MAX_U32 - ip
      {
        included := included + {ip};
        ip := Successor(ip);
      }
      assert included == Range(first, last);
    }

    constructor Copy(other: AddressPool)
      ensures State() == other.State()
    {
      first, last := other.first, other.last;
      included, excluded := other.included, other.excluded;
      reservedIp, reservedMac := other.reservedIp, other.reservedMac;
      takenIp, takenMac := other.takenIp, other.takenMac;
    }

    method ExcludeIp(ip: u32)
      modifies this
      ensures State() == Step(old(State()), Exclude(ip))
    {
      if ip !in included {
        return;
      }
      excluded := excluded + {ip};
      if ip in reservedIp {
        var _ := UnreserveIp(ip);
      }
      if ip in takenIp {
        ReleaseAddress(ip);
      }
      included := included - {ip};
    }

    method ExcludeIpRange(lo: u32, hi: u32)
      modifies this
      ensures State() == Step(old(State()), ExcludeRange(lo, hi))
    {
      var current := lo;
      while current != hi
        invariant ExcludedFrom(State(), current, hi) == ExcludedFrom(old(State()), lo, hi)
        decreases Distance(current, hi)
      {
        ExcludeIp(current);
        current := Successor(current);
      }
      ExcludeIp(hi);
    }

    method ReserveIp(ip: u32, mac: Mac) returns (answer: Answer)
      modifies this
      ensures State() == Step(old(State()), Reserve(ip, mac))
      ensures answer == Reply(old(State()), Reserve(ip, mac))
    {
      if ip !in included {
        return Thrown(NotIncluded);
      }
      if ip in reservedIp {
        return Thrown(AlreadyReserved);
      }
      if ip in takenIp {
        return Thrown(InUse);
      }
      reservedIp := reservedIp[ip := mac];
      reservedMac := reservedMac[mac := ip];
      return Done;
    }

    method UnreserveIp(ip: u32) returns (answer: Answer)
      modifies this
      ensures State() == Step(old(State()), Unreserve(ip))
      ensures answer == Reply(old(State()), Unreserve(ip))
    {
      if ip !in reservedIp {
        return Thrown(NotReserved);
      }
      reservedMac := reservedMac - {reservedIp[ip]};
      reservedIp := reservedIp - {ip};
      return Done;
    }

    method GetAddress(mac: Mac) returns (answer: Answer)
      modifies this
      ensures State() == Step(old(State()), Get(mac))
      ensures answer == Reply(old(State()), Get(mac))
    {
      if mac in reservedMac {
        takenMac := takenMac[mac := reservedMac[mac]];
        takenIp := takenIp[reservedMac[mac] := mac];
        return Granted(reservedMac[mac]);
      }
      if mac in takenMac {
        return Granted(takenMac[mac]);
      }
      // in ascending order over the included addresses
      var rest := included;
      while rest != {}
        invariant rest <= included
        invariant Free(State()) <= rest
        invariant State() == old(State())
        decreases rest
      {
        LeastExists(rest);
        var ip: u32 :| IsLeast(ip, rest);
        if ip in reservedIp || ip in takenIp {
          rest := rest - {ip};
          continue;
        }
        assert IsLeast(ip, Free(State()));
        takenMac := takenMac[mac := ip];
        takenIp := takenIp[ip := mac];
        return Granted(ip);
      }
      return Thrown(NoFreeAddress);
    }

    /** Its body is empty in the source: a lease is never given back. */
    method ReleaseAddress(ip: u32)
      ensures State() == old(State())
    {
    }
  }

  /** With `last` = 2^32 - 1 the guard of the constructor's loop holds at every address. */
  lemma EndlessRange(last: u32)
    ensures (forall x: u32 :: x <= last ==> Successor(x) <= last) <==> last == MAX_U32
  {
    if last < MAX_U32 {
      assert Successor(last) == last + 1;
    }
  }
}
