/** What every run of the allocator's operations keeps. */
module PoolRuns {
  import opened Wrappers
  import opened Words
  import opened HardwareAddresses
  import opened IpAddresses
  import opened AddressPools

  /** The pool after a run, and the answer to its k-th operation. */
  ghost function After(p: Pool, ops: seq<Op>): Pool {
    if ops == [] then p else Step(After(p, ops[..|ops| - 1]), ops[|ops| - 1])
  }

  ghost function AnswerAt(p: Pool, ops: seq<Op>, k: nat): Answer
    requires k < |ops|
  {
    Reply(After(p, ops[..k]), ops[k])
  }

  lemma AfterOneMore(p: Pool, ops: seq<Op>, k: nat)
    requires k < |ops|
    ensures After(p, ops[..k + 1]) == Step(After(p, ops[..k]), ops[k])
  {
    assert ops[..k + 1][..k] == ops[..k];
  }

  // ---- The invariant -------------------------------------------------------

  /** The MAC-to-address map of a couple is contained in the inverse of the other. */
  ghost predicate OneWay(byMac: map<Mac, u32>, byIp: map<u32, Mac>) {
    forall m | m in byMac :: byMac[m] in byIp && byIp[byMac[m]] == m
  }

  /** No address is reserved for one client and leased to another. */
  ghost predicate Agree(p: Pool) {
    forall ip | ip in p.reservedIp && ip in p.takenIp :: p.reservedIp[ip] == p.takenIp[ip]
  }

  ghost predicate Partition(p: Pool) {
    p.included !! p.excluded && p.included + p.excluded == Range(p.first, p.last)
  }

  ghost predicate Inv(p: Pool) {
    && OneWay(p.takenMac, p.takenIp)
    && OneWay(p.reservedMac, p.reservedIp)
    && p.reservedIp.Keys <= p.included
    && Agree(p)
    && Partition(p)
    && p.takenIp.Keys <= Range(p.first, p.last)
  }

  lemma FreshInv(first: u32, last: u32)
    ensures Inv(Fresh(first, last))
  {
  }

  lemma ExcludedKeepsInv(p: Pool, ip: u32)
    requires Inv(p)
    ensures Inv(Excluded(p, ip))
  {
  }

  lemma {:induction false} ExcludedFromKeepsInv(p: Pool, lo: u32, hi: u32)
    requires Inv(p)
    ensures Inv(ExcludedFrom(p, lo, hi))
    decreases Distance(lo, hi)
  {
    ExcludedKeepsInv(p, lo);
    if lo != hi {
      ExcludedFromKeepsInv(Excluded(p, lo), Successor(lo), hi);
    }
  }

  lemma StepKeepsInv(p: Pool, op: Op)
    requires Inv(p)
    ensures Inv(Step(p, op))
  {
    match op
    case Exclude(ip) => ExcludedKeepsInv(p, ip);
    case ExcludeRange(lo, hi) => ExcludedFromKeepsInv(p, lo, hi);
    case Reserve(_, _) =>
    case Unreserve(_) =>
    case Get(_) =>
  }

  /** The invariant holds after every run from a pool that satisfies it. */
  lemma {:induction false} RunKeepsInv(p: Pool, ops: seq<Op>)
    requires Inv(p)
    ensures Inv(After(p, ops))
  {
    if ops != [] {
      RunKeepsInv(p, ops[..|ops| - 1]);
      StepKeepsInv(After(p, ops[..|ops| - 1]), ops[|ops| - 1]);
    }
  }

  // ---- Range exclusion -----------------------------------------------------

  /** All addresses of `gone` leave together, with their reservations. */
  function Without(p: Pool, gone: set<u32>): Pool {
    p.(included := p.included - gone,
       excluded := p.excluded + gone,
       reservedIp := p.reservedIp - gone,
       reservedMac := p.reservedMac - (set ip | ip in gone && ip in p.reservedIp :: p.reservedIp[ip]))
  }

  /** The members of `s` on the cyclic way up from `lo` to `hi`. */
  function Between(s: set<u32>, lo: u32, hi: u32): set<u32> {
    set x | x in s && Distance(lo, x) <= Distance(lo, hi)
  }

  lemma BetweenSplits(s: set<u32>, lo: u32, hi: u32)
    requires lo != hi
    ensures Between(s, lo, hi) == Between(s - {lo}, Successor(lo), hi) + (s * {lo})
  {
    assert forall x: u32 :: x != lo ==> Distance(lo, x) == Distance(Successor(lo), x) + 1;
  }

  /** `exclude_ip_range` removes exactly the included addresses of the cyclic interval,
      whatever its arguments, and touches nothing else. */
  lemma {:induction false} ExcludeRangeExactly(p: Pool, lo: u32, hi: u32)
    ensures ExcludedFrom(p, lo, hi) == Without(p, Between(p.included, lo, hi))
    decreases Distance(lo, hi)
  {
    if lo == hi {
      assert Between(p.included, lo, hi) == p.included * {lo};
    } else {
      var q := Excluded(p, lo);
      ExcludeRangeExactly(q, Successor(lo), hi);
      BetweenSplits(p.included, lo, hi);
      WithoutTwice(p, p.included * {lo}, Between(q.included, Successor(lo), hi));
    }
    ExcludedIsWithout(p, lo);
  }

  lemma ExcludedIsWithout(p: Pool, ip: u32)
    ensures Excluded(p, ip) == Without(p, p.included * {ip})
  {
    if ip in p.included {
      assert p.included * {ip} == {ip};
      if ip in p.reservedIp {
        assert (set x | x in {ip} && x in p.reservedIp :: p.reservedIp[x]) == {p.reservedIp[ip]};
      }
    } else {
      assert p.included * {ip} == {};
    }
  }

  lemma WithoutTwice(p: Pool, a: set<u32>, b: set<u32>)
    requires a !! b
    ensures Without(Without(p, a), b) == Without(p, a + b)
  {
    var q := p.reservedIp;
    assert q - a - b == q - (a + b);
    var macs := (gone: set<u32>, m: map<u32, Mac>) => set ip | ip in gone && ip in m :: m[ip];
    assert macs(a, q) + macs(b, q - a) == macs(a + b, q);
    assert p.reservedMac - macs(a, q) - macs(b, q - a) == p.reservedMac - macs(a + b, q);
    assert p.excluded + a + b == p.excluded + (a + b);
    assert p.included - a - b == p.included - (a + b);
  }

  /** Excluding a range takes every included address of the range out of the pool and cancels
      its reservation; a range whose end lies before its start goes over the last address. */
  lemma ExcludeRangeRemoves(p: Pool, lo: u32, hi: u32)
    ensures var q := Step(p, ExcludeRange(lo, hi));
            var gone := set x | x in p.included && (if lo <= hi then lo <= x <= hi else lo <= x || x <= hi);
            && q.included == p.included - gone && q.excluded == p.excluded + gone
            && q.reservedIp == p.reservedIp - gone
            && (forall m :: m in q.reservedMac <==>
                  m in p.reservedMac && forall x | x in gone && x in p.reservedIp :: p.reservedIp[x] != m)
            && (forall m | m in q.reservedMac :: q.reservedMac[m] == p.reservedMac[m])
            && q.takenIp == p.takenIp && q.takenMac == p.takenMac && q.first == p.first && q.last == p.last
  {
    ExcludeRangeExactly(p, lo, hi);
    var gone := set x | x in p.included && (if lo <= hi then lo <= x <= hi else lo <= x || x <= hi);
    assert Between(p.included, lo, hi) == gone;
    var macs := set ip | ip in gone && ip in p.reservedIp :: p.reservedIp[ip];
    assert forall x | x in gone && x in p.reservedIp :: p.reservedIp[x] in macs;
  }

  /** Excluding one address is excluding the range of it alone. */
  lemma ExcludeIsRange(p: Pool, ip: u32)
    ensures Step(p, Exclude(ip)) == Step(p, ExcludeRange(ip, ip))
  {
  }

  // ---- Safety over runs ----------------------------------------------------

  ghost predicate Extends(small: map<u32, Mac>, big: map<u32, Mac>) {
    forall ip | ip in small :: ip in big && big[ip] == small[ip]
  }

  /** An address once leased stays on record for its client. */
  lemma StepKeepsLeases(p: Pool, op: Op)
    requires Inv(p)
    ensures Extends(p.takenIp, Step(p, op).takenIp)
    ensures op.Get? && Reply(p, op).Granted? ==>
              var ip := Reply(p, op).ip;
              ip in Step(p, op).takenIp && Step(p, op).takenIp[ip] == op.mac
  {
    match op
    case ExcludeRange(lo, hi) => ExcludeRangeExactly(p, lo, hi);
    case _ =>
  }

  lemma {:induction false} LeasesGrow(p: Pool, ops: seq<Op>, i: nat, j: nat)
    requires Inv(p) && i <= j <= |ops|
    ensures Extends(After(p, ops[..i]).takenIp, After(p, ops[..j]).takenIp)
    decreases j
  {
    hide After, Step, Inv;
    if i < j {
      LeasesGrow(p, ops, i, j - 1);
      RunKeepsInv(p, ops[..j - 1]);
      StepKeepsLeases(After(p, ops[..j - 1]), ops[j - 1]);
      AfterOneMore(p, ops, j - 1);
    }
  }

  lemma GrantOnRecord(p: Pool, ops: seq<Op>, i: nat, j: nat)
    requires Inv(p) && i < j <= |ops|
    requires ops[i].Get? && AnswerAt(p, ops, i).Granted?
    ensures var ip := AnswerAt(p, ops, i).ip;
            ip in After(p, ops[..j]).takenIp && After(p, ops[..j]).takenIp[ip] == ops[i].mac
  {
    RunKeepsInv(p, ops[..i]);
    StepKeepsLeases(After(p, ops[..i]), ops[i]);
    AfterOneMore(p, ops, i);
    LeasesGrow(p, ops, i + 1, j);
  }

  /** In every run of exclusions, reservations, cancellations and requests, one address
      is never given to two clients, and every address given lies in the pool's range. */
  lemma NoDoubleAssignment(p: Pool, ops: seq<Op>, i: nat, j: nat)
    requires Inv(p) && i <= j < |ops|
    requires ops[i].Get? && ops[j].Get?
    requires AnswerAt(p, ops, i).Granted? && AnswerAt(p, ops, j) == AnswerAt(p, ops, i)
    ensures ops[i].mac == ops[j].mac
    ensures Within(AnswerAt(p, ops, i).ip, After(p, ops).first, After(p, ops).last)
  {
    GrantOnRecord(p, ops, i, |ops|);
    GrantOnRecord(p, ops, j, |ops|);
    assert ops[..|ops|] == ops;
    RunKeepsInv(p, ops);
  }

  /** A request fails exactly when the client holds and reserves nothing and every
      included address is reserved or leased; an address given to a client with neither
      is the least included one that is free. */
  lemma GetSpecification(p: Pool, mac: Mac)
    ensures Reply(p, Get(mac)) == Thrown(NoFreeAddress) <==>
              && mac !in p.reservedMac && mac !in p.takenMac
              && forall ip | ip in p.included :: ip in p.reservedIp || ip in p.takenIp
    ensures mac !in p.reservedMac && mac !in p.takenMac && Reply(p, Get(mac)).Granted? ==>
              var ip := Reply(p, Get(mac)).ip;
              && ip in p.included && ip !in p.reservedIp && ip !in p.takenIp
              && forall x | x in p.included && x < ip :: x in p.reservedIp || x in p.takenIp
  {
    var free := Free(p);
    if mac !in p.reservedMac && mac !in p.takenMac && free != {} {
      assert IsLeast(Least(free), free);
      assert forall x | x in p.included && x < Least(free) :: x !in free;
      assert Least(free) in p.included;
    } else if free == {} {
      assert forall ip | ip in p.included :: ip !in free;
    }
  }

  // ---- The couples of maps -------------------------------------------------

  /** The two maps of a couple are each other's inverse. */
  ghost predicate Inverse(byMac: map<Mac, u32>, byIp: map<u32, Mac>) {
    OneWay(byMac, byIp) && forall ip | ip in byIp :: byIp[ip] in byMac && byMac[byIp[ip]] == ip
  }

  ghost predicate Paired(p: Pool) {
    Inverse(p.takenMac, p.takenIp) && Inverse(p.reservedMac, p.reservedIp)
  }

  ghost predicate PairedInv(p: Pool) {
    && Inv(p) && Paired(p)
    && forall m | m in p.takenMac && m in p.reservedMac :: p.takenMac[m] == p.reservedMac[m]
  }

  /** The guard a caller of `reserve_ip` can check: the client holds nothing yet. */
  predicate Guarded(p: Pool, op: Op) {
    op.Reserve? ==> op.mac !in p.reservedMac && op.mac !in p.takenMac
  }

  lemma ExcludedKeepsPairs(p: Pool, ip: u32)
    requires PairedInv(p)
    ensures PairedInv(Excluded(p, ip))
  {
  }

  lemma {:induction false} ExcludedFromKeepsPairs(p: Pool, lo: u32, hi: u32)
    requires PairedInv(p)
    ensures PairedInv(ExcludedFrom(p, lo, hi))
    decreases Distance(lo, hi)
  {
    ExcludedKeepsPairs(p, lo);
    if lo != hi {
      ExcludedFromKeepsPairs(Excluded(p, lo), Successor(lo), hi);
    }
  }

  lemma ReserveKeepsPairs(p: Pool, ip: u32, mac: Mac)
    requires PairedInv(p) && Guarded(p, Reserve(ip, mac))
    ensures PairedInv(Step(p, Reserve(ip, mac)))
  {
  }

  lemma GetKeepsPairs(p: Pool, mac: Mac)
    requires PairedInv(p)
    ensures PairedInv(Step(p, Get(mac)))
  {
    GetSpecification(p, mac);
  }

  lemma StepKeepsPairs(p: Pool, op: Op)
    requires PairedInv(p) && Guarded(p, op)
    ensures PairedInv(Step(p, op))
  {
    hide PairedInv;
    match op
    case ExcludeRange(lo, hi) => ExcludedFromKeepsPairs(p, lo, hi);
    case Exclude(ip) => ExcludedKeepsPairs(p, ip);
    case Reserve(ip, mac) => ReserveKeepsPairs(p, ip, mac);
    case Unreserve(ip) => UnreserveKeepsPairs(p, ip);
    case Get(mac) => GetKeepsPairs(p, mac);
  }

  lemma UnreserveKeepsPairs(p: Pool, ip: u32)
    requires PairedInv(p)
    ensures PairedInv(Step(p, Unreserve(ip)))
  {
  }

  /** In every run whose reservations are guarded, both couples stay exact inverses. */
  lemma {:induction false} GuardedRunsKeepPairs(p: Pool, ops: seq<Op>)
    requires PairedInv(p)
    requires forall k | 0 <= k < |ops| :: Guarded(After(p, ops[..k]), ops[k])
    ensures Paired(After(p, ops)) && PairedInv(After(p, ops))
  {
    if ops != [] {
      var init := ops[..|ops| - 1];
      forall k | 0 <= k < |init| ensures Guarded(After(p, init[..k]), init[k]) {
        assert init[..k] == ops[..k];
      }
      GuardedRunsKeepPairs(p, init);
      StepKeepsPairs(After(p, init), ops[|ops| - 1]);
    }
  }

  /** For a reservation that is claimed at once: after both, the couples are inverses exactly
      when the guard held before. */
  lemma GuardIsExact(p: Pool, ip: u32, mac: Mac)
    requires PairedInv(p) && Reply(p, Reserve(ip, mac)).Done?
    ensures Paired(After(p, [Reserve(ip, mac), Get(mac)])) <==> Guarded(p, Reserve(ip, mac))
  {
    var ops := [Reserve(ip, mac), Get(mac)];
    assert ops[..1] == [Reserve(ip, mac)] && ops[..1][..0] == [];
    var q := Step(p, Reserve(ip, mac));
    assert After(p, ops) == Step(q, Get(mac)) by {
      AfterOneMore(p, ops, 0);
      AfterOneMore(p, ops, 1);
      assert ops[..2] == ops;
    }
    var r := Step(q, Get(mac));
    if Guarded(p, Reserve(ip, mac)) {
      StepKeepsPairs(p, Reserve(ip, mac));
      StepKeepsPairs(q, Get(mac));
    } else if mac in p.reservedMac {
      assert r.reservedIp[p.reservedMac[mac]] == mac && r.reservedMac[mac] == ip;
    } else {
      assert r.takenIp[p.takenMac[mac]] == mac && r.takenMac[mac] == ip;
    }
  }

  /** The exact condition of one operation: an accepted reservation is for a client that
      reserves nothing, and a client that has both a lease and a reservation asks only when
      both are for the same address. */
  ghost predicate KeepsPairs(p: Pool, op: Op) {
    && (op.Reserve? && Reply(p, op).Done? ==> op.mac !in p.reservedMac)
    && (op.Get? && op.mac in p.reservedMac && op.mac in p.takenMac ==> p.reservedMac[op.mac] == p.takenMac[op.mac])
  }

  lemma ReservePairsExactly(p: Pool, ip: u32, mac: Mac)
    requires Inv(p) && Paired(p)
    ensures Paired(Step(p, Reserve(ip, mac))) <==> KeepsPairs(p, Reserve(ip, mac))
  {
    var q := Step(p, Reserve(ip, mac));
    if Reply(p, Reserve(ip, mac)).Done? && mac in p.reservedMac {
      assert q.reservedIp[p.reservedMac[mac]] == mac && q.reservedMac[mac] == ip;
    }
  }

  lemma GetPairsExactly(p: Pool, mac: Mac)
    requires Inv(p) && Paired(p)
    ensures Paired(Step(p, Get(mac))) <==> KeepsPairs(p, Get(mac))
  {
    GetSpecification(p, mac);
    var q := Step(p, Get(mac));
    if mac in p.reservedMac && mac in p.takenMac && p.reservedMac[mac] != p.takenMac[mac] {
      assert q.takenIp[p.takenMac[mac]] == mac && q.takenMac[mac] == p.reservedMac[mac];
    }
  }

  lemma ExcludedKeepsInverses(p: Pool, ip: u32)
    requires Inv(p) && Paired(p)
    ensures Inv(Excluded(p, ip)) && Paired(Excluded(p, ip))
  {
  }

  lemma {:induction false} ExcludedFromKeepsInverses(p: Pool, lo: u32, hi: u32)
    requires Inv(p) && Paired(p)
    ensures Paired(ExcludedFrom(p, lo, hi))
    decreases Distance(lo, hi)
  {
    ExcludedKeepsInverses(p, lo);
    if lo != hi {
      ExcludedFromKeepsInverses(Excluded(p, lo), Successor(lo), hi);
    }
  }

  lemma UnreserveKeepsInverses(p: Pool, ip: u32)
    requires Inv(p) && Paired(p)
    ensures Paired(Step(p, Unreserve(ip)))
  {
  }

  /** One operation leaves the couples inverse exactly under its condition. */
  lemma PairsExactly(p: Pool, op: Op)
    requires Inv(p) && Paired(p)
    ensures Paired(Step(p, op)) <==> KeepsPairs(p, op)
  {
    match op
    case Exclude(ip) => ExcludedKeepsInverses(p, ip);
    case ExcludeRange(lo, hi) => ExcludedFromKeepsInverses(p, lo, hi);
    case Reserve(ip, mac) => ReservePairsExactly(p, ip, mac);
    case Unreserve(ip) => UnreserveKeepsInverses(p, ip);
    case Get(mac) => GetPairsExactly(p, mac);
  }

  ghost predicate AlwaysPaired(p: Pool, ops: seq<Op>) {
    forall k | 0 <= k <= |ops| :: Paired(After(p, ops[..k]))
  }

  ghost predicate AlwaysKept(p: Pool, ops: seq<Op>) {
    forall k | 0 <= k < |ops| :: KeepsPairs(After(p, ops[..k]), ops[k])
  }

  /** Over every run the couples are inverse all the time exactly when every operation meets
      its condition at its turn. */
  lemma {:induction false} RunPairsExactly(p: Pool, ops: seq<Op>)
    requires Inv(p) && Paired(p)
    ensures AlwaysPaired(p, ops) <==> AlwaysKept(p, ops)
  {
    hide After, Paired, KeepsPairs, Inv, Step;
    if ops == [] {
      AfterNothing(p);
    } else {
      var n := |ops| - 1;
      var init := ops[..n];
      RunPairsExactly(p, init);
      RunKeepsInv(p, init);
      AfterOneMore(p, ops, n);
      assert ops[..n + 1] == ops;
      if Paired(After(p, init)) {
        PairsExactly(After(p, init), ops[n]);
      }
      assert forall k | 0 <= k <= n :: init[..k] == ops[..k];
      assert init[..n] == init;
    }
  }

  lemma AfterNothing(p: Pool)
    ensures After(p, []) == p
  {
  }

  /** A run in which the couples part: two reservations for one client, both accepted. */
  lemma TwoReservationsBreakPairs(mac: Mac)
    ensures var ops := [Reserve(10, mac), Reserve(11, mac)];
            && AnswerAt(Fresh(10, 11), ops, 0).Done? && AnswerAt(Fresh(10, 11), ops, 1).Done?
            && !Paired(After(Fresh(10, 11), ops))
  {
    var ops := [Reserve(10, mac), Reserve(11, mac)];
    var p := Fresh(10, 11);
    assert ops[..0] == [] && ops[..1] == [Reserve(10, mac)] && ops[..2] == ops;
    AfterOneMore(p, ops, 0);
    AfterOneMore(p, ops, 1);
    var q := Step(p, ops[0]);
    var r := Step(q, ops[1]);
    assert Within(10, 10, 11) && Within(11, 10, 11);
    assert r.reservedIp[10] == mac && r.reservedMac[mac] == 11;
  }

  // ---- Lease stability -----------------------------------------------------

  ghost predicate Holds(p: Pool, mac: Mac, ip: u32) {
    && mac in p.takenMac && p.takenMac[mac] == ip
    && (mac in p.reservedMac ==> p.reservedMac[mac] == ip)
  }

  lemma StepKeepsHold(p: Pool, op: Op, mac: Mac, ip: u32)
    requires Holds(p, mac, ip) && (op.Reserve? ==> op.mac != mac)
    ensures Holds(Step(p, op), mac, ip)
  {
    if op.ExcludeRange? {
      ExcludeRangeExactly(p, op.lo, op.hi);
    }
  }

  lemma {:induction false} RunKeepsHold(p: Pool, ops: seq<Op>, mac: Mac, ip: u32)
    requires Holds(p, mac, ip)
    requires forall k | 0 <= k < |ops| :: ops[k].Reserve? ==> ops[k].mac != mac
    ensures Holds(After(p, ops), mac, ip)
  {
    if ops != [] {
      var init, op := ops[..|ops| - 1], ops[|ops| - 1];
      RunKeepsHold(p, init, mac, ip);
      StepKeepsHold(After(p, init), op, mac, ip);
    }
  }

  /** A client that was given an address is given the same one after any further run in
      which nobody makes a reservation in its name. */
  lemma LeaseIsStable(p: Pool, ops: seq<Op>, mac: Mac)
    requires Inv(p) && Reply(p, Get(mac)).Granted?
    requires forall k | 0 <= k < |ops| :: ops[k].Reserve? ==> ops[k].mac != mac
    ensures Reply(After(Step(p, Get(mac)), ops), Get(mac)) == Reply(p, Get(mac))
  {
    RunKeepsHold(Step(p, Get(mac)), ops, mac, Reply(p, Get(mac)).ip);
  }

  /** A later reservation in the client's own name moves it, always. */
  lemma OwnReservationMoves(p: Pool, mac: Mac, ip: u32)
    requires Inv(p) && Reply(p, Get(mac)).Granted?
    requires Reply(Step(p, Get(mac)), Reserve(ip, mac)).Done?
    ensures Reply(After(Step(p, Get(mac)), [Reserve(ip, mac)]), Get(mac)) == Granted(ip)
    ensures Granted(ip) != Reply(p, Get(mac))
  {
    var q := Step(p, Get(mac));
    StepKeepsLeases(p, Get(mac));
    assert [Reserve(ip, mac)][..0] == [];
    assert After(q, [Reserve(ip, mac)]) == Step(q, Reserve(ip, mac));
  }

  /** Excluding a leased address takes it out of the pool but not from its client. */
  lemma ExcludedLeaseIsStillGiven(p: Pool, mac: Mac)
    requires Inv(p) && Reply(p, Get(mac)).Granted?
    ensures var ip := Reply(p, Get(mac)).ip;
            var q := After(Step(p, Get(mac)), [Exclude(ip)]);
            ip !in q.included && Reply(q, Get(mac)) == Granted(ip)
  {
    var ops := [Exclude(Reply(p, Get(mac)).ip)];
    LeaseIsStable(p, ops, mac);
    assert ops[..0] == [];
    assert After(Step(p, Get(mac)), ops) == Step(Step(p, Get(mac)), ops[0]);
  }

  /** Cancelling a reservation takes it out of both maps. It restores the pool exactly when
      the client had no other reservation before. */
  lemma UnreserveUndoesReserve(p: Pool, ip: u32, mac: Mac)
    requires Reply(p, Reserve(ip, mac)).Done?
    ensures Reply(Step(p, Reserve(ip, mac)), Unreserve(ip)).Done?
    ensures var q := Step(Step(p, Reserve(ip, mac)), Unreserve(ip));
            q == p.(reservedMac := p.reservedMac - {mac}) && (q == p <==> mac !in p.reservedMac)
  {
    assert p.reservedMac[mac := ip] - {mac} == p.reservedMac - {mac};
    assert p.reservedIp[ip := mac] - {ip} == p.reservedIp;
    if mac !in p.reservedMac {
      assert p.reservedMac - {mac} == p.reservedMac;
    } else {
      assert mac !in p.reservedMac - {mac};
    }
  }

  // ---- Reservations ----------------------------------------------------------

  /** A reservation is accepted exactly for an included address that is neither reserved nor
      leased, by whomever; it then is the client's next address. */
  lemma ReserveExactly(p: Pool, ip: u32, mac: Mac)
    ensures Reply(p, Reserve(ip, mac)).Done? <==> ip in p.included && ip !in p.reservedIp && ip !in p.takenIp
    ensures Reply(p, Reserve(ip, mac)).Done? ==>
              Reply(Step(p, Reserve(ip, mac)), Get(mac)) == Granted(ip)
    ensures !Reply(p, Reserve(ip, mac)).Done? ==> Step(p, Reserve(ip, mac)) == p
    ensures Reply(p, Reserve(ip, mac)) == Thrown(NotIncluded) <==> ip !in p.included
    ensures Reply(p, Reserve(ip, mac)) == Thrown(InUse) <==>
              ip in p.included && ip !in p.reservedIp && ip in p.takenIp
    ensures Reply(p, Unreserve(ip)).Done? <==> ip in p.reservedIp
    ensures !Reply(p, Unreserve(ip)).Done? ==> Step(p, Unreserve(ip)) == p
  {
  }

  /** The address, and no other, is kept for its client, who may already have it. */
  ghost predicate Kept(p: Pool, ip: u32, mac: Mac) {
    && (forall x | x in p.reservedIp && x != ip :: p.reservedIp[x] != mac)
    && ip in p.reservedIp && p.reservedIp[ip] == mac && mac in p.reservedMac && p.reservedMac[mac] == ip
    && (ip in p.takenIp ==> p.takenIp[ip] == mac)
  }

  /** Nobody cancels or excludes the address, or reserves another one for its client. */
  predicate Leaves(op: Op, ip: u32, mac: Mac) {
    match op
    case Exclude(x) => x != ip
    case ExcludeRange(lo, hi) => if lo <= hi then ip < lo || hi < ip else hi < ip < lo
    case Reserve(_, m) => m != mac
    case Unreserve(x) => x != ip
    case Get(_) => true
  }

  lemma StepKeeps(p: Pool, op: Op, ip: u32, mac: Mac)
    requires Inv(p) && Kept(p, ip, mac) && Leaves(op, ip, mac)
    ensures Kept(Step(p, op), ip, mac)
    ensures op.Get? && op.mac != mac ==> Reply(p, op) != Granted(ip)
    ensures op == Get(mac) ==> Reply(p, op) == Granted(ip)
  {
    match op
    case ExcludeRange(lo, hi) => ExcludeRangeRemoves(p, lo, hi);
    case Exclude(x) => ExcludeIsRange(p, x); ExcludeRangeRemoves(p, x, x);
    case Get(m) => GetSpecification(p, m);
    case _ =>
  }

  lemma {:induction false} RunKeeps(p: Pool, ops: seq<Op>, ip: u32, mac: Mac, k: nat)
    requires Inv(p) && Kept(p, ip, mac) && k <= |ops| && forall i | 0 <= i < |ops| :: Leaves(ops[i], ip, mac)
    ensures Inv(After(p, ops[..k])) && Kept(After(p, ops[..k]), ip, mac)
  {
    hide Inv, Kept, Step, Leaves, After;
    if k == 0 {
      assert ops[..0] == [];
      AfterNothing(p);
    } else {
      RunKeeps(p, ops, ip, mac, k - 1);
      AfterOneMore(p, ops, k - 1);
      StepKeeps(After(p, ops[..k - 1]), ops[k - 1], ip, mac);
      RunKeepsInv(p, ops[..k]);
    }
  }

  lemma HeldReservation(p: Pool, ip: u32, mac: Mac, ops: seq<Op>, k: nat)
    requires Inv(p) && Reply(p, Reserve(ip, mac)).Done? && forall x | x in p.reservedIp :: p.reservedIp[x] != mac
    requires forall i | 0 <= i < |ops| :: Leaves(ops[i], ip, mac)
    requires k < |ops| && ops[k].Get?
    ensures AnswerAt(Step(p, Reserve(ip, mac)), ops, k) == Granted(ip) <==> ops[k].mac == mac
  {
    var q := Step(p, Reserve(ip, mac));
    StepKeepsInv(p, Reserve(ip, mac));
    assert Kept(q, ip, mac);
    RunKeeps(q, ops, ip, mac, k);
    StepKeeps(After(q, ops[..k]), ops[k], ip, mac);
  }

  /** Cancelling an older reservation of the same client takes the newer one from it. */
  lemma LostReservation(p: Pool, ip: u32, mac: Mac, x: u32)
    requires Inv(p) && Reply(p, Reserve(ip, mac)).Done? && x in p.reservedIp && p.reservedIp[x] == mac
    ensures x != ip && Leaves(Unreserve(x), ip, mac)
    ensures AnswerAt(Step(p, Reserve(ip, mac)), [Unreserve(x), Get(mac)], 1) != Granted(ip)
  {
    var q, ops := Step(p, Reserve(ip, mac)), [Unreserve(x), Get(mac)];
    StepKeepsInv(p, Reserve(ip, mac));
    AfterNothing(q);
    assert ops[..0] == [];
    AfterOneMore(q, ops, 0);
    var r := Step(q, Unreserve(x));
    GetSpecification(r, mac);
  }

  /** An accepted reservation holds over every further run that does not cancel or exclude it or
      reserve another address for the client, in that the client always gets this address and
      nobody else ever does, exactly when no other address was reserved for the client. */
  lemma ReservationHoldsExactly(p: Pool, ip: u32, mac: Mac)
    requires Inv(p) && Reply(p, Reserve(ip, mac)).Done?
    ensures (forall ops: seq<Op>, k | (forall i | 0 <= i < |ops| :: Leaves(ops[i], ip, mac))
                                      && 0 <= k < |ops| && ops[k].Get? ::
               AnswerAt(Step(p, Reserve(ip, mac)), ops, k) == Granted(ip) <==> ops[k].mac == mac)
            <==> (forall x | x in p.reservedIp :: p.reservedIp[x] != mac)
  {
    hide AnswerAt, Step, Reply, Inv;
    if forall x | x in p.reservedIp :: p.reservedIp[x] != mac {
      forall ops: seq<Op>, k | (forall i | 0 <= i < |ops| :: Leaves(ops[i], ip, mac)) && 0 <= k < |ops| && ops[k].Get?
        ensures AnswerAt(Step(p, Reserve(ip, mac)), ops, k) == Granted(ip) <==> ops[k].mac == mac
      {
        HeldReservation(p, ip, mac, ops, k);
      }
    } else {
      var x :| x in p.reservedIp && p.reservedIp[x] == mac;
      LostReservation(p, ip, mac, x);
      var ops := [Unreserve(x), Get(mac)];
      assert forall i | 0 <= i < |ops| :: Leaves(ops[i], ip, mac);
      assert AnswerAt(Step(p, Reserve(ip, mac)), ops, 1) != Granted(ip);
    }
  }

  // ---- Order of allocation -------------------------------------------------

  function Gets(macs: seq<Mac>): seq<Op> {
    seq(|macs|, i requires 0 <= i < |macs| => Get(macs[i]))
  }

  /** The distinct clients of a run in the order of their first requests. */
  function FirstSeen(macs: seq<Mac>): seq<Mac> {
    if macs == [] then []
    else
      var seen, mac := FirstSeen(macs[..|macs| - 1]), macs[|macs| - 1];
      if mac in seen then seen else seen + [mac]
  }

  lemma FirstSeenOneMore(macs: seq<Mac>, mac: Mac)
    ensures FirstSeen(macs + [mac]) == if mac in FirstSeen(macs) then FirstSeen(macs) else FirstSeen(macs) + [mac]
  {
    assert (macs + [mac])[..|macs|] == macs;
  }

  lemma {:induction false} FirstSeenIsDistinct(macs: seq<Mac>)
    ensures forall i, j | 0 <= i < j < |FirstSeen(macs)| :: FirstSeen(macs)[i] != FirstSeen(macs)[j]
    ensures forall m :: m in FirstSeen(macs) <==> m in macs
  {
    if macs != [] {
      FirstSeenIsDistinct(macs[..|macs| - 1]);
      assert macs == macs[..|macs| - 1] + [macs[|macs| - 1]];
    }
  }

  function Size(first: u32, last: u32): nat {
    if first <= last then last - first + 1 else 0
  }

  /** The pool when the clients `seen` came in this order: the k-th holds `first + k`. */
  ghost predicate Served(p: Pool, first: u32, last: u32, seen: seq<Mac>) {
    var n := if |seen| <= Size(first, last) then |seen| else Size(first, last);
    && p == Fresh(first, last).(takenIp := p.takenIp, takenMac := p.takenMac)
    && (forall k | 0 <= k < n :: seen[k] in p.takenMac && p.takenMac[seen[k]] == first + k)
    && (forall m | m in p.takenMac :: m in seen[..n])
    && (forall x: u32 :: x in p.takenIp <==> first <= x < first + n)
  }

  lemma ServedReply(p: Pool, first: u32, last: u32, seen: seq<Mac>, mac: Mac)
    requires Served(p, first, last, seen)
    requires forall i, j | 0 <= i < j < |seen| :: seen[i] != seen[j]
    ensures mac !in seen ==>
              Reply(p, Get(mac)) == if |seen| < Size(first, last) then Granted(first + |seen|) else Thrown(NoFreeAddress)
    ensures forall k | 0 <= k < |seen| && seen[k] == mac ::
              Reply(p, Get(mac)) == if k < Size(first, last) then Granted(first + k) else Thrown(NoFreeAddress)
  {
    GetSpecification(p, mac);
    if mac !in seen && |seen| < Size(first, last) {
      assert first + |seen| in Free(p);
    }
  }

  lemma ServedNext(p: Pool, first: u32, last: u32, seen: seq<Mac>, mac: Mac)
    requires Served(p, first, last, seen) && mac !in seen && |seen| < Size(first, last)
    requires forall i, j | 0 <= i < j < |seen| :: seen[i] != seen[j]
    ensures Served(Step(p, Get(mac)), first, last, seen + [mac])
  {
    ServedReply(p, first, last, seen, mac);
    var next, ip: u32 := seen + [mac], first + |seen|;
    assert next[..|seen| + 1] == next && seen[..|seen|] == seen;
    FreshGrant(p, mac, ip);
    hide Step, Reply;
  }

  lemma FreshGrant(p: Pool, mac: Mac, ip: u32)
    requires mac !in p.reservedMac && mac !in p.takenMac && Reply(p, Get(mac)) == Granted(ip)
    ensures Step(p, Get(mac)) == p.(takenMac := p.takenMac[mac := ip], takenIp := p.takenIp[ip := mac])
  {
  }

  lemma ServedRefused(p: Pool, first: u32, last: u32, seen: seq<Mac>, mac: Mac)
    requires Served(p, first, last, seen) && mac !in seen && |seen| >= Size(first, last)
    requires forall i, j | 0 <= i < j < |seen| :: seen[i] != seen[j]
    ensures Served(Step(p, Get(mac)), first, last, seen + [mac])
  {
    ServedReply(p, first, last, seen, mac);
    assert (seen + [mac])[..Size(first, last)] == seen[..Size(first, last)];
  }

  lemma ServedStep(p: Pool, first: u32, last: u32, seen: seq<Mac>, mac: Mac)
    requires Served(p, first, last, seen)
    requires forall i, j | 0 <= i < j < |seen| :: seen[i] != seen[j]
    ensures Served(Step(p, Get(mac)), first, last, if mac in seen then seen else seen + [mac])
  {
    if mac in seen {
      ServedReply(p, first, last, seen, mac);
      var k :| 0 <= k < |seen| && seen[k] == mac;
    } else if |seen| < Size(first, last) {
      ServedNext(p, first, last, seen, mac);
    } else {
      ServedRefused(p, first, last, seen, mac);
    }
  }

  lemma {:induction false} RequestsAreServed(first: u32, last: u32, macs: seq<Mac>)
    ensures Served(After(Fresh(first, last), Gets(macs)), first, last, FirstSeen(macs))
  {
    if macs != [] {
      var init := macs[..|macs| - 1];
      RequestsAreServed(first, last, init);
      assert Gets(macs)[..|macs| - 1] == Gets(init);
      FirstSeenIsDistinct(init);
      ServedStep(After(Fresh(first, last), Gets(init)), first, last, FirstSeen(init), macs[|macs| - 1]);
    }
  }

  lemma ServedRank(p: Pool, first: u32, last: u32, seen: seq<Mac>, mac: Mac)
    requires Served(p, first, last, seen)
    requires forall i, j | 0 <= i < j < |seen| :: seen[i] != seen[j]
    ensures var all := if mac in seen then seen else seen + [mac];
            exists k ::
              && 0 <= k < |all| && all[k] == mac
              && Reply(p, Get(mac)) == if k < Size(first, last) then Granted(first + k) else Thrown(NoFreeAddress)
  {
    ServedReply(p, first, last, seen, mac);
    if mac in seen {
      var k :| 0 <= k < |seen| && seen[k] == mac;
    } else {
      assert (seen + [mac])[|seen|] == mac;
    }
  }

  /** From a fresh pool of n addresses the k-th distinct client (counting from 0) is given
      first + k if k < n, however often others ask in between, and is refused otherwise. */
  lemma AllocationOrder(first: u32, last: u32, macs: seq<Mac>, mac: Mac)
    ensures var all := FirstSeen(macs + [mac]);
            exists k ::
              && 0 <= k < |all| && all[k] == mac
              && Reply(After(Fresh(first, last), Gets(macs)), Get(mac))
                 == if k < Size(first, last) then Granted(first + k) else Thrown(NoFreeAddress)
  {
    hide *;
    FirstSeenIsDistinct(macs);
    RequestsAreServed(first, last, macs);
    FirstSeenOneMore(macs, mac);
    ServedRank(After(Fresh(first, last), Gets(macs)), first, last, FirstSeen(macs), mac);
  }
}
