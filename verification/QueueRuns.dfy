/** How the main loop works off its queue, whatever arrives or is added in between. */
module QueueRuns {
  import opened Wrappers
  import opened Words
  import opened DhcpMessages
  import opened AddressPools
  import opened DhcpServers
  import opened ServerRuns
  import opened Exchanges
  import MessageCodec
  import PoolRuns

  /** The quiet events before each of the three pieces of one turn of the loop. */
  datatype Turn = Turn(n0: seq<Event>, n1: seq<Event>, n2: seq<Event>)

  predicate QuietTurn(t: Turn) {
    Quiet(t.n0) && Quiet(t.n1) && Quiet(t.n2)
  }

  /** One turn: the piece that takes an address does nothing when none is wanted. */
  function Pass(t: Turn): seq<Event> {
    DiscoverPass(t.n0, t.n1, t.n2)
  }

  function Passes(turns: seq<Turn>): seq<Event> {
    if turns == [] then [] else Pass(turns[0]) + Passes(turns[1..])
  }

  // ---- What is to be answered ----------------------------------------------------

  /** The address that a request is answered with. */
  ghost function AddressFor(p: Pool, xids: map<u32, u32>, a: Asked): u32 {
    if a.kind == REQUEST then OfferedFor(xids, a.xid)
    else
      match Reply(p, Get(a.mac))
      case Granted(ip) => ip
      case _ => 0
  }

  ghost function PoolAfter(p: Pool, a: Asked): Pool {
    if a.kind == REQUEST then p else Step(p, Get(a.mac))
  }

  /** Each DISCOVER in turn finds an address. */
  ghost predicate Servable(p: Pool, asked: seq<Asked>)
    decreases |asked|
  {
    asked == []
    || (&& (asked[0].kind == DISCOVER ==> Reply(p, Get(asked[0].mac)).Granted?)
        && Servable(PoolAfter(p, asked[0]), asked[1..]))
  }

  /** The replies to a list of requests, each with its own transaction and client. */
  ghost function Replies(host: Host, p: Pool, xids: map<u32, u32>, asked: seq<Asked>): seq<Sent>
    decreases |asked|
  {
    if asked == [] then []
    else
      var a := asked[0];
      var ip := AddressFor(p, xids, a);
      [SentReply(host, if a.kind == REQUEST then Acknowledged else Offered, a.xid, a.mac, ip)]
      + Replies(host, PoolAfter(p, a), xids[a.xid := ip], asked[1..])
  }

  // ---- Lists from either end --------------------------------------------------------

  lemma ArrivalsMore(a: seq<Event>)
    requires a != []
    ensures var e := a[|a| - 1]; Arrivals(a) == Arrivals(a[..|a| - 1]) + if e.Arrival? then [e.data] else []
  {
  }

  lemma {:induction false} ArrivalsAppend(a: seq<Event>, b: seq<Event>)
    ensures Arrivals(a + b) == Arrivals(a) + Arrivals(b)
  {
    if b == [] {
      assert a + b == a;
    } else {
      var n := |b| - 1;
      ArrivalsAppend(a, b[..n]);
      ArrivalsMore(a + b);
      ArrivalsMore(b);
      hide Arrivals;
      assert (a + b)[..|a| + n] == a + b[..n] && (a + b)[|a| + n] == b[n];
    }
  }

  lemma ArrivalsOne(e: Event)
    ensures Arrivals([e]) == if e.Arrival? then [e.data] else []
  {
    assert [e][..0] == [];
  }

  lemma ArrivalsOfPass(t: Turn)
    ensures Arrivals(Pass(t)) == Arrivals(t.n0) + Arrivals(t.n1) + Arrivals(t.n2)
  {
    ArrivalsAppend((t.n0 + [Look]) + (t.n1 + [Receive]), t.n2 + [Take]);
    ArrivalsAppend(t.n0 + [Look], t.n1 + [Receive]);
    ArrivalsAppend(t.n0, [Look]);
    ArrivalsAppend(t.n1, [Receive]);
    ArrivalsAppend(t.n2, [Take]);
    ArrivalsOne(Look);
    ArrivalsOne(Receive);
    ArrivalsOne(Take);
  }

  lemma {:induction false} RequestsFirst(host: Host, ds: seq<Datagram>)
    requires ds != []
    ensures var a := Classify(host, ds[0]);
            Requests(host, ds) == (if a.Some? then [a.value] else []) + Requests(host, ds[1..])
  {
    hide Classify, Requests;
    var n := |ds| - 1;
    assert ds[..n + 1] == ds && ds[1..][..n] == ds[1..];
    RequestsMore(host, ds, n);
    NoRequests(host);
    if n == 0 {
      assert ds[..0] == [] && ds[1..] == [];
    } else {
      RequestsFirst(host, ds[..n]);
      assert ds[..n][1..] == ds[1..][..n - 1];
      RequestsMore(host, ds[1..], n - 1);
    }
  }

  lemma NoRequests(host: Host)
    ensures Requests(host, []) == []
  {
  }

  // ---- One turn ------------------------------------------------------------------------

  lemma QuietStep(host: Host, s: Server, e: Event)
    requires Sound(s) && (e.Arrival? || e.AddPool?) && !s.pc.Down?
    ensures var t := Next(host, s, e); t.queue == s.queue + Arrivals([e]) && !t.pc.Down?
  {
    hide Submitted, Sound;
    ArrivalsOne(e);
    assert s.queue + [] == s.queue;
  }

  lemma {:induction false} QuietQueue(host: Host, s: Server, quiet: seq<Event>)
    requires Sound(s) && Quiet(quiet) && !s.pc.Down?
    ensures Steps(host, s, quiet).queue == s.queue + Arrivals(quiet)
    decreases |quiet|
  {
    hide Sound, Next;
    if quiet != [] {
      SoundStep(host, s, quiet[0]);
      QuietStep(host, s, quiet[0]);
      QuietQueue(host, Next(host, s, quiet[0]), quiet[1..]);
      assert quiet == [quiet[0]] + quiet[1..];
      ArrivalsAppend([quiet[0]], quiet[1..]);
    }
  }

  lemma TurnToReceive(host: Host, s: Server, n0: seq<Event>, n1: seq<Event>)
    requires Sound(s) && s.pc.Top? && s.pools != [] && s.queue != [] && Quiet(n0) && Quiet(n1)
    ensures var r := Steps(host, s, (n0 + [Look]) + n1);
            && SameLoop(s.(pc := Ready), r)
            && r.queue == s.queue + Arrivals(n0) + Arrivals(n1)
            && Sound(r) && Steps(host, s, RequestPass(n0, n1)) == Received(host, r)
  {
    hide Received, PoolRuns.Inv, Steps, Arrivals;
    QuietThen(host, s, n0, Look);
    QuietQueue(host, s, n0);
    var s0 := Steps(host, s, n0);
    var s1 := Steps(host, s, n0 + [Look]);
    assert s1 == s0.(pc := Ready);
    StepsTwice(host, s, n0 + [Look], n1);
    QuietThen(host, s1, n1, Receive);
    QuietQueue(host, s1, n1);
    StepsTwice(host, s, n0 + [Look], n1 + [Receive]);
  }

  /** The loop's part of the state before and after one datagram was worked off. */
  ghost predicate WorkedOff(host: Host, s: Server, t: Server, asked: Option<Asked>) {
    && t.pc.Top? && s.pools != [] && t.pools != []
    && match asked
       case None => t.sent == s.sent && t.xids == s.xids && t.pools[0] == s.pools[0]
       case Some(a) =>
         var ip := AddressFor(s.pools[0], s.xids, a);
         && t.sent == s.sent
                      + [SentReply(host, if a.kind == REQUEST then Acknowledged else Offered, a.xid, a.mac, ip)]
         && t.xids == s.xids[a.xid := ip]
         && t.pools[0] == PoolAfter(s.pools[0], a)
  }

  lemma OneTurn(host: Host, s: Server, turn: Turn)
    requires Sound(s) && s.pc.Top? && s.pools != [] && s.queue != [] && QuietTurn(turn)
    requires MessageCodec.AcceptableDatagram(s.queue[0])
    requires var a := Classify(host, s.queue[0]);
             a.Some? && a.value.kind == DISCOVER ==> Reply(s.pools[0], Get(a.value.mac)).Granted?
    ensures var t := Steps(host, s, Pass(turn));
            && WorkedOff(host, s, t, Classify(host, s.queue[0]))
            && t.queue == s.queue[1..] + Arrivals(Pass(turn))
  {
    hide Received, Classify, PoolRuns.Inv, Steps, SentReply, Reply, Step, Arrivals, MessageCodec.AcceptableDatagram;
    hide DefinedMessage, DecodeMessage;
    var n0, n1, n2 := turn.n0, turn.n1, turn.n2;
    TurnToReceive(host, s, n0, n1);
    var r := Steps(host, s, (n0 + [Look]) + n1);
    var s2 := Steps(host, s, RequestPass(n0, n1));
    assert r.queue[0] == s.queue[0];
    MessageCodec.DatagramAcceptedExactly(host, r.queue[0]);
    KindsOf(host, r.queue[0]);
    ReceivedByRequest(host, r);
    QuietThen(host, s2, n2, Take);
    QuietQueue(host, s2, n2);
    StepsTwice(host, s, RequestPass(n0, n1), n2 + [Take]);
    ArrivalsOfPass(turn);
  }

  // ---- The whole queue ---------------------------------------------------------------------

  lemma FirstServable(p: Pool, a: Option<Asked>, asked: seq<Asked>, rest: seq<Asked>)
    requires asked == (if a.Some? then [a.value] else []) + rest && Servable(p, asked)
    ensures a.Some? && a.value.kind == DISCOVER ==> Reply(p, Get(a.value.mac)).Granted?
    ensures Servable(if a.Some? then PoolAfter(p, a.value) else p, rest)
  {
    hide Reply, PoolAfter;
    if a.Some? {
      assert asked[1..] == rest;
    } else {
      assert asked == rest;
    }
  }

  lemma FirstReplied(host: Host, s: Server, t: Server, a: Option<Asked>, asked: seq<Asked>, rest: seq<Asked>)
    requires WorkedOff(host, s, t, a) && asked == (if a.Some? then [a.value] else []) + rest
    ensures t.sent + Replies(host, t.pools[0], t.xids, rest) == s.sent + Replies(host, s.pools[0], s.xids, asked)
  {
    hide SentReply, AddressFor, PoolAfter;
    if a.Some? {
      assert asked[1..] == rest;
    } else {
      assert asked == rest;
    }
  }

  lemma FirstLeavesServable(host: Host, s: Server, t: Server, a: Option<Asked>, asked: seq<Asked>, rest: seq<Asked>)
    requires WorkedOff(host, s, t, a) && asked == (if a.Some? then [a.value] else []) + rest
    requires Servable(s.pools[0], asked)
    ensures t.pc.Top? && t.pools != [] && Servable(t.pools[0], rest)
  {
    FirstServable(s.pools[0], a, asked, rest);
    hide SentReply, AddressFor, PoolAfter, Servable;
  }

  /** The queue after its first datagram was worked off and others arrived. */
  lemma RestOfQueue(queue: seq<Datagram>, arrived: seq<Datagram>, n: nat)
    requires n < |queue|
    ensures var more := queue[1..] + arrived;
            && more[..n] == queue[..n + 1][1..] && more[n..] == queue[n + 1..] + arrived
            && forall i | 0 <= i < n :: more[i] == queue[i + 1]
  {
  }

  /** As many turns as there are datagrams of the right form, for whose DISCOVERs the pool has
      addresses, answer exactly the requests among them, in order. The queue then holds what
      arrived in the meantime, and the loop stands at its top again. */
  lemma {:induction false} QueueDrains(host: Host, s: Server, turns: seq<Turn>)
    requires Sound(s) && s.pc.Top? && s.pools != [] && |turns| <= |s.queue|
    requires forall i | 0 <= i < |turns| :: QuietTurn(turns[i]) && MessageCodec.AcceptableDatagram(s.queue[i])
    requires Servable(s.pools[0], Requests(host, s.queue[..|turns|]))
    ensures var t, asked := Steps(host, s, Passes(turns)), Requests(host, s.queue[..|turns|]);
            && t.pc.Top?
            && t.queue == s.queue[|turns|..] + Arrivals(Passes(turns))
            && t.sent == s.sent + Replies(host, s.pools[0], s.xids, asked)
    decreases |turns|
  {
    hide Classify, Sound, Steps, Replies, Reply, Requests, Arrivals, MessageCodec.AcceptableDatagram;
    hide Pass, QuietTurn, Servable, PoolAfter, WorkedOff;
    if turns == [] {
      NothingDone(host, s);
      NoneReplied(host, s.pools[0], s.xids);
    } else {
      var n := |turns| - 1;
      var ds, a := s.queue[..|turns|], Classify(host, s.queue[0]);
      var rest := Requests(host, ds[1..]);
      RequestsFirst(host, ds);
      FirstServable(s.pools[0], a, Requests(host, ds), rest);
      OneTurn(host, s, turns[0]);
      var s1 := Steps(host, s, Pass(turns[0]));
      FirstLeavesServable(host, s, s1, a, Requests(host, ds), rest);
      FirstReplied(host, s, s1, a, Requests(host, ds), rest);
      RestOfQueue(s.queue, Arrivals(Pass(turns[0])), n);
      assert forall i | 0 <= i < n :: turns[1..][i] == turns[i + 1];
      QueueDrains(host, s1, turns[1..]);
      StepsTwice(host, s, Pass(turns[0]), Passes(turns[1..]));
      ArrivalsAppend(Pass(turns[0]), Passes(turns[1..]));
    }
  }

  lemma NoneReplied(host: Host, p: Pool, xids: map<u32, u32>)
    ensures Replies(host, p, xids, []) == []
  {
  }

  lemma NothingDone(host: Host, s: Server)
    requires Sound(s)
    ensures Steps(host, s, []) == s && Arrivals([]) == [] && Requests(host, []) == [] && s.queue[0..] == s.queue
  {
  }
}
