/** What every interleaving of the main loop, arriving datagrams and pool additions keeps. */
module ServerRuns {
  import opened Wrappers
  import opened Words
  import opened IpAddresses
  import opened DhcpMessages
  import opened AddressPools
  import opened DhcpServers
  import PoolRuns
  import MessageCodec

  datatype Event =
    | AddPool(first: u32, last: u32, setup: seq<Op>)
    | Arrival(data: Datagram)
    | Look
    | Receive
    | Take

  /** The pool that is offered to add_address_pool: constructed, then set up by any operations. */
  ghost function Submitted(e: Event): Pool
    requires e.AddPool?
  {
    PoolRuns.After(Fresh(e.first, e.last), e.setup)
  }

  /** Every pool has a valid state, and the loop takes from the pool list only when it is
      not empty: `_address_pools.at(0)` is in bounds. */
  ghost predicate Sound(s: Server) {
    && (s.pc.Ready? || s.pc.Taking? ==> s.pools != [])
    && (s.pc.Taking? ==> s.pc.request.chaddr.Some?)
    && (forall i | 0 <= i < |s.pools| :: PoolRuns.Inv(s.pools[i]))
  }

  ghost function Next(host: Host, s: Server, e: Event): Server
    requires Sound(s)
  {
    if s.pc.Down? && !e.Arrival? then s  // datagrams that arrive now are never taken up
    else
      match e
      case AddPool(_, last, _) =>
        // the construction of a pool that ends at the last address does not end
        if last == MAX_U32 then s else WithPool(s, Submitted(e))
      case Arrival(data) => s.(queue := s.queue + [data])
      case Look => Looked(s)
      case Receive => Received(host, s)
      case Take => Took(host, s)
  }

  lemma ReceivedChanges(host: Host, s: Server)
    requires Sound(s)
    ensures var t := Received(host, s);
            && t.pools == s.pools
            && Sound(t)
            && ((t.sent == s.sent && t.xids == s.xids)
                || exists x: u32, mac: Mac ::
                     && t.sent == s.sent + [SentReply(host, Acknowledged, x, mac, OfferedFor(s.xids, x))]
                     && t.xids == s.xids[x := OfferedFor(s.xids, x)])
  {
    hide DecodeMessage, DefinedMessage, MessageType, SentReply, PoolRuns.Inv;
    if s.pc.Ready? && s.queue != [] {
      DatagramIsDefined(host, s.queue[0]);
      if DecodeMessage(host, s.queue[0]).Ok? {
        DecodedHasAddress(host, s.queue[0]);
      }
    }
  }

  lemma SoundStep(host: Host, s: Server, e: Event)
    requires Sound(s)
    ensures Sound(Next(host, s, e))
  {
    hide Received, SentReply, PoolRuns.Inv;
    match e
    case AddPool(first, last, setup) =>
      PoolRuns.FreshInv(first, last);
      PoolRuns.RunKeepsInv(Fresh(first, last), setup);
    case Receive => ReceivedChanges(host, s);
    case Take =>
      if s.pc.Taking? {
        PoolRuns.StepKeepsInv(s.pools[0], Get(s.pc.request.chaddr.value));
      }
    case _ =>
  }

  /** The server after a run from its start. */
  ghost function After(host: Host, events: seq<Event>): (s: Server)
    ensures Sound(s)
  {
    if events == [] then INITIAL
    else
      var s := After(host, events[..|events| - 1]);
      SoundStep(host, s, events[|events| - 1]);
      Next(host, s, events[|events| - 1])
  }

  // ---- What was sent -----------------------------------------------------------

  /** The latest offer with this transaction id. */
  function LastOffer(sent: seq<Sent>, xid: u32): Option<Sent> {
    if sent == [] then None
    else
      var last := sent[|sent| - 1];
      if last.kind.Offered? && last.xid == xid then Some(last) else LastOffer(sent[..|sent| - 1], xid)
  }

  function LastAddress(sent: seq<Sent>, xid: u32): u32 {
    var offer := LastOffer(sent, xid);
    if offer.None? then 0 else offer.value.ip
  }

  /** `xids` holds the address of the latest offer; offers are on record in pool 0;
      acknowledgements repeat the latest offer. */
  ghost predicate SentInv(s: Server) {
    && (forall x: u32 :: OfferedFor(s.xids, x) == LastAddress(s.sent, x))
    && (forall i | 0 <= i < |s.sent| && s.sent[i].kind.Offered? ::
          && s.pools != []
          && s.sent[i].ip in s.pools[0].takenIp && s.pools[0].takenIp[s.sent[i].ip] == s.sent[i].mac)
    && (forall i | 0 <= i < |s.sent| && s.sent[i].kind.Acknowledged? ::
          s.sent[i].ip == LastAddress(s.sent[..i], s.sent[i].xid))
  }

  lemma SentMore(sent: seq<Sent>, r: Sent, x: u32)
    ensures LastAddress(sent + [r], x) == if r.kind.Offered? && r.xid == x then r.ip else LastAddress(sent, x)
  {
    assert (sent + [r])[..|sent|] == sent;
  }

  lemma AddedPoolKeepsSent(s: Server, t: Server)
    requires SentInv(s) && t.xids == s.xids && t.sent == s.sent
    requires s.pools != [] ==> t.pools != [] && t.pools[0] == s.pools[0]
    ensures SentInv(t)
  {
  }

  /** One more reply, which is an acknowledgement or an offer on record. */
  lemma SentKeeps(s: Server, t: Server, r: Sent)
    requires SentInv(s) && t.sent == s.sent + [r]
    requires t.xids == s.xids[r.xid := r.ip]
    requires r.kind.Acknowledged? ==> r.ip == OfferedFor(s.xids, r.xid) && t.pools == s.pools
    requires r.kind.Offered? ==>
               && s.pools != [] && |t.pools| == |s.pools|
               && PoolRuns.Extends(s.pools[0].takenIp, t.pools[0].takenIp)
               && r.ip in t.pools[0].takenIp && t.pools[0].takenIp[r.ip] == r.mac
    ensures SentInv(t)
  {
    forall x: u32 ensures OfferedFor(t.xids, x) == LastAddress(t.sent, x) {
      SentMore(s.sent, r, x);
    }
    forall i | 0 <= i < |t.sent| && t.sent[i].kind.Acknowledged?
      ensures t.sent[i].ip == LastAddress(t.sent[..i], t.sent[i].xid)
    {
      assert t.sent[..i] == s.sent[..i];
      assert s.sent[..|s.sent|] == s.sent;
    }
  }

  lemma SentStep(host: Host, s: Server, e: Event)
    requires Sound(s) && SentInv(s)
    ensures SentInv(Next(host, s, e))
  {
    hide SentInv, Received, PoolRuns.Inv;
    hide SentReply;
    var t := Next(host, s, e);
    match e
    case AddPool(_, _, _) => AddedPoolKeepsSent(s, t);
    case Arrival(_) => AddedPoolKeepsSent(s, t);
    case Look => AddedPoolKeepsSent(s, t);
    case Receive =>
      ReceivedChanges(host, s);
      if !s.pc.Down? {
        if t.sent == s.sent && t.xids == s.xids {
          AddedPoolKeepsSent(s, t);
        } else {
          var x: u32, mac: Mac :|
            && t.sent == s.sent + [SentReply(host, Acknowledged, x, mac, OfferedFor(s.xids, x))]
            && t.xids == s.xids[x := OfferedFor(s.xids, x)];
          ReplyFields(host, Acknowledged, x, mac, OfferedFor(s.xids, x));
          SentKeeps(s, t, SentReply(host, Acknowledged, x, mac, OfferedFor(s.xids, x)));
        }
      }
    case Take =>
      if s.pc.Taking? {
        var m := s.pc.request;
        var mac := m.chaddr.value;
        PoolRuns.StepKeepsLeases(s.pools[0], Get(mac));
        var answer := Reply(s.pools[0], Get(mac));
        if answer.Granted? {
          ReplyFields(host, Offered, m.xid, mac, answer.ip);
          SentKeeps(s, t, SentReply(host, Offered, m.xid, mac, answer.ip));
        } else {
          AddedPoolKeepsSent(s, t);
        }
      }
  }

  lemma ReplyFields(host: Host, kind: SentKind, xid: u32, mac: Mac, ip: u32)
    ensures var r := SentReply(host, kind, xid, mac, ip);
            r.kind == kind && r.xid == xid && r.mac == mac && r.ip == ip
  {
    hide EncodeMessage, ReplyMessage;
  }

  lemma {:induction false} RunKeepsSent(host: Host, events: seq<Event>)
    ensures SentInv(After(host, events))
  {
    if events != [] {
      RunKeepsSent(host, events[..|events| - 1]);
      SentStep(host, After(host, events[..|events| - 1]), events[|events| - 1]);
    }
  }

  /** The replies of a run. */
  ghost function SentIn(host: Host, events: seq<Event>): seq<Sent> {
    After(host, events).sent
  }

  /** In every run, each acknowledgement carries the address of the latest offer with its
      transaction id, or 0.0.0.0 when there is none. */
  lemma AcknowledgementsRepeatOffers(host: Host, events: seq<Event>, sent: seq<Sent>, i: nat)
    requires sent == SentIn(host, events) && i < |sent| && sent[i].kind.Acknowledged?
    ensures sent[i].ip == LastAddress(sent[..i], sent[i].xid)
  {
    RunKeepsSent(host, events);
  }

  /** No address other than 0.0.0.0 goes to two clients. */
  ghost predicate Exclusive(sent: seq<Sent>) {
    forall i, j | 0 <= i < |sent| && 0 <= j < |sent| && sent[i].ip == sent[j].ip && sent[i].ip != 0 ::
      sent[i].mac == sent[j].mac
  }

  /** Each client confirms only what was last offered in the transaction to itself. */
  ghost predicate ConfirmsOwnOffers(sent: seq<Sent>) {
    forall i | 0 <= i < |sent| && sent[i].kind.Acknowledged? && LastAddress(sent[..i], sent[i].xid) != 0 ::
      LastOffer(sent[..i], sent[i].xid).value.mac == sent[i].mac
  }

  lemma {:induction false} LastOfferIsSent(sent: seq<Sent>, n: nat, xid: u32)
    requires n <= |sent| && LastOffer(sent[..n], xid).Some?
    ensures exists k ::
              0 <= k < n && sent[k] == LastOffer(sent[..n], xid).value && sent[k].kind.Offered? && sent[k].xid == xid
  {
    var last := sent[..n][n - 1];
    if last.kind.Offered? && last.xid == xid {
      assert sent[n - 1] == last;
    } else {
      assert sent[..n][..n - 1] == sent[..n - 1];
      LastOfferIsSent(sent, n - 1, xid);
    }
  }

  /** Where a reply's address comes from: an offer of it, to the named client if the reply
      is itself the offer. */
  lemma SourceOffer(s: Server, i: nat) returns (k: nat)
    requires SentInv(s) && i < |s.sent| && s.sent[i].ip != 0
    ensures k <= i && s.sent[k].kind.Offered? && s.sent[k].ip == s.sent[i].ip
    ensures s.sent[i].kind.Offered? ==> k == i
    ensures s.sent[i].kind.Acknowledged? ==>
              LastOffer(s.sent[..i], s.sent[i].xid) == Some(s.sent[k]) && s.sent[k].xid == s.sent[i].xid
  {
    if s.sent[i].kind.Offered? {
      k := i;
    } else {
      LastOfferIsSent(s.sent, i, s.sent[i].xid);
      k :| 0 <= k < i && s.sent[k] == LastOffer(s.sent[..i], s.sent[i].xid).value
           && s.sent[k].kind.Offered? && s.sent[k].xid == s.sent[i].xid;
    }
  }

  /** The same condition in terms of the replies sent. */
  lemma ExclusiveBySent(host: Host, events: seq<Event>, sent: seq<Sent>)
    requires sent == SentIn(host, events)
    ensures Exclusive(sent) <==> ConfirmsOwnOffers(sent)
  {
    RunKeepsSent(host, events);
    var s := After(host, events);
    hide After, LastOffer;
    if Exclusive(sent) {
      forall i | 0 <= i < |sent| && sent[i].kind.Acknowledged? && LastAddress(sent[..i], sent[i].xid) != 0
        ensures LastOffer(sent[..i], sent[i].xid).value.mac == sent[i].mac
      {
        var k := SourceOffer(s, i);
      }
    }
    if ConfirmsOwnOffers(sent) {
      forall i, j | 0 <= i < |sent| && 0 <= j < |sent| && sent[i].ip == sent[j].ip && sent[i].ip != 0
        ensures sent[i].mac == sent[j].mac
      {
        var a := SourceOffer(s, i);
        var b := SourceOffer(s, j);
        assert sent[a].mac == s.pools[0].takenIp[sent[i].ip] == sent[b].mac;
      }
    }
  }

  // ---- Offers over a run -----------------------------------------------------------

  /** Every client that was offered an address still holds it in pool 0. */
  ghost predicate OffersHeld(s: Server) {
    forall i | 0 <= i < |s.sent| && s.sent[i].kind.Offered? ::
      s.pools != [] && PoolRuns.Holds(s.pools[0], s.sent[i].mac, s.sent[i].ip)
  }

  lemma HeldStep(host: Host, s: Server, e: Event)
    requires Sound(s) && OffersHeld(s)
    ensures OffersHeld(Next(host, s, e))
  {
    hide SentReply, PoolRuns.Inv;
    if e.Receive? {
      hide Received;
      ReceivedChanges(host, s);
      HeldAfterReceive(host, s);
    } else if e.Take? && s.pc.Taking? {
      var mac := s.pc.request.chaddr.value;
      HeldAfterTake(host, s);
    }
  }

  lemma HeldAfterReceive(host: Host, s: Server)
    requires Sound(s) && OffersHeld(s)
    ensures OffersHeld(Received(host, s))
  {
    hide Received, SentReply;
    ReceivedChanges(host, s);
    var t := Received(host, s);
    if !(t.sent == s.sent && t.xids == s.xids) {
      var x: u32, mac: Mac :|
        && t.sent == s.sent + [SentReply(host, Acknowledged, x, mac, OfferedFor(s.xids, x))]
        && t.xids == s.xids[x := OfferedFor(s.xids, x)];
      ReplyFields(host, Acknowledged, x, mac, OfferedFor(s.xids, x));
    }
  }

  lemma HeldAfterTake(host: Host, s: Server)
    requires Sound(s) && OffersHeld(s)
    ensures OffersHeld(Took(host, s))
  {
    hide SentReply, PoolRuns.Inv, Step, Reply, PoolRuns.Holds;
    if s.pc.Taking? {
      var mac := s.pc.request.chaddr.value;
      var p := s.pools[0];
      var answer := Reply(p, Get(mac));
      if answer.Granted? {
        ReplyFields(host, Offered, s.pc.request.xid, mac, answer.ip);
        GrantIsHeld(p, mac);
        forall i | 0 <= i < |s.sent| && s.sent[i].kind.Offered?
          ensures PoolRuns.Holds(Step(p, Get(mac)), s.sent[i].mac, s.sent[i].ip)
        {
          PoolRuns.StepKeepsHold(p, Get(mac), s.sent[i].mac, s.sent[i].ip);
        }
      }
    }
  }

  lemma GrantIsHeld(p: Pool, mac: Mac)
    requires Reply(p, Get(mac)).Granted?
    ensures PoolRuns.Holds(Step(p, Get(mac)), mac, Reply(p, Get(mac)).ip)
  {
  }

  lemma {:induction false} RunKeepsOffersHeld(host: Host, events: seq<Event>)
    ensures OffersHeld(After(host, events))
  {
    if events != [] {
      RunKeepsOffersHeld(host, events[..|events| - 1]);
      HeldStep(host, After(host, events[..|events| - 1]), events[|events| - 1]);
    }
  }

  /** Over every run the offers pair clients and addresses one to one: a client is always
      offered the same address, and an address is only ever offered to the same client. */
  lemma OffersAreOneToOne(host: Host, events: seq<Event>, sent: seq<Sent>, i: nat, j: nat)
    requires sent == SentIn(host, events) && i < |sent| && j < |sent|
    requires sent[i].kind.Offered? && sent[j].kind.Offered?
    ensures sent[i].mac == sent[j].mac <==> sent[i].ip == sent[j].ip
  {
    hide After;
    RunKeepsOffersHeld(host, events);
    RunKeepsSent(host, events);
  }

  // ---- Replies and the datagrams they answer -----------------------------------------

  /** The datagrams of a run, in order of arrival. */
  function Arrivals(events: seq<Event>): seq<Datagram> {
    if events == [] then []
    else
      var e := events[|events| - 1];
      Arrivals(events[..|events| - 1]) + if e.Arrival? then [e.data] else []
  }

  /** What a list of datagrams asks, in order. */
  function Requests(host: Host, ds: seq<Datagram>): seq<Asked> {
    if ds == [] then []
    else
      var a := Classify(host, ds[|ds| - 1]);
      Requests(host, ds[..|ds| - 1]) + if a.Some? then [a.value] else []
  }

  predicate Answers(r: Sent, a: Asked) {
    r.kind == (if a.kind == DISCOVER then Offered else Acknowledged) && r.xid == a.xid && r.mac == a.mac
  }

  /** The queue holds the latest arrivals; those before it were handled, and their requests
      answered in order, but for a last DISCOVER that waits for take_address or failed there. */
  ghost predicate LogInv(host: Host, s: Server, arrived: seq<Datagram>) {
    && |s.queue| <= |arrived| && s.queue == arrived[|arrived| - |s.queue|..]
    && var asked := Requests(host, arrived[..|arrived| - |s.queue|]);
    && |s.sent| <= |asked| <= |s.sent| + 1
    && (forall i | 0 <= i < |s.sent| :: Answers(s.sent[i], asked[i]))
    && (|asked| > |s.sent| ==> asked[|s.sent|].kind == DISCOVER && (s.pc.Taking? || s.pc.Down?))
    && (s.pc.Taking? ==>
          && |asked| > |s.sent| && s.pc.request.chaddr.Some?
          && asked[|s.sent|] == Asked(DISCOVER, s.pc.request.xid, s.pc.request.chaddr.value))
  }

  /** A received datagram, by what it asks. */
  lemma ReceivedByRequest(host: Host, s: Server)
    requires s.pc.Ready? && s.queue != []
    ensures var t, a := Received(host, s), Classify(host, s.queue[0]);
            && t.queue == s.queue[1..] && t.pools == s.pools
            && (a.None? ==> t.sent == s.sent && !t.pc.Taking? && t.xids == s.xids)
            && (a.Some? && a.value.kind == DISCOVER ==>
                  && t.sent == s.sent && t.pc.Taking? && t.xids == s.xids
                  && t.pc.request.xid == a.value.xid && t.pc.request.chaddr == Some(a.value.mac))
            && (a.Some? && a.value.kind == REQUEST ==>
                  var ip := OfferedFor(s.xids, a.value.xid);
                  && t.pc.Top? && t.xids == s.xids[a.value.xid := ip]
                  && t.sent == s.sent + [SentReply(host, Acknowledged, a.value.xid, a.value.mac, ip)])
            && (t.pc.Down? <==>
                  DefinedMessage(host, s.queue[0]) && DecodeMessage(host, s.queue[0]).Err?)
            && (t.pc.Top? || t.pc.Taking? || t.pc.Down?)
  {
    hide DecodeMessage, DefinedMessage, MessageType, SentReply;
    DatagramIsDefined(host, s.queue[0]);
    if DecodeMessage(host, s.queue[0]).Ok? {
      DecodedHasAddress(host, s.queue[0]);
    }
  }

  lemma RequestsMore(host: Host, ds: seq<Datagram>, n: nat)
    requires n < |ds|
    ensures var a := Classify(host, ds[n]);
            Requests(host, ds[..n + 1]) == Requests(host, ds[..n]) + if a.Some? then [a.value] else []
  {
    assert ds[..n + 1][..n] == ds[..n];
  }

  lemma LogAfterReceive(host: Host, s: Server, arrived: seq<Datagram>)
    requires Sound(s) && LogInv(host, s, arrived) && s.pc.Ready?
    ensures LogInv(host, Received(host, s), arrived)
  {
    hide Received, SentReply, Classify, Requests;
    if s.queue == [] {
      EmptyQueue(host, s);
    } else {
      var n := |arrived| - |s.queue|;
      assert s.queue[0] == arrived[n] && s.queue[1..] == arrived[n + 1..];
      ReceivedByRequest(host, s);
      RequestsMore(host, arrived, n);
      var a := Classify(host, arrived[n]);
      KindsOf(host, arrived[n]);
      if a.Some? && a.value.kind == REQUEST {
        ReplyFields(host, Acknowledged, a.value.xid, a.value.mac, OfferedFor(s.xids, a.value.xid));
      }
    }
  }

  lemma EmptyQueue(host: Host, s: Server)
    requires s.pc.Ready? && s.queue == []
    ensures Received(host, s) == s.(pc := Top)
  {
  }

  lemma KindsOf(host: Host, data: Datagram)
    ensures Classify(host, data).Some? ==>
              Classify(host, data).value.kind == DISCOVER || Classify(host, data).value.kind == REQUEST
  {
    hide Classify;
  }

  lemma LogAfterTake(host: Host, s: Server, arrived: seq<Datagram>)
    requires Sound(s) && LogInv(host, s, arrived)
    ensures LogInv(host, Took(host, s), arrived)
  {
    hide SentReply, Requests, Reply, Step, PoolRuns.Inv;
    if s.pc.Taking? {
      var answer := Reply(s.pools[0], Get(s.pc.request.chaddr.value));
      if answer.Granted? {
        ReplyFields(host, Offered, s.pc.request.xid, s.pc.request.chaddr.value, answer.ip);
      }
    }
  }

  lemma LogAfterArrival(host: Host, s: Server, arrived: seq<Datagram>, data: Datagram)
    requires LogInv(host, s, arrived)
    ensures LogInv(host, s.(queue := s.queue + [data]), arrived + [data])
  {
    hide Requests;
    var n := |arrived| - |s.queue|;
    assert (arrived + [data])[..n] == arrived[..n];
    assert (arrived + [data])[n..] == arrived[n..] + [data];
  }

  lemma LogStep(host: Host, s: Server, e: Event, arrived: seq<Datagram>)
    requires Sound(s) && LogInv(host, s, arrived)
    ensures LogInv(host, Next(host, s, e), arrived + if e.Arrival? then [e.data] else [])
  {
    hide Received, Took, PoolRuns.Inv;
    assert arrived + [] == arrived;
    match e
    case AddPool(_, _, _) =>
    case Arrival(data) => LogAfterArrival(host, s, arrived, data);
    case Look =>
    case Receive =>
      if s.pc.Ready? {
        LogAfterReceive(host, s, arrived);
      } else {
        NotReady(host, s);
      }
    case Take =>
      if !s.pc.Down? {
        LogAfterTake(host, s, arrived);
      }
  }

  lemma NotReady(host: Host, s: Server)
    requires !s.pc.Ready?
    ensures Received(host, s) == s
  {
  }

  lemma {:induction false} RunKeepsLog(host: Host, events: seq<Event>)
    ensures LogInv(host, After(host, events), Arrivals(events))
  {
    if events != [] {
      var n := |events| - 1;
      hide Next, LogInv;
      RunKeepsLog(host, events[..n]);
      LogStep(host, After(host, events[..n]), events[n], Arrivals(events[..n]));
    }
  }

  /** The requests among the datagrams that a run has taken from its queue. */
  ghost function Handled(host: Host, events: seq<Event>): seq<Asked> {
    RunKeepsLog(host, events);
    var arrived := Arrivals(events);
    Requests(host, arrived[..|arrived| - |After(host, events).queue|])
  }

  /** In every run the replies answer the handled requests one by one and in order: a DISCOVER
      by an offer and a REQUEST by an acknowledgement, to the client and under the transaction
      id of the datagram. At most one DISCOVER at the end is still without its offer. */
  lemma RepliesAnswerRequests(host: Host, events: seq<Event>, sent: seq<Sent>, asked: seq<Asked>)
    requires sent == SentIn(host, events) && asked == Handled(host, events)
    ensures |sent| <= |asked| <= |sent| + 1
    ensures forall i | 0 <= i < |sent| :: Answers(sent[i], asked[i])
    ensures |asked| > |sent| ==> asked[|sent|].kind == DISCOVER
  {
    RunKeepsLog(host, events);
  }

  /** A datagram arrived that asks this. */
  predicate Asks(host: Host, e: Event, a: Asked) {
    e.Arrival? && Classify(host, e.data) == Some(a)
  }

  lemma {:induction false} RequestFrom(host: Host, ds: seq<Datagram>, i: nat) returns (j: nat)
    requires i < |Requests(host, ds)|
    ensures j < |ds| && Classify(host, ds[j]) == Some(Requests(host, ds)[i])
  {
    hide Classify;
    var n := |ds| - 1;
    if i < |Requests(host, ds[..n])| {
      j := RequestFrom(host, ds[..n], i);
    } else {
      j := n;
    }
  }

  lemma {:induction false} ArrivalFrom(events: seq<Event>, j: nat) returns (k: nat)
    requires j < |Arrivals(events)|
    ensures k < |events| && events[k] == Arrival(Arrivals(events)[j])
  {
    var n := |events| - 1;
    if j < |Arrivals(events[..n])| {
      k := ArrivalFrom(events[..n], j);
    } else {
      k := n;
    }
  }

  lemma HandledFrom(host: Host, events: seq<Event>, i: nat) returns (k: nat)
    requires i < |Handled(host, events)|
    ensures k < |events| && Asks(host, events[k], Handled(host, events)[i])
  {
    hide Classify, After;
    RunKeepsLog(host, events);
    var arrived := Arrivals(events);
    var j := RequestFrom(host, arrived[..|arrived| - |After(host, events).queue|], i);
    k := ArrivalFrom(events, j);
  }

  /** So every reply goes back to a datagram that arrived and asks for it. */
  lemma ReplyHasArrival(host: Host, events: seq<Event>, sent: seq<Sent>, i: nat) returns (k: nat)
    requires sent == SentIn(host, events) && i < |sent|
    ensures k < |events|
    ensures Asks(host, events[k], Asked(if sent[i].kind.Offered? then DISCOVER else REQUEST, sent[i].xid, sent[i].mac))
  {
    hide Asks, Requests;
    RepliesAnswerRequests(host, events, sent, Handled(host, events));
    k := HandledFrom(host, events, i);
    HandledKinds(host, events, i);
  }

  lemma HandledKinds(host: Host, events: seq<Event>, i: nat)
    requires i < |Handled(host, events)|
    ensures Handled(host, events)[i].kind == DISCOVER || Handled(host, events)[i].kind == REQUEST
  {
    hide Handled, Classify;
    var k := HandledFrom(host, events, i);
    KindsOf(host, events[k].data);
  }

  // ---- Exclusivity in terms of the datagrams ----------------------------------------------

  /** Each transaction id is used by one client only, in the datagrams that arrive. */
  ghost predicate OwnIds(host: Host, events: seq<Event>) {
    forall k, l, a, b | 0 <= k < |events| && 0 <= l < |events| && Asks(host, events[k], a) && Asks(host, events[l], b) ::
      a.xid == b.xid ==> a.mac == b.mac
  }

  /** Then no nonzero address is offered or acknowledged to two clients. */
  lemma ExclusiveWhenIdsAreOwn(host: Host, events: seq<Event>, sent: seq<Sent>)
    requires sent == SentIn(host, events) && OwnIds(host, events)
    ensures Exclusive(sent)
  {
    hide Asks, SentIn;
    forall i, j | 0 <= i < |sent| && 0 <= j < |sent| && sent[i].xid == sent[j].xid
      ensures sent[i].mac == sent[j].mac
    {
      var k := ReplyHasArrival(host, events, sent, i);
      var l := ReplyHasArrival(host, events, sent, j);
    }
    OwnRepliesConfirm(host, events, sent);
    ExclusiveBySent(host, events, sent);
  }

  lemma OwnRepliesConfirm(host: Host, events: seq<Event>, sent: seq<Sent>)
    requires sent == SentIn(host, events)
    requires forall i, j | 0 <= i < |sent| && 0 <= j < |sent| && sent[i].xid == sent[j].xid :: sent[i].mac == sent[j].mac
    ensures ConfirmsOwnOffers(sent)
  {
    RunKeepsSent(host, events);
    var s := After(host, events);
    hide After;
    forall i | 0 <= i < |sent| && sent[i].kind.Acknowledged? && LastAddress(sent[..i], sent[i].xid) != 0
      ensures LastOffer(sent[..i], sent[i].xid).value.mac == sent[i].mac
    {
      var k := SourceOffer(s, i);
    }
  }

  /** The latest DISCOVER with this transaction id. */
  function LastDiscover(asked: seq<Asked>, xid: u32): Option<Asked> {
    if asked == [] then None
    else
      var last := asked[|asked| - 1];
      if last.kind == DISCOVER && last.xid == xid then Some(last) else LastDiscover(asked[..|asked| - 1], xid)
  }

  /** The address pool 0 leases to a client, 0.0.0.0 if none. */
  function LeaseOf(s: Server, mac: Mac): u32 {
    if s.pools != [] && mac in s.pools[0].takenMac then s.pools[0].takenMac[mac] else 0
  }

  /** Every handled REQUEST comes from the client whose DISCOVER was the latest before it with
      its transaction id, unless there is none or that client has no address but 0.0.0.0. */
  predicate ConfirmsOwnDiscovers(s: Server, asked: seq<Asked>) {
    forall i | 0 <= i < |asked| && asked[i].kind == REQUEST ::
      var d := LastDiscover(asked[..i], asked[i].xid);
      d.Some? && LeaseOf(s, d.value.mac) != 0 ==> d.value.mac == asked[i].mac
  }

  lemma {:induction false} LastMatches(sent: seq<Sent>, asked: seq<Asked>, n: nat, xid: u32)
    requires n <= |sent| <= |asked| && forall i | 0 <= i < |sent| :: Answers(sent[i], asked[i])
    ensures var r, a := LastOffer(sent[..n], xid), LastDiscover(asked[..n], xid);
            && (r.Some? <==> a.Some?)
            && (r.Some? ==> && r.value.mac == a.value.mac
                            && exists k :: 0 <= k < n && sent[k] == r.value && sent[k].kind.Offered?)
  {
    if n > 0 {
      assert sent[..n][..n - 1] == sent[..n - 1] && asked[..n][..n - 1] == asked[..n - 1];
      assert Answers(sent[n - 1], asked[n - 1]);
      LastMatches(sent, asked, n - 1, xid);
    }
  }

  lemma ConditionsMatch(s: Server, asked: seq<Asked>, i: nat)
    requires OffersHeld(s) && i < |s.sent| <= |asked| && forall j | 0 <= j < |s.sent| :: Answers(s.sent[j], asked[j])
    ensures var x, d := asked[i].xid, LastDiscover(asked[..i], asked[i].xid);
            && (LastAddress(s.sent[..i], x) != 0 <==> d.Some? && LeaseOf(s, d.value.mac) != 0)
            && (d.Some? ==> LastOffer(s.sent[..i], x).Some? && LastOffer(s.sent[..i], x).value.mac == d.value.mac)
  {
    hide LastOffer, LastDiscover;
    LastMatches(s.sent, asked, i, asked[i].xid);
    var r := LastOffer(s.sent[..i], asked[i].xid);
    if r.Some? {
      var k :| 0 <= k < i && s.sent[k] == r.value && s.sent[k].kind.Offered?;
      assert PoolRuns.Holds(s.pools[0], s.sent[k].mac, s.sent[k].ip);
    }
  }

  lemma OffersFromDiscovers(s: Server, asked: seq<Asked>)
    requires OffersHeld(s) && |s.sent| <= |asked| && forall j | 0 <= j < |s.sent| :: Answers(s.sent[j], asked[j])
    requires ConfirmsOwnDiscovers(s, asked)
    requires forall i | 0 <= i < |asked| :: asked[i].kind == DISCOVER || asked[i].kind == REQUEST
    ensures ConfirmsOwnOffers(s.sent)
  {
    hide LastOffer, LastDiscover, OffersHeld, LeaseOf;
    var sent := s.sent;
    forall i | 0 <= i < |sent| && sent[i].kind.Acknowledged? && LastAddress(sent[..i], sent[i].xid) != 0
      ensures LastOffer(sent[..i], sent[i].xid).value.mac == sent[i].mac
    {
      assert Answers(sent[i], asked[i]);
      ConditionsMatch(s, asked, i);
    }
  }

  lemma DiscoversFromOffers(s: Server, asked: seq<Asked>)
    requires OffersHeld(s) && |s.sent| <= |asked| && forall j | 0 <= j < |s.sent| :: Answers(s.sent[j], asked[j])
    requires forall i | |s.sent| <= i < |asked| :: asked[i].kind == DISCOVER
    requires ConfirmsOwnOffers(s.sent)
    ensures ConfirmsOwnDiscovers(s, asked)
  {
    hide LastOffer, LastDiscover, OffersHeld, LeaseOf;
    var sent := s.sent;
    forall i | 0 <= i < |asked| && asked[i].kind == REQUEST
      ensures var d := LastDiscover(asked[..i], asked[i].xid);
              d.Some? && LeaseOf(s, d.value.mac) != 0 ==> d.value.mac == asked[i].mac
    {
      assert i < |sent|;
      assert Answers(sent[i], asked[i]);
      ConditionsMatch(s, asked, i);
    }
  }

  /** In every run, no nonzero address is offered or acknowledged to two clients exactly when
      every handled REQUEST confirms its own client's DISCOVER. */
  lemma ExclusiveExactly(host: Host, events: seq<Event>, sent: seq<Sent>, asked: seq<Asked>)
    requires sent == SentIn(host, events) && asked == Handled(host, events)
    ensures Exclusive(sent) <==> ConfirmsOwnDiscovers(After(host, events), asked)
  {
    ExclusiveBySent(host, events, sent);
    RepliesAnswerRequests(host, events, sent, asked);
    RunKeepsOffersHeld(host, events);
    var s := After(host, events);
    hide After, Handled, Exclusive, OffersHeld, Answers, ConfirmsOwnOffers, ConfirmsOwnDiscovers;
    forall i | 0 <= i < |asked| ensures asked[i].kind == DISCOVER || asked[i].kind == REQUEST {
      HandledKinds(host, events, i);
    }
    if ConfirmsOwnOffers(sent) {
      DiscoversFromOffers(s, asked);
    }
    if ConfirmsOwnDiscovers(s, asked) {
      OffersFromDiscovers(s, asked);
    }
  }

  /** Every handled REQUEST comes from the client of the latest DISCOVER before it with its
      transaction id, if there is one. */
  predicate ConfirmsDatagrams(asked: seq<Asked>) {
    forall i | 0 <= i < |asked| && asked[i].kind == REQUEST ::
      var d := LastDiscover(asked[..i], asked[i].xid);
      d.Some? ==> d.value.mac == asked[i].mac
  }

  /** An offered lease is in the range of pool 0. */
  lemma OfferedLease(s: Server, asked: seq<Asked>, i: nat)
    requires Sound(s) && OffersHeld(s) && SentInv(s) && i < |s.sent| <= |asked|
    requires forall j | 0 <= j < |s.sent| :: Answers(s.sent[j], asked[j])
    requires s.pools != [] ==> s.pools[0].first > 0
    ensures var d := LastDiscover(asked[..i], asked[i].xid);
            d.Some? ==> LeaseOf(s, d.value.mac) != 0
  {
    hide LastOffer, LastDiscover;
    LastMatches(s.sent, asked, i, asked[i].xid);
    var r := LastOffer(s.sent[..i], asked[i].xid);
    if r.Some? {
      var k :| 0 <= k < i && s.sent[k] == r.value && s.sent[k].kind.Offered?;
      assert PoolRuns.Holds(s.pools[0], s.sent[k].mac, s.sent[k].ip);
      assert s.sent[k].ip in s.pools[0].takenIp;
    }
  }

  lemma DiscoverersLease(host: Host, events: seq<Event>, asked: seq<Asked>, i: nat)
    requires asked == Handled(host, events) && i < |asked| && asked[i].kind == REQUEST
    requires After(host, events).pools != [] ==> After(host, events).pools[0].first > 0
    ensures var d := LastDiscover(asked[..i], asked[i].xid);
            d.Some? ==> LeaseOf(After(host, events), d.value.mac) != 0
  {
    hide After, Handled, OffersHeld, SentInv, Sound, Answers, LastDiscover, LeaseOf;
    RunKeepsOffersHeld(host, events);
    RunKeepsSent(host, events);
    RepliesAnswerRequests(host, events, SentIn(host, events), asked);
    var s := After(host, events);
    assert i < |s.sent|;
    OfferedLease(s, asked, i);
  }

  /** When pool 0 starts above 0.0.0.0 the condition is one on the handled datagrams alone. */
  lemma ExclusiveByDatagrams(host: Host, events: seq<Event>, sent: seq<Sent>, asked: seq<Asked>)
    requires sent == SentIn(host, events) && asked == Handled(host, events)
    requires After(host, events).pools != [] ==> After(host, events).pools[0].first > 0
    ensures Exclusive(sent) <==> ConfirmsDatagrams(asked)
  {
    hide SentIn, After, Handled, Exclusive, LastDiscover, LeaseOf;
    ExclusiveExactly(host, events, sent, asked);
    forall i | 0 <= i < |asked| && asked[i].kind == REQUEST
      ensures var d := LastDiscover(asked[..i], asked[i].xid);
              d.Some? ==> LeaseOf(After(host, events), d.value.mac) != 0
    {
      DiscoverersLease(host, events, asked, i);
    }
  }

  // ---- When the server ends ---------------------------------------------------------------

  /** The two exceptions that nothing catches: a received datagram that has not the form the
      decoder accepts, and a DISCOVER for which pool 0 has nothing. */
  ghost predicate Ends(s: Server, e: Event) {
    || (e.Receive? && s.pc.Ready? && s.queue != [] && !MessageCodec.AcceptableDatagram(s.queue[0]))
    || (e.Take? && s.pc.Taking? && s.pools != [] && s.pc.request.chaddr.Some?
        && var p, mac := s.pools[0], s.pc.request.chaddr.value;
        && mac !in p.reservedMac && mac !in p.takenMac
        && forall ip | ip in p.included :: ip in p.reservedIp || ip in p.takenIp)
  }

  lemma EndsExactly(host: Host, s: Server, e: Event)
    requires Sound(s)
    ensures Next(host, s, e).pc.Down? <==> s.pc.Down? || Ends(s, e)
  {
    hide Received, SentReply, DecodeMessage, DefinedMessage, PoolRuns.Inv, MessageCodec.AcceptableDatagram;
    if e.Receive? && s.pc.Ready? {
      if s.queue == [] {
        EmptyQueue(host, s);
      } else {
        ReceivedByRequest(host, s);
        DatagramIsDefined(host, s.queue[0]);
        MessageCodec.DatagramAcceptedExactly(host, s.queue[0]);
      }
    } else if e.Receive? {
      NotReady(host, s);
    }
    if e.Take? && s.pc.Taking? {
      PoolRuns.GetSpecification(s.pools[0], s.pc.request.chaddr.value);
    }
  }

  lemma EndsEarlier(host: Host, events: seq<Event>)
    requires events != []
    ensures var n := |events| - 1;
            (exists k :: 0 <= k < |events| && Ends(After(host, events[..k]), events[k]))
            <==> (exists k :: 0 <= k < n && Ends(After(host, events[..n][..k]), events[..n][k]))
                 || Ends(After(host, events[..n]), events[n])
  {
    hide After, Ends;
    var n := |events| - 1;
    assert forall k | 0 <= k < n :: events[..n][..k] == events[..k] && events[..n][k] == events[k];
    if exists k :: 0 <= k < n && Ends(After(host, events[..n][..k]), events[..n][k]) {
      var k :| 0 <= k < n && Ends(After(host, events[..n][..k]), events[..n][k]);
      assert Ends(After(host, events[..k]), events[k]);
    }
  }

  /** A run has ended exactly when one of its steps met one of the two. */
  lemma {:induction false} DownExactly(host: Host, events: seq<Event>)
    ensures After(host, events).pc.Down? <==>
            exists k :: 0 <= k < |events| && Ends(After(host, events[..k]), events[k])
  {
    hide Next, Ends, Sound;
    if events != [] {
      var n := |events| - 1;
      EndsExactly(host, After(host, events[..n]), events[n]);
      assert After(host, events) == Next(host, After(host, events[..n]), events[n]);
      hide After;
      DownExactly(host, events[..n]);
      EndsEarlier(host, events);
    }
  }

  /** A run that one datagram of a single byte ends. */
  lemma ShortDatagramEnds(host: Host)
    ensures After(host, [AddPool(10, 10, []), Arrival([0]), Look, Receive]).pc.Down?
  {
    hide PoolRuns.Inv;
    var data: Datagram := [0];
    var events := [AddPool(10, 10, []), Arrival(data), Look, Receive];
    assert events[..4] == events && events[..3][..2] == events[..2] && events[..2][..1] == events[..1];
    assert events[..1][..0] == [];
    assert After(host, []) == INITIAL;
    var s1, s2, s3 := After(host, events[..1]), After(host, events[..2]), After(host, events[..3]);
    assert s1 == WithPool(INITIAL, Submitted(events[0]));
    assert s2 == s1.(queue := [data]);
    assert s3 == s2.(pc := Ready);
  }
}
