/** Whole exchanges between a client and the server, from datagram to datagram. */
module Exchanges {
  import opened Wrappers
  import opened Words
  import opened IpAddresses
  import opened DhcpOptions
  import opened DhcpMessages
  import opened MessageCodec
  import opened AddressPools
  import opened DhcpServers
  import opened ServerRuns
  import OptionCodec
  import PoolRuns

  // ---- What a client sends -----------------------------------------------------

  /** A minimal request: a client address, a transaction id and the message type option. */
  function ClientMessage(kind: byte, xid: u32, mac: Mac): Message
    requires 1 <= kind <= 8
  {
    MessageTypeParses(Big, kind);
    Message(BOOTREQUEST, ETHERNET, 6, 0, xid, 0, 0,
            [0, 0, 0, 0], [0, 0, 0, 0], [0, 0, 0, 0], [0, 0, 0, 0],
            Some(mac), [], [], [OptionFrom(Big, 53, [kind])])
  }

  lemma MessageTypeParsed(kind: byte)
    requires 1 <= kind <= 8
    ensures Parses(Big, 53, [kind])
    ensures var o := OptionFrom(Big, 53, [kind]);
            Parsed(Big, o) && o.values == [U8(kind)] && o.description.code == 53
  {
    MessageTypeParses(Big, kind);
    OptionCodec.MessageTypeIsOneByte(Big, [kind]);
    hide DecodeValues;
    assert HasNoFlag(OptionFrom(Big, 53, [kind]));
    DecodedIsParsed(Big, 53, [kind]);
  }

  lemma ClientMessageParses(kind: byte, xid: u32, mac: Mac)
    requires 1 <= kind <= 8
    ensures var m := ClientMessage(kind, xid, mac);
            && Sendable(m)
            && DefinedMessage(Big, EncodeMessage(Big, m))
            && DecodeMessage(Big, EncodeMessage(Big, m)) == Ok(Normal(m))
            && m.options[0].values == [U8(kind)] && m.options[0].description.code == 53
  {
    hide OptionFrom, EncodeOptions, EncodeHeader, DecodeArea, WellFormed, Parsed, EncodeMessage, DecodeMessage, Header;
    var m := ClientMessage(kind, xid, mac);
    MessageTypeParsed(kind);
    ParsedCode(Big, m.options[0]);
    ParsedIsEmittable(Big, m.options);
    AreaRoundTrip(Big, m.options);
    ReparseMessage(Big, m);
  }

  function ClientDatagram(kind: byte, xid: u32, mac: Mac): Datagram
    requires 1 <= kind <= 8
  {
    ClientMessageParses(kind, xid, mac);
    EncodeMessage(Big, ClientMessage(kind, xid, mac))
  }

  lemma ClientDatagramAsks(host: Host, kind: byte, xid: u32, mac: Mac)
    requires kind == DISCOVER || kind == REQUEST
    ensures Classify(host, ClientDatagram(kind, xid, mac)) == Some(Asked(kind, xid, mac))
  {
    hide DecodeMessage, DefinedMessage, EncodeMessage;
    ClientMessageParses(kind, xid, mac);
    DatagramIsDefined(host, ClientDatagram(kind, xid, mac));
    DecodedHasAddress(host, ClientDatagram(kind, xid, mac));
    ClientTypeReads(host, kind, xid, mac);
  }

  lemma ClientTypeReads(host: Host, kind: byte, xid: u32, mac: Mac)
    requires 1 <= kind <= 8
    requires DefinedMessage(host, ClientDatagram(kind, xid, mac))
    requires DecodeMessage(host, ClientDatagram(kind, xid, mac)) == Ok(Normal(ClientMessage(kind, xid, mac)))
    ensures MessageType(host, ClientDatagram(kind, xid, mac)) == Some(kind)
  {
    hide DecodeMessage, DefinedMessage, EncodeMessage;
    ClientMessageParses(kind, xid, mac);
  }

  // ---- One exchange ---------------------------------------------------------------

  ghost function Steps(host: Host, s: Server, events: seq<Event>): (t: Server)
    requires Sound(s)
    ensures Sound(t)
    decreases |events|
  {
    if events == [] then s
    else
      SoundStep(host, s, events[0]);
      Steps(host, Next(host, s, events[0]), events[1..])
  }

  lemma OneStep(host: Host, s: Server, e: Event)
    requires Sound(s)
    ensures Sound(Next(host, s, e)) && Steps(host, s, [e]) == Next(host, s, e)
  {
    hide Next, Sound;
    SoundStep(host, s, e);
    assert [e][1..] == [];
  }

  lemma {:induction false} StepsTwice(host: Host, s: Server, a: seq<Event>, b: seq<Event>)
    requires Sound(s)
    ensures Steps(host, s, a + b) == Steps(host, Steps(host, s, a), b)
    decreases |a|
  {
    hide Next, Sound;
    if a == [] {
      assert a + b == b;
    } else {
      SoundStep(host, s, a[0]);
      StepsTwice(host, Next(host, s, a[0]), a[1..], b);
      assert (a + b)[1..] == a[1..] + b;
    }
  }

  lemma {:induction false} StepsAreRun(host: Host, before: seq<Event>, events: seq<Event>)
    ensures Steps(host, After(host, before), events) == After(host, before + events)
    decreases |events|
  {
    hide Next, Sound;
    if events == [] {
      assert before + events == before;
    } else {
      var more := before + [events[0]];
      assert more[..|more| - 1] == before;
      StepsAreRun(host, more, events[1..]);
      assert more + events[1..] == before + events;
    }
  }

  /** What other threads do between two pieces of the main loop. */
  predicate Quiet(events: seq<Event>) {
    forall i | 0 <= i < |events| :: events[i].Arrival? || events[i].AddPool?
  }

  /** What they leave alone. */
  ghost predicate SameLoop(s: Server, t: Server) {
    && t.pc == s.pc && t.xids == s.xids && t.sent == s.sent
    && s.queue <= t.queue
    && s.pools != [] && t.pools != [] && t.pools[0] == s.pools[0]
  }

  lemma {:induction false} QuietKeeps(host: Host, s: Server, quiet: seq<Event>)
    requires Sound(s) && Quiet(quiet) && s.pools != []
    ensures SameLoop(s, Steps(host, s, quiet))
    decreases |quiet|
  {
    hide Sound, Submitted;
    if quiet != [] {
      SoundStep(host, s, quiet[0]);
      QuietKeeps(host, Next(host, s, quiet[0]), quiet[1..]);
    }
  }

  /** Some quiet events, then one step of the loop. */
  lemma QuietThen(host: Host, s: Server, quiet: seq<Event>, e: Event)
    requires Sound(s) && Quiet(quiet) && s.pools != []
    ensures SameLoop(s, Steps(host, s, quiet))
    ensures Steps(host, s, quiet + [e]) == Next(host, Steps(host, s, quiet), e)
  {
    hide Next, Sound, SameLoop;
    QuietKeeps(host, s, quiet);
    StepsTwice(host, s, quiet, [e]);
    OneStep(host, Steps(host, s, quiet), e);
  }

  /** The loop's pieces for a DISCOVER and for a REQUEST, with quiet events before each. */
  function DiscoverPass(n0: seq<Event>, n1: seq<Event>, n2: seq<Event>): seq<Event> {
    (n0 + [Look]) + (n1 + [Receive]) + (n2 + [Take])
  }

  function RequestPass(n0: seq<Event>, n1: seq<Event>): seq<Event> {
    (n0 + [Look]) + (n1 + [Receive])
  }

  /** The server is at the top of its loop, and after the first quiet events the datagram at
      the head of its queue asks `a`. */
  ghost predicate Faces(host: Host, s: Server, n0: seq<Event>, a: Asked)
    requires Sound(s)
  {
    && s.pc.Top? && s.pools != [] && Quiet(n0)
    && Steps(host, s, n0).queue != []
    && Classify(host, Steps(host, s, n0).queue[0]) == Some(a)
  }

  lemma PassToReceive(host: Host, s: Server, n0: seq<Event>, n1: seq<Event>, a: Asked)
    requires Sound(s) && Faces(host, s, n0, a) && Quiet(n1)
    ensures var r := Steps(host, s, (n0 + [Look]) + n1);
            && SameLoop(s.(pc := Ready), r)
            && r.queue != [] && Classify(host, r.queue[0]) == Some(a)
            && Sound(r) && Steps(host, s, RequestPass(n0, n1)) == Received(host, r)
  {
    hide Received, Classify, PoolRuns.Inv, Steps;
    QuietThen(host, s, n0, Look);
    var s0 := Steps(host, s, n0);
    var s1 := Steps(host, s, n0 + [Look]);
    assert s1 == s0.(pc := Ready);
    StepsTwice(host, s, n0 + [Look], n1);
    QuietThen(host, s1, n1, Receive);
    StepsTwice(host, s, n0 + [Look], n1 + [Receive]);
  }

  /** A DISCOVER at the head of the queue is answered, whatever arrives or is added in
      between, with an offer of the address that the pool gives the client. */
  lemma DiscoverIsOffered(host: Host, s: Server, a: Asked, n0: seq<Event>, n1: seq<Event>, n2: seq<Event>)
    requires Sound(s) && Faces(host, s, n0, a) && Quiet(n1) && Quiet(n2)
    requires a.kind == DISCOVER && Reply(s.pools[0], Get(a.mac)).Granted?
    ensures var t, ip := Steps(host, s, DiscoverPass(n0, n1, n2)), Reply(s.pools[0], Get(a.mac)).ip;
            && t.pc.Top? && t.pools != []
            && t.sent == s.sent + [SentReply(host, Offered, a.xid, a.mac, ip)]
            && t.xids == s.xids[a.xid := ip]
            && t.pools[0] == Step(s.pools[0], Get(a.mac))
  {
    hide Received, Classify, PoolRuns.Inv, Steps, SentReply, Reply, Step;
    PassToReceive(host, s, n0, n1, a);
    var r := Steps(host, s, (n0 + [Look]) + n1);
    var s2 := Steps(host, s, RequestPass(n0, n1));
    ReceivedByRequest(host, r);
    QuietThen(host, s2, n2, Take);
    StepsTwice(host, s, RequestPass(n0, n1), n2 + [Take]);
  }

  /** A REQUEST at the head of the queue is acknowledged, whatever arrives or is added in
      between, with what was last offered under its transaction id. */
  lemma RequestIsAcknowledged(host: Host, s: Server, a: Asked, n0: seq<Event>, n1: seq<Event>)
    requires Sound(s) && Faces(host, s, n0, a) && Quiet(n1) && a.kind == REQUEST
    ensures var t, ip := Steps(host, s, RequestPass(n0, n1)), OfferedFor(s.xids, a.xid);
            && t.pc.Top? && t.pools != [] && t.pools[0] == s.pools[0]
            && t.sent == s.sent + [SentReply(host, Acknowledged, a.xid, a.mac, ip)]
            && t.xids == s.xids[a.xid := ip]
  {
    hide Received, Classify, PoolRuns.Inv, Steps, SentReply;
    PassToReceive(host, s, n0, n1, a);
    ReceivedByRequest(host, Steps(host, s, (n0 + [Look]) + n1));
  }

  /** A DISCOVER for which the pool has no address ends the server. */
  lemma RefusedDiscoverEnds(host: Host, s: Server, a: Asked, n0: seq<Event>, n1: seq<Event>, n2: seq<Event>)
    requires Sound(s) && Faces(host, s, n0, a) && Quiet(n1) && Quiet(n2)
    requires a.kind == DISCOVER && !Reply(s.pools[0], Get(a.mac)).Granted?
    ensures var t := Steps(host, s, DiscoverPass(n0, n1, n2)); t.pc.Down? && t.sent == s.sent
  {
    hide Received, Classify, PoolRuns.Inv, Steps, SentReply, Reply, Step;
    PassToReceive(host, s, n0, n1, a);
    var r := Steps(host, s, (n0 + [Look]) + n1);
    var s2 := Steps(host, s, RequestPass(n0, n1));
    ReceivedByRequest(host, r);
    QuietThen(host, s2, n2, Take);
    StepsTwice(host, s, RequestPass(n0, n1), n2 + [Take]);
  }

  /** A run that a client's DISCOVER ends, because the only address was excluded. */
  lemma EmptyPoolEnds(host: Host, mac: Mac)
    ensures var discover := Arrival(ClientDatagram(DISCOVER, 7, mac));
            After(host, [AddPool(10, 10, [Exclude(10)])] + DiscoverPass([discover], [], [])).pc.Down?
  {
    hide ClientDatagram, Steps, Classify, Received;
    var add := AddPool(10, 10, [Exclude(10)]);
    var p := Fresh(10, 10);
    assert [add][..0] == [] && [Exclude(10)][..0] == [];
    assert After(host, []) == INITIAL;
    var q := Step(p, Exclude(10));
    assert Submitted(add) == q;
    var s := After(host, [add]);
    assert s == WithPool(INITIAL, q);
    assert s.pools == [] + [q];
    PoolRuns.GetSpecification(q, mac);
    assert q.included == {};
    ArrivalFaces(host, s, Asked(DISCOVER, 7, mac));
    RefusedDiscoverEnds(host, s, Asked(DISCOVER, 7, mac), [Arrival(ClientDatagram(DISCOVER, 7, mac))], [], []);
    StepsAreRun(host, [add], DiscoverPass([Arrival(ClientDatagram(DISCOVER, 7, mac))], [], []));
  }

  /** A DISCOVER and then a REQUEST under one transaction id: the offer and the acknowledgement
      carry the same address, the one the pool leases to the discoverer, even if the REQUEST
      comes from another client. */
  lemma ExchangeAgrees(host: Host, s: Server, d: Asked, r: Asked, discover: seq<Event>, request: seq<Event>,
                       n0: seq<Event>, n1: seq<Event>, n2: seq<Event>, n3: seq<Event>, n4: seq<Event>)
    requires Sound(s) && Faces(host, s, n0, d) && Quiet(n1) && Quiet(n2) && Quiet(n4)
    requires d.kind == DISCOVER && r.kind == REQUEST && d.xid == r.xid && Reply(s.pools[0], Get(d.mac)).Granted?
    requires discover == DiscoverPass(n0, n1, n2) && request == RequestPass(n3, n4)
    requires Faces(host, Steps(host, s, discover), n3, r)
    ensures var ip := Reply(s.pools[0], Get(d.mac)).ip;
            Steps(host, s, discover + request).sent ==
              s.sent + [SentReply(host, Offered, d.xid, d.mac, ip), SentReply(host, Acknowledged, r.xid, r.mac, ip)]
  {
    hide SentReply, Next, Reply, Step, Faces, Steps, Sound;
    DiscoverIsOffered(host, s, d, n0, n1, n2);
    RequestIsAcknowledged(host, Steps(host, s, discover), r, n3, n4);
    StepsTwice(host, s, discover, request);
  }

  /** Two datagrams that arrive when the server is idle. */
  ghost function Exchange(xid: u32, discoverer: Mac, requester: Mac): seq<Event> {
    DiscoverPass([Arrival(ClientDatagram(DISCOVER, xid, discoverer))], [], [])
    + RequestPass([Arrival(ClientDatagram(REQUEST, xid, requester))], [])
  }

  lemma ArrivalFaces(host: Host, s: Server, a: Asked)
    requires Sound(s) && s.pc.Top? && s.pools != [] && s.queue == [] && (a.kind == DISCOVER || a.kind == REQUEST)
    ensures Faces(host, s, [Arrival(ClientDatagram(a.kind, a.xid, a.mac))], a)
  {
    hide Classify, ClientDatagram, Sound;
    var d := ClientDatagram(a.kind, a.xid, a.mac);
    OneStep(host, s, Arrival(d));
    ClientDatagramAsks(host, a.kind, a.xid, a.mac);
    assert s.queue + [d] == [d];
  }

  /** The queue after a DISCOVER that arrived alone. */
  lemma QueueEmptied(host: Host, s: Server, a: Asked)
    requires Sound(s) && s.pc.Top? && s.pools != [] && s.queue == [] && a.kind == DISCOVER
    requires Reply(s.pools[0], Get(a.mac)).Granted?
    ensures Steps(host, s, DiscoverPass([Arrival(ClientDatagram(a.kind, a.xid, a.mac))], [], [])).queue == []
  {
    hide Classify, ClientDatagram, PoolRuns.Inv, Received, Reply, Step, SentReply, Steps;
    var d := ClientDatagram(a.kind, a.xid, a.mac);
    ArrivalFaces(host, s, a);
    PassToReceive(host, s, [Arrival(d)], [], a);
    OneStep(host, s, Arrival(d));
    QuietThen(host, s, [Arrival(d)], Look);
    StepsTwice(host, s, [Arrival(d)] + [Look], []);
    assert ([Arrival(d)] + [Look]) + [] == [Arrival(d)] + [Look];
    var r := Steps(host, s, ([Arrival(d)] + [Look]) + []);
    assert r.queue == [d];
    ReceivedByRequest(host, r);
    var s2 := Steps(host, s, RequestPass([Arrival(d)], []));
    StepsTwice(host, s, RequestPass([Arrival(d)], []), [] + [Take]);
    assert [] + [Take] == [Take];
    OneStep(host, s2, Take);
  }

  /** A run in which two clients share a transaction id and one address goes to both. */
  lemma SharedIdBreaksExclusivity(host: Host)
    ensures var events := [AddPool(10, 10, [])] + Exchange(7, [0, 0, 0, 0, 0, 1], [0, 0, 0, 0, 0, 2]);
            !Exclusive(SentIn(host, events))
  {
    hide SentReply, ClientDatagram;
    var a: Mac, b: Mac := [0, 0, 0, 0, 0, 1], [0, 0, 0, 0, 0, 2];
    var add := AddPool(10, 10, []);
    var p := Fresh(10, 10);
    assert [add][..0] == [];
    assert After(host, []) == INITIAL;
    assert Submitted(add) == p;
    var s := After(host, [add]);
    assert s == WithPool(INITIAL, p);
    assert s.pools == [] + [p];
    PoolRuns.GetSpecification(p, a);
    assert 10 in p.included;
    SharedExchange(host, s, a, b);
    StepsAreRun(host, [add], Exchange(7, a, b));
    var ip := Reply(p, Get(a)).ip;
    ReplyFields(host, Offered, 7, a, ip);
    ReplyFields(host, Acknowledged, 7, b, ip);
    var sent := After(host, [add] + Exchange(7, a, b)).sent;
    assert sent[0].ip == sent[1].ip && sent[0].mac[5] != sent[1].mac[5];
  }

  lemma SharedExchange(host: Host, s: Server, a: Mac, b: Mac)
    requires Sound(s) && s.pc.Top? && s.pools != [] && s.queue == [] && Reply(s.pools[0], Get(a)).Granted?
    ensures var ip := Reply(s.pools[0], Get(a)).ip;
            Steps(host, s, Exchange(7, a, b)).sent ==
              s.sent + [SentReply(host, Offered, 7, a, ip), SentReply(host, Acknowledged, 7, b, ip)]
  {
    hide SentReply, ClientDatagram, Steps, Faces, Reply, Step, Sound;
    var d, r := Asked(DISCOVER, 7, a), Asked(REQUEST, 7, b);
    var n0, n3 := [Arrival(ClientDatagram(DISCOVER, 7, a))], [Arrival(ClientDatagram(REQUEST, 7, b))];
    ArrivalFaces(host, s, d);
    DiscoverIsOffered(host, s, d, n0, [], []);
    QueueEmptied(host, s, d);
    ArrivalFaces(host, Steps(host, s, DiscoverPass(n0, [], [])), r);
    ExchangeAgrees(host, s, d, r, DiscoverPass(n0, [], []), RequestPass(n3, []), n0, [], [], n3, []);
  }

  // ---- What a client reads ------------------------------------------------------------

  /** In every reply the bytes of the fields of section 2 of RFC 2131 name the transaction,
      the client and the address: xid at 4, yiaddr at 16, siaddr at 20, chaddr at 28. */
  lemma ReplyOnWire(host: Host, kind: SentKind, xid: u32, mac: Mac, ip: u32)
    ensures var wire := SentReply(host, kind, xid, mac, ip).wire;
            && |wire| >= 240 && wire[236..240] == COOKIE
            && wire[0] == BOOTREPLY && wire[1] == ETHERNET && wire[2] == 6
            && wire[4..8] == Network32(xid)
            && wire[16..20] == Network32(ip) && ToUint32(host, wire[16..20]) == ip
            && wire[20..24] == SERVER_ADDRESS
            && wire[28..34] == mac && wire[34..44] == Zeros(10)
  {
    hide EncodeHeader, EncodeOptions, ReplyOptions, EmittedArea, Network32, BigEndian32;
    var code := if kind.Offered? then OFFER else ACK;
    var m := ReplyMessage(host, code, xid, mac, ip);
    ReplyIsSendable(host, code, xid, mac, ip);
    EncodedShape(host, m);
    HeaderSlices(m);
    AddressSlices(m);
    var h, rest := EncodeHeader(m), COOKIE + EmittedArea(host, m.options);
    Slice(h, rest, 4, 8);
    Slice(h, rest, 16, 20);
    Slice(h, rest, 20, 24);
    Slice(h, rest, 28, 34);
    Slice(h, rest, 34, 44);
    Network32Inverse([0, 0, 0, 0], ip);
  }

  const SWAPPED_LEASE_SECONDS: u32 := 0x8051_0100

  /** The lease bytes as the host emits them. */
  function LeaseOnWire(host: Host): seq<byte> {
    if host.Big? then LEASE_BYTES else [0x80, 0x51, 1, 0]
  }

  function ReplyItems(host: Host, kind: byte): seq<Item>
    requires 1 <= kind <= 8
  {
    MessageTypeParses(host, kind);
    [Tlv(53, [kind]), Tlv(1, [255, 255, 255, 0]), Tlv(3, SERVER_ADDRESS), Tlv(51, LeaseOnWire(host))]
  }

  lemma OptionOnWire(host: Host, code: byte, p: seq<byte>)
    requires |p| < 0x100 && Parses(host, code, p) && !Describe(code).value.kind.Boolean?
    ensures Aligned(Describe(code).value.kind, |p|)
    ensures var o := OptionFrom(host, code, p);
            && AllEmittable(o.values)
            && EncodeOption(host, o) == [code, |p|] + OptionCodec.Wire(host, Describe(code).value.kind, p)
  {
    OptionCodec.OptionRoundTrip(host, host, code, p);
  }

  /** Only the lease time is an integer of more than one byte. */
  lemma PayloadsOnWire(host: Host, kind: byte)
    requires 1 <= kind <= 8
    ensures OptionCodec.Wire(host, Describe(53).value.kind, [kind]) == [kind]
    ensures OptionCodec.Wire(host, Describe(1).value.kind, [255, 255, 255, 0]) == [255, 255, 255, 0]
    ensures OptionCodec.Wire(host, Describe(3).value.kind, SERVER_ADDRESS) == SERVER_ADDRESS
    ensures OptionCodec.Wire(host, Describe(51).value.kind, LEASE_BYTES) == LeaseOnWire(host)
  {
    hide OptionCodec.Wire;
    hide LeaseOnWire;
    assert Describe(53).value.kind == UintEnum && Describe(1).value.kind == SubnetMask;
    assert Describe(3).value.kind == Address && Describe(51).value.kind == Uint32;
    UnswappedWire(host, UintEnum, [kind]);
    UnswappedWire(host, SubnetMask, [255, 255, 255, 0]);
    UnswappedWire(host, Address, SERVER_ADDRESS);
    LeaseWire(host);
  }

  lemma UnswappedWire(host: Host, kind: Kind, p: seq<byte>)
    requires Aligned(kind, |p|) && !OptionCodec.Swaps(host, kind)
    ensures OptionCodec.Wire(host, kind, p) == p
  {
    if IsElementKind(kind) {
      OptionCodec.WireTwice(host, kind, p);
    }
  }

  lemma LeaseWire(host: Host)
    ensures OptionCodec.Wire(host, Uint32, LEASE_BYTES) == LeaseOnWire(host)
  {
    if host.Big? {
      UnswappedWire(host, Uint32, LEASE_BYTES);
    } else {
      var p := LEASE_BYTES;
      assert p[..4] == p && p[4..] == [];
      assert Reversed(p) == [0x80, 0x51, 1, 0];
      assert OptionCodec.WireElements(host, Uint32, p[4..]) == [];
    }
  }

  lemma ReplyAreaOnWire(host: Host, kind: byte)
    requires 1 <= kind <= 8
    ensures EmittableOptions(ReplyOptions(host, kind))
    ensures EncodeOptions(host, ReplyOptions(host, kind)) == Flatten(ReplyItems(host, kind))
  {
    hide OptionFrom, Parses, EncodeOption, AllEmittable, LeaseOnWire;
    hide OptionCodec.Wire;
    ReplyOptionsParse(host, kind);
    OptionOnWire(host, 53, [kind]);
    OptionOnWire(host, 1, [255, 255, 255, 0]);
    OptionOnWire(host, 3, SERVER_ADDRESS);
    OptionOnWire(host, 51, LEASE_BYTES);
    PayloadsOnWire(host, kind);
    var os, items := ReplyOptions(host, kind), ReplyItems(host, kind);
    assert EncodeOptions(host, os[1..][1..][1..][1..]) == Flatten(items[1..][1..][1..][1..]) == [];
    assert EncodeOptions(host, os[1..][1..][1..]) == Flatten(items[1..][1..][1..]);
    assert EncodeOptions(host, os[1..][1..]) == Flatten(items[1..][1..]);
    assert EncodeOptions(host, os[1..]) == Flatten(items[1..]);
  }

  lemma LeaseReads(host: Host)
    ensures Parses(Big, 51, LeaseOnWire(host))
    ensures OptionFrom(Big, 51, LeaseOnWire(host)).values ==
              [U32(if host.Big? then LEASE_SECONDS else SWAPPED_LEASE_SECONDS)]
  {
    var d, p := Describe(51).value, LeaseOnWire(host);
    FourBytesParse(Big, 51, p);
    assert p[..4] == p && p[4..] == [];
    assert DecodeElements(Big, d, p[4..]) == Ok([]);
    assert BigEndian32(p) == if host.Big? then LEASE_SECONDS else SWAPPED_LEASE_SECONDS;
    var v := U32(BigEndian32(p));
    assert [v] + [] == [v];
  }

  lemma ReplyHeaderBytes(host: Host, kind: byte, xid: u32, mac: Mac, ip: u32)
    requires 1 <= kind <= 8
    ensures EncodeHeader(ReplyMessage(host, kind, xid, mac, ip)) ==
              [2, 1, 6, 0] + Network32(xid) + Zeros(8) + Network32(ip) + [172, 18, 1, 1] + [0, 0, 0, 0] + mac + Zeros(202)
  {
    hide Network32, ReplyOptions;
    assert Network16(0) == [0, 0];
  }

  lemma ReplyItemBytes(host: Host, kind: byte)
    requires 1 <= kind <= 8
    ensures Flatten(ReplyItems(host, kind)) ==
              [53, 1, kind, 1, 4, 255, 255, 255, 0, 3, 4, 172, 18, 1, 1, 51, 4] + LeaseOnWire(host)
  {
    hide LeaseOnWire;
    var items := ReplyItems(host, kind);
    assert |LeaseOnWire(host)| == 4 by { LeaseLength(host); }
    assert Flatten(items[1..][1..][1..][1..]) == [];
    assert Flatten(items[1..][1..][1..]) == [51, 4] + LeaseOnWire(host);
    assert Flatten(items[1..][1..]) == [3, 4] + SERVER_ADDRESS + ([51, 4] + LeaseOnWire(host));
    assert Flatten(items[1..]) == [1, 4] + [255, 255, 255, 0] + ([3, 4] + SERVER_ADDRESS + ([51, 4] + LeaseOnWire(host)));
  }

  lemma LeaseLength(host: Host)
    ensures |LeaseOnWire(host)| == 4
  {
  }

  /** Every byte of a reply: the header of section 2 of RFC 2131 with op BOOTREPLY, the
      transaction, the address and the client, then the magic cookie and four options. */
  lemma ReplyBytes(host: Host, kind: SentKind, xid: u32, mac: Mac, ip: u32)
    ensures SentReply(host, kind, xid, mac, ip).wire ==
              [2, 1, 6, 0] + Network32(xid) + Zeros(8) + Network32(ip) + [172, 18, 1, 1] + [0, 0, 0, 0] + mac + Zeros(202)
              + ([99, 130, 83, 99]
                 + ([53, 1, if kind.Offered? then 2 else 5, 1, 4, 255, 255, 255, 0, 3, 4, 172, 18, 1, 1, 51, 4]
                    + (if host.Big? then [0, 1, 81, 128] else [128, 81, 1, 0])
                    + [255]))
  {
    hide EncodeHeader, EncodeOptions, ReplyOptions, Network32, Flatten, ReplyItems;
    var code := if kind.Offered? then OFFER else ACK;
    var m := ReplyMessage(host, code, xid, mac, ip);
    ReplyIsSendable(host, code, xid, mac, ip);
    EncodedShape(host, m);
    ReplyHeaderBytes(host, code, xid, mac, ip);
    ReplyAreaOnWire(host, code);
    ReplyItemBytes(host, code);
  }

  /** A client that reads a reply in network order finds the message type, and a lease time
      of 86400 seconds exactly when the server's host is big-endian: a little-endian server
      announces 2152792320 seconds instead. */
  lemma LeaseTimeOnWire(host: Host, kind: SentKind, xid: u32, mac: Mac, ip: u32)
    ensures var area := SentReply(host, kind, xid, mac, ip).wire[240..];
            && WellFormed(Big, area)
            && DecodeArea(Big, area).Ok?
            && var os := DecodeArea(Big, area).value;
            && |os| == 4
            && os[0].values == [U8(if kind.Offered? then OFFER else ACK)] && os[0].description.code == 53
            && os[3].values == [U32(if host.Big? then LEASE_SECONDS else SWAPPED_LEASE_SECONDS)]
            && os[3].description.code == 51
  {
    hide EncodeHeader, EncodeOptions, ReplyOptions, DecodeArea, WellFormed, Flatten, ReplyItems;
    var code := if kind.Offered? then OFFER else ACK;
    var m := ReplyMessage(host, code, xid, mac, ip);
    ReplyIsSendable(host, code, xid, mac, ip);
    EncodedShape(host, m);
    ReplyAreaOnWire(host, code);
    AreaFollowsGrammar(Big, ReplyItems(host, code), [255]);
    ReplyItemsRead(host, code);
  }

  lemma ReplyItemsRead(host: Host, kind: byte)
    requires 1 <= kind <= 8
    ensures DecodeItems(Big, ReplyItems(host, kind)).Ok?
    ensures var os := DecodeItems(Big, ReplyItems(host, kind)).value;
            && |os| == 4
            && os[0].values == [U8(kind)] && os[0].description.code == 53
            && os[3].values == [U32(if host.Big? then LEASE_SECONDS else SWAPPED_LEASE_SECONDS)]
            && os[3].description.code == 51
  {
    var items := ReplyItems(host, kind);
    ReplyOptionsParse(Big, kind);
    MessageTypeParsed(kind);
    LeaseReads(host);
    LeaseCode(host);
    hide DecodeOption, Defined, LeaseOnWire;
    var none := items[1..][1..][1..][1..];
    assert DecodeItems(Big, none) == Ok([]);
    var o3 := OptionFrom(Big, 51, LeaseOnWire(host));
    assert DecodeItems(Big, items[1..][1..][1..]) == Ok([o3] + []);
    var o2 := OptionFrom(Big, 3, SERVER_ADDRESS);
    assert DecodeItems(Big, items[1..][1..]) == Ok([o2] + ([o3] + []));
    var o1 := OptionFrom(Big, 1, [255, 255, 255, 0]);
    assert DecodeItems(Big, items[1..]) == Ok([o1] + ([o2] + ([o3] + [])));
  }

  lemma LeaseCode(host: Host)
    ensures Parses(Big, 51, LeaseOnWire(host)) && OptionFrom(Big, 51, LeaseOnWire(host)).description.code == 51
  {
    LeaseReads(host);
    hide DecodeValues;
  }
}
