/** The DHCP server of dhcp/src/DhcpServer.cpp.

    The main loop runs beside a thread that adds pools, and both touch the pool list only
    under a mutex. The loop is therefore cut at its two lock acquisitions: `Looked`
    (have_free_address), `Received` (the next datagram up to take_address) and `Took`
    (take_address and the offer) are the atomic steps between which pools may be added. */
module DhcpServers {
  import opened Wrappers
  import opened Words
  import opened IpAddresses
  import opened DhcpOptions
  import opened DhcpMessages
  import opened AddressPools
  import OptionCodec

  // ---- Replies -------------------------------------------------------------

  const BOOTREQUEST: byte := 1
  const BOOTREPLY: byte := 2
  const DISCOVER: byte := 1
  const OFFER: byte := 2
  const REQUEST: byte := 3
  const ACK: byte := 5
  const SERVER_ADDRESS: Quad := [172, 18, 1, 1]
  const LEASE_SECONDS: u32 := 86400
  const LEASE_BYTES: seq<byte> := [0, 1, 0x51, 0x80]

  predicate Parses(host: Host, code: byte, p: seq<byte>) {
    Defined(code, p) && DecodeOption(host, code, p).Ok?
  }

  function OptionFrom(host: Host, code: byte, p: seq<byte>): DhcpOption
    requires Parses(host, code, p)
  {
    DecodeOption(host, code, p).value
  }

  lemma FourBytesParse(host: Host, code: byte, p: seq<byte>)
    requires (code == 1 || code == 3 || code == 51) && |p| == 4
    ensures Parses(host, code, p)
  {
    hide NetworkToHost32;
    var d := Describe(code).value;
    assert p[..4] == p && p[4..] == [];
    assert DecodeElements(host, d, []) == Ok([]);
    assert DecodeElement(host, d, p).Ok?;
  }

  lemma MessageTypeParses(host: Host, kind: byte)
    requires 1 <= kind <= 8
    ensures Parses(host, 53, [kind])
  {
    OptionCodec.MessageTypeIsOneByte(host, [kind]);
  }

  lemma ReplyOptionsParse(host: Host, kind: byte)
    requires 1 <= kind <= 8
    ensures Parses(host, 53, [kind]) && Parses(host, 1, [255, 255, 255, 0])
    ensures Parses(host, 3, SERVER_ADDRESS) && Parses(host, 51, LEASE_BYTES)
  {
    hide DecodeOption, Defined;
    MessageTypeParses(host, kind);
    FourBytesParse(host, 1, [255, 255, 255, 0]);
    FourBytesParse(host, 3, SERVER_ADDRESS);
    FourBytesParse(host, 51, LEASE_BYTES);
  }

  /** The four options of every reply, built by the parsing constructor. */
  function ReplyOptions(host: Host, kind: byte): seq<DhcpOption>
    requires 1 <= kind <= 8
  {
    ReplyOptionsParse(host, kind);
    [OptionFrom(host, 53, [kind]),
     OptionFrom(host, 1, [255, 255, 255, 0]),
     OptionFrom(host, 3, SERVER_ADDRESS),
     OptionFrom(host, 51, LEASE_BYTES)]
  }

  function ReplyMessage(host: Host, kind: byte, xid: u32, mac: Mac, ip: u32): Message
    requires 1 <= kind <= 8
  {
    Message(BOOTREPLY, ETHERNET, 6, 0, xid, 0, 0,
            [0, 0, 0, 0], Network32(ip), SERVER_ADDRESS, [0, 0, 0, 0],
            Some(mac), [], [], ReplyOptions(host, kind))
  }

  method AddOption(host: Host, reply: DhcpMessage, code: byte, p: seq<byte>)
    requires Parses(host, code, p)
    modifies reply`options
    ensures reply.options == old(reply.options) + [OptionFrom(host, code, p)]
  {
    var o := ParseOption(host, code, p);
    reply.options := reply.options + [o.value];
  }

  method AddReplyOptions(host: Host, reply: DhcpMessage, kind: byte, lease: seq<byte>)
    requires 1 <= kind <= 8 && lease == LEASE_BYTES && reply.options == []
    modifies reply`options
    ensures reply.options == ReplyOptions(host, kind)
  {
    hide OptionFrom, Parses;
    ReplyOptionsParse(host, kind);
    AddOption(host, reply, 53, [kind]);
    AddOption(host, reply, 1, [255, 255, 255, 0]);
    AddOption(host, reply, 3, SERVER_ADDRESS);
    AddOption(host, reply, 51, lease);
  }

  method BuildReply(host: Host, kind: byte, packet: DhcpMessage, ip: u32, lease: seq<byte>) returns (reply: DhcpMessage)
    requires 1 <= kind <= 8 && packet.chaddr.Some? && lease == LEASE_BYTES
    ensures fresh(reply)
    ensures reply.View() == ReplyMessage(host, kind, packet.xid, packet.chaddr.value, ip)
  {
    hide ReplyOptions, Network32;
    reply := new DhcpMessage();
    reply.op := BOOTREPLY;
    reply.htype := ETHERNET;
    reply.hlen := 6;
    reply.hops := 0;
    reply.xid := packet.xid;
    reply.ciaddr := [0, 0, 0, 0];
    reply.yiaddr := Network32(ip);
    reply.siaddr := SERVER_ADDRESS;
    reply.giaddr := [0, 0, 0, 0];
    reply.chaddr := packet.chaddr;
    AddReplyOptions(host, reply, kind, lease);
  }

  lemma LeaseBytes()
    ensures Network32(LEASE_SECONDS) == LEASE_BYTES
  {
  }

  method MakeOffer(host: Host, packet: DhcpMessage, ip: u32) returns (offer: DhcpMessage)
    requires packet.chaddr.Some?
    ensures fresh(offer)
    ensures offer.View() == ReplyMessage(host, OFFER, packet.xid, packet.chaddr.value, ip)
  {
    LeaseBytes();
    offer := BuildReply(host, OFFER, packet, ip, HostToNetwork32(host, LEASE_SECONDS));
  }

  /** The acknowledgement writes the lease time with 32-bit shifts instead. */
  method MakeAcknowledge(host: Host, packet: DhcpMessage, ip: u32) returns (acknowledge: DhcpMessage)
    requires packet.chaddr.Some?
    ensures fresh(acknowledge)
    ensures acknowledge.View() == ReplyMessage(host, ACK, packet.xid, packet.chaddr.value, ip)
  {
    var t: int := LEASE_SECONDS;
    var lease: seq<byte> := [t / 0x100_0000,
                  t * 0x100 % 0x1_0000_0000 / 0x100_0000,
                  t * 0x1_0000 % 0x1_0000_0000 / 0x100_0000,
                  t % 0x100];
    acknowledge := BuildReply(host, ACK, packet, ip, lease);
  }

  // ---- State and steps -------------------------------------------------------

  /** Datagrams on which the parser's behaviour is defined, on either host. */
  type Datagram = d: seq<byte> | DefinedMessage(Big, d) witness []

  lemma {:induction false} WellFormedHostFree(a: Host, b: Host, area: seq<byte>)
    requires WellFormed(a, area)
    ensures WellFormed(b, area)
    ensures DecodeArea(a, area) == DecodeArea(b, area)
    decreases |area|
  {
    hide DecodeOption, Defined;
    if area != [] && area[0] != 255 {
      if area[0] == 0 {
        WellFormedHostFree(a, b, area[1..]);
      } else {
        var n: int := area[1];
        OptionCodec.ParsingIsHostFree(a, b, area[0], area[2..2 + n]);
        if DecodeOption(a, area[0], area[2..2 + n]).Ok? {
          WellFormedHostFree(a, b, area[2 + n..]);
        }
      }
    }
  }

  lemma DatagramIsDefined(host: Host, data: Datagram)
    ensures DefinedMessage(host, data)
    ensures DecodeMessage(host, data) == DecodeMessage(Big, data)
  {
    hide WellFormed, DecodeArea, Header;
    if HasOptions(data) && data[1] == ETHERNET && data[236..240] == COOKIE {
      WellFormedHostFree(Big, host, data[240..]);
    }
  }

  lemma DecodedHasAddress(host: Host, data: seq<byte>)
    requires DefinedMessage(host, data) && DecodeMessage(host, data).Ok?
    ensures DecodeMessage(host, data).value.chaddr.Some?
  {
    hide WellFormed, DecodeArea;
  }

  /** `find_if` for option 53. */
  function MessageTypeOption(options: seq<DhcpOption>): Option<DhcpOption> {
    if options == [] then None
    else if options[0].description.code == 53 then Some(options[0])
    else MessageTypeOption(options[1..])
  }

  lemma {:induction false} ParsedMessageType(host: Host, area: seq<byte>)
    requires WellFormed(host, area) && DecodeArea(host, area).Ok?
    ensures var o := MessageTypeOption(DecodeArea(host, area).value);
            o.Some? ==> |o.value.values| == 1 && o.value.values[0].U8? && 1 <= o.value.values[0].b <= 8
    decreases |area|
  {
    hide DecodeElements, Describe;
    if area != [] && area[0] != 255 {
      if area[0] == 0 {
        ParsedMessageType(host, area[1..]);
      } else {
        var n: int := area[1];
        var o, rest := DecodeOption(host, area[0], area[2..2 + n]).value, DecodeArea(host, area[2 + n..]).value;
        FixedIsOneElement(area[0]);
        ParsedMessageType(host, area[2 + n..]);
        assert DecodeArea(host, area).value == [o] + rest && ([o] + rest)[1..] == rest;
        if area[0] == 53 {
          OptionCodec.MessageTypeIsOneByte(host, area[2..2 + n]);
        }
      }
    }
  }

  /** What the main loop does with an accepted message: `real_values.at(0)` and
      `get<uint8_t>` never fail. */
  function MessageType(host: Host, data: Datagram): (r: Option<byte>)
    requires DefinedMessage(host, data) && DecodeMessage(host, data).Ok?
    ensures r.Some? ==> 1 <= r.value <= 8
  {
    var options := DecodeMessage(host, data).value.options;
    if options == [] then None
    else
      ParsedMessageType(host, data[240..]);
      match MessageTypeOption(options)
      case None => None
      case Some(o) => Some(o.values[0].b)
  }

  datatype SentKind = Offered | Acknowledged

  /** A reply handed to the socket: what it says, and its bytes. */
  datatype Sent = Sent(kind: SentKind, xid: u32, mac: Mac, ip: u32, wire: seq<byte>)

  /** Where the main loop stands: before have_free_address, after it answered true, before
      take_address, or ended by an exception that nothing catches. */
  datatype Pc = Top | Ready | Taking(request: Message) | Down

  datatype Server = Server(
    pools: seq<Pool>, xids: map<u32, u32>, queue: seq<Datagram>, pc: Pc, sent: seq<Sent>)

  const INITIAL := Server([], map[], [], Top, [])

  /** The test of add_address_pool: an end of the new range lies in the old one. */
  predicate Intersects(p: Pool, q: Pool) {
    q.first <= p.first <= q.last || q.first <= p.last <= q.last
  }

  predicate Rejected(pools: seq<Pool>, p: Pool) {
    exists i :: 0 <= i < |pools| && Intersects(p, pools[i])
  }

  function WithPool(s: Server, p: Pool): Server {
    if Rejected(s.pools, p) then s else s.(pools := s.pools + [p])
  }

  function Looked(s: Server): Server {
    if s.pc.Top? && s.pools != [] then s.(pc := Ready) else s
  }

  lemma ReplyIsSendable(host: Host, kind: byte, xid: u32, mac: Mac, ip: u32)
    requires 1 <= kind <= 8
    ensures Sendable(ReplyMessage(host, kind, xid, mac, ip))
    ensures |ReplyMessage(host, kind, xid, mac, ip).options| == 4
  {
    hide DecodeOption;
    ReplyOptionsParse(host, kind);
    OptionCodec.OptionRoundTrip(host, Big, 53, [kind]);
    OptionCodec.OptionRoundTrip(host, Big, 1, [255, 255, 255, 0]);
    OptionCodec.OptionRoundTrip(host, Big, 3, SERVER_ADDRESS);
    OptionCodec.OptionRoundTrip(host, Big, 51, LEASE_BYTES);
  }

  function SentReply(host: Host, kind: SentKind, xid: u32, mac: Mac, ip: u32): Sent {
    var code := if kind.Offered? then OFFER else ACK;
    ReplyIsSendable(host, code, xid, mac, ip);
    Sent(kind, xid, mac, ip, EncodeMessage(host, ReplyMessage(host, code, xid, mac, ip)))
  }

  /** `xids[x]`: a missing key reads as 0.0.0.0. */
  function OfferedFor(xids: map<u32, u32>, xid: u32): u32 {
    if xid in xids then xids[xid] else 0
  }

  /** What a datagram asks of the server, if the main loop answers it at all. */
  datatype Asked = Asked(kind: byte, xid: u32, mac: Mac)

  /** An accepted BOOTREQUEST whose message type is DISCOVER or REQUEST. */
  function Classify(host: Host, data: Datagram): (r: Option<Asked>)
    ensures r.Some? ==> r.value.kind == DISCOVER || r.value.kind == REQUEST
    ensures r.Some? ==>
              && DefinedMessage(host, data) && DecodeMessage(host, data).Ok?
              && data[0] == BOOTREQUEST && r.value.xid == BigEndian32(data[4..8]) && r.value.mac == data[28..34]
              && MessageType(host, data) == Some(r.value.kind)
  {
    DatagramIsDefined(host, data);
    match DecodeMessage(host, data)
    case Err(_) => None
    case Ok(m) =>
      DecodedHasAddress(host, data);
      var kind := MessageType(host, data);
      if m.op == BOOTREQUEST && (kind == Some(DISCOVER) || kind == Some(REQUEST))
      then Some(Asked(kind.value, m.xid, m.chaddr.value))
      else None
  }

  /** The pass from the queue test to the reply, or to take_address. */
  function Received(host: Host, s: Server): Server {
    if !s.pc.Ready? then s
    else if s.queue == [] then s.(pc := Top)
    else
      var data, t := s.queue[0], s.(queue := s.queue[1..], pc := Top);
      DatagramIsDefined(host, data);
      match DecodeMessage(host, data)
      case Err(_) => t.(pc := Down)
      case Ok(m) =>
        if m.op != BOOTREQUEST then t
        else
          var kind := MessageType(host, data);
          if kind == Some(DISCOVER) then t.(pc := Taking(m))
          else if kind == Some(REQUEST) then
            DecodedHasAddress(host, data);
            var ip := OfferedFor(t.xids, m.xid);
            t.(xids := t.xids[m.xid := ip],
               sent := t.sent + [SentReply(host, Acknowledged, m.xid, m.chaddr.value, ip)])
          else t
  }

  ghost function Took(host: Host, s: Server): Server
    requires s.pc.Taking? ==> s.pools != [] && s.pc.request.chaddr.Some?
  {
    if !s.pc.Taking? then s
    else
      var m := s.pc.request;
      var mac := m.chaddr.value;
      match Reply(s.pools[0], Get(mac))
      case Granted(ip) =>
        s.(pools := s.pools[0 := Step(s.pools[0], Get(mac))],
           xids := s.xids[m.xid := ip],
           sent := s.sent + [SentReply(host, Offered, m.xid, mac, ip)],
           pc := Top)
      case _ => s.(pc := Down)
  }

  lemma RefusalKeepsPool(p: Pool, mac: Mac)
    ensures !Reply(p, Get(mac)).Granted? ==> Step(p, Get(mac)) == p
  {
  }

  class DhcpServer {
    var pools: seq<AddressPool>
    var xids: map<u32, u32>
    var queue: seq<Datagram>
    var pc: Pc
    var sent: seq<Sent>

    ghost predicate Valid()
      reads this
    {
      && (forall i, j | 0 <= i < j < |pools| :: pools[i] != pools[j])
      && (pc.Ready? || pc.Taking? ==> pools != [])
      && (pc.Taking? ==> pc.request.chaddr.Some?)
    }

    ghost function PoolStates(): (r: seq<Pool>)
      reads this`pools, pools
      ensures |r| == |pools|
    {
      var ps := pools;
      seq(|ps|, i requires 0 <= i < |ps| reads ps => ps[i].State())
    }

    ghost function View(): Server
      reads this, pools
    {
      Server(PoolStates(), xids, queue, pc, sent)
    }

    constructor ()
      ensures Valid() && View() == INITIAL
    {
      pools, xids, queue, pc, sent := [], map[], [], Top, [];
    }

    method Arrive(data: Datagram)
      requires Valid()
      modifies this`queue
      ensures Valid() && View() == old(View()).(queue := old(queue) + [data])
    {
      queue := queue + [data];
    }

    method AddAddressPool(pool: AddressPool) returns (added: bool)
      requires Valid()
      modifies this`pools
      ensures Valid() && View() == WithPool(old(View()), pool.State())
      ensures added <==> forall i | 0 <= i < |old(PoolStates())| ::
                           var q := old(PoolStates())[i];
                           !(q.first <= pool.first <= q.last) && !(q.first <= pool.last <= q.last)
      ensures PoolStates() == if added then old(PoolStates()) + [pool.State()] else old(PoolStates())
    {
      for i := 0 to |pools|
        invariant pools == old(pools)
        invariant forall k | 0 <= k < i :: !Intersects(pool.State(), pools[k].State())
      {
        if pools[i].first <= pool.first <= pools[i].last {
          assert Intersects(pool.State(), PoolStates()[i]);
          return false;
        }
        if pools[i].first <= pool.last <= pools[i].last {
          assert Intersects(pool.State(), PoolStates()[i]);
          return false;
        }
      }
      var copy := new AddressPool.Copy(pool);
      pools := pools + [copy];
      assert PoolStates() == old(PoolStates()) + [pool.State()];
      return true;
    }

    method HaveFreeAddress() returns (answer: bool)
      ensures answer == (pools != [])
    {
      return |pools| != 0;
    }

    /** `_address_pools.at(0)` throws when there is no pool. */
    method TakeAddress(mac: Mac) returns (answer: Answer)
      requires Valid()
      modifies pools
      ensures pools == [] ==> answer == Thrown(NoPool)
      ensures pools != [] ==>
                && answer == Reply(old(PoolStates())[0], Get(mac))
                && PoolStates() == old(PoolStates())[0 := Step(old(PoolStates())[0], Get(mac))]
    {
      if |pools| == 0 {
        return Thrown(NoPool);
      }
      answer := pools[0].GetAddress(mac);
    }

    /** The top of the loop. */
    method Look()
      requires Valid()
      modifies this`pc
      ensures Valid() && View() == Looked(old(View()))
    {
      if !pc.Top? {
        return;
      }
      var free := HaveFreeAddress();
      if free {
        pc := Ready;
      }
    }

    method Send(host: Host, kind: SentKind, packet: DhcpMessage, ip: u32)
      requires packet.chaddr.Some?
      modifies this`sent
      ensures sent == old(sent) + [SentReply(host, kind, packet.xid, packet.chaddr.value, ip)]
    {
      hide ReplyMessage, EncodeMessage, Sendable;
      ReplyIsSendable(host, OFFER, packet.xid, packet.chaddr.value, ip);
      ReplyIsSendable(host, ACK, packet.xid, packet.chaddr.value, ip);
      var reply: DhcpMessage;
      if kind.Offered? {
        reply := MakeOffer(host, packet, ip);
      } else {
        reply := MakeAcknowledge(host, packet, ip);
      }
      var wire := reply.ToNetworkData(host);
      sent := sent + [Sent(kind, packet.xid, packet.chaddr.value, ip, wire)];
    }

    /** The loop body up to take_address, or to the acknowledgement. */
    method Receive(host: Host)
      requires Valid()
      modifies this`xids, this`queue, this`pc, this`sent
      ensures Valid() && View() == Received(host, old(View()))
    {
      hide DecodeMessage, DefinedMessage, MessageType, SentReply;
      if !pc.Ready? {
        return;
      }
      if |queue| == 0 {
        pc := Top;
        return;
      }
      var data := queue[0];
      queue := queue[1..];
      pc := Top;
      DatagramIsDefined(host, data);
      var packet := new DhcpMessage();
      var thrown := packet.Parse(host, data);
      if thrown.Some? {
        pc := Down;
        return;
      }
      if packet.op != BOOTREQUEST {
        return;
      }
      DecodedHasAddress(host, data);
      Answer(host, packet, MessageType(host, data));
    }

    /** A DISCOVER goes on to take_address; a REQUEST is acknowledged at once. */
    method Answer(host: Host, packet: DhcpMessage, kind: Option<byte>)
      requires packet.chaddr.Some?
      modifies this`xids, this`pc, this`sent
      ensures pc == if kind == Some(DISCOVER) then Taking(packet.View()) else old(pc)
      ensures var ip := OfferedFor(old(xids), packet.xid);
              if kind == Some(REQUEST)
              then xids == old(xids)[packet.xid := ip]
                   && sent == old(sent) + [SentReply(host, Acknowledged, packet.xid, packet.chaddr.value, ip)]
              else xids == old(xids) && sent == old(sent)
    {
      hide SentReply;
      if kind == Some(DISCOVER) {
        pc := Taking(packet.View());
      } else if kind == Some(REQUEST) {
        if packet.xid !in xids {
          xids := xids[packet.xid := 0];
        }
        Send(host, Acknowledged, packet, xids[packet.xid]);
      }
    }

    /** take_address and the offer. */
    method OfferAddress(host: Host)
      requires Valid()
      modifies this`xids, this`pc, this`sent, pools
      ensures Valid() && View() == Took(host, old(View()))
    {
      hide SentReply, Step, Reply;
      if !pc.Taking? {
        return;
      }
      var request := pc.request;
      ghost var before := PoolStates();
      var answer := TakeAddress(request.chaddr.value);
      if !answer.Granted? {
        RefusalKeepsPool(before[0], request.chaddr.value);
        assert before[0 := before[0]] == before;
        pc := Down;
        return;
      }
      xids := xids[request.xid := answer.ip];
      var packet := new DhcpMessage();
      packet.xid, packet.chaddr := request.xid, request.chaddr;
      Send(host, Offered, packet, xids[request.xid]);
      pc := Top;
    }
  }
}
