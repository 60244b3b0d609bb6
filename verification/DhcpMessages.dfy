/** The wire format of DHCP messages: dhcp/src/DhcpMessage.cpp, for the message format
    of section 2 of RFC 2131 and the option area of section 2 of RFC 2132. */
module DhcpMessages {
  import opened Wrappers
  import opened Words
  import opened IpAddresses
  import opened DhcpOptions
  import HardwareAddresses

  type Mac = HardwareAddresses.Mac

  const MIN_LENGTH := 236
  const COOKIE: seq<byte> := [99, 130, 83, 99]
  const ETHERNET: byte := 1

  datatype Message = Message(
    op: byte, htype: byte, hlen: byte, hops: byte,
    xid: u32, secs: u16, flags: u16,
    ciaddr: Quad, yiaddr: Quad, siaddr: Quad, giaddr: Quad,
    chaddr: Option<Mac>, sname: seq<byte>, file: seq<byte>,
    options: seq<DhcpOption>)

  datatype MessageError = MessageTooShort | UnsupportedHardware | BadCookie | BadOption(error: OptionError)

  const NO_ADDRESS: Quad := [0, 0, 0, 0]
  const DEFAULT := Message(1, ETHERNET, 6, 0, 0, 0, 0, NO_ADDRESS, NO_ADDRESS, NO_ADDRESS, NO_ADDRESS, None, [], [], [])

  // ---- Parsing -------------------------------------------------------------

  /** The area stays inside the buffer as far as the parser reads it. */
  predicate WellFormed(host: Host, area: seq<byte>)
    decreases |area|
  {
    if area == [] || area[0] == 255 then true
    else if area[0] == 0 then WellFormed(host, area[1..])
    else
      && |area| >= 2
      && |area| - 2 >= area[1]
      && Defined(area[0], area[2..2 + area[1]])
      && (DecodeOption(host, area[0], area[2..2 + area[1]]).Ok? ==> WellFormed(host, area[2 + area[1]..]))
  }

  function DecodeArea(host: Host, area: seq<byte>): Result<seq<DhcpOption>, OptionError>
    requires WellFormed(host, area)
    decreases |area|
  {
    if area == [] || area[0] == 255 then Ok([])
    else if area[0] == 0 then DecodeArea(host, area[1..])
    else
      var o :- DecodeOption(host, area[0], area[2..2 + area[1]]);
      var rest :- DecodeArea(host, area[2 + area[1]..]);
      Ok([o] + rest)
  }

  predicate HasOptions(data: seq<byte>) {
    |data| >= MIN_LENGTH + 4
  }

  predicate DefinedMessage(host: Host, data: seq<byte>) {
    HasOptions(data) && data[1] == ETHERNET && data[236..240] == COOKIE ==> WellFormed(host, data[240..])
  }

  function Header(data: seq<byte>): Message
    requires |data| >= MIN_LENGTH
  {
    Message(data[0], data[1], data[2], data[3],
            BigEndian32(data[4..8]), BigEndian16(data[8..10]), BigEndian16(data[10..12]),
            data[12..16], data[16..20], data[20..24], data[24..28],
            Some(data[28..34]), data[44..108], data[108..236], [])
  }

  function DecodeMessage(host: Host, data: seq<byte>): Result<Message, MessageError>
    requires DefinedMessage(host, data)
  {
    if |data| < MIN_LENGTH then Err(MessageTooShort)
    else if data[1] != ETHERNET then Err(UnsupportedHardware)
    else if !HasOptions(data) then Ok(Header(data))
    else if data[236..240] != COOKIE then Err(BadCookie)
    else
      match DecodeArea(host, data[240..])
      case Ok(options) => Ok(Header(data).(options := options))
      case Err(e) => Err(BadOption(e))
  }

  // ---- Emitting ------------------------------------------------------------

  predicate EmittableOptions(os: seq<DhcpOption>) {
    forall o | o in os :: AllEmittable(o.values)
  }

  function EncodeOptions(host: Host, os: seq<DhcpOption>): seq<byte>
    requires EmittableOptions(os)
  {
    if os == [] then [] else EncodeOption(host, os[0]) + EncodeOptions(host, os[1..])
  }

  function EncodeHeader(m: Message): (r: seq<byte>)
    requires m.chaddr.Some?
    ensures |r| == MIN_LENGTH
  {
    [m.op, m.htype, m.hlen, m.hops] + Network32(m.xid) + Network16(m.secs) + Network16(m.flags)
    + m.ciaddr + m.yiaddr + m.siaddr + m.giaddr
    + (m.chaddr.value + Zeros(10)) + Zeros(64) + Zeros(128)
  }

  /** A message the emitter is defined on: it has a client address and no FLAG value. */
  predicate Sendable(m: Message) {
    m.chaddr.Some? && EmittableOptions(m.options)
  }

  function EncodeMessage(host: Host, m: Message): seq<byte>
    requires Sendable(m)
  {
    if m.options == [] then EncodeHeader(m)
    else EncodeHeader(m) + COOKIE + EncodeOptions(host, m.options) + [255]
  }

  lemma {:induction false} EncodeOptionsSnoc(host: Host, os: seq<DhcpOption>, o: DhcpOption)
    requires EmittableOptions(os) && AllEmittable(o.values)
    ensures EmittableOptions(os + [o])
    ensures EncodeOptions(host, os + [o]) == EncodeOptions(host, os) + EncodeOption(host, o)
  {
    hide EncodeOption, AllEmittable;
    if os == [] {
      assert [o][1..] == [];
    } else {
      EncodeOptionsSnoc(host, os[1..], o);
      assert (os + [o])[1..] == os[1..] + [o];
    }
  }

  lemma AreaEnds(host: Host)
    ensures WellFormed(host, []) && DecodeArea(host, []) == Ok([])
  {
  }

  /** One step of the option loop at position `i` of the buffer. */
  lemma AreaAt(host: Host, data: seq<byte>, i: nat)
    requires i < |data| && WellFormed(host, data[i..])
    ensures data[i] == 255 ==> DecodeArea(host, data[i..]) == Ok([])
    ensures data[i] == 0 ==>
              WellFormed(host, data[i + 1..]) && DecodeArea(host, data[i..]) == DecodeArea(host, data[i + 1..])
    ensures data[i] != 0 && data[i] != 255 ==>
              && i + 2 <= |data| && i + 2 + data[i + 1] as int <= |data|
              && var p, next := data[i + 2..i + 2 + data[i + 1]], i + 2 + data[i + 1];
              && Defined(data[i], p)
              && match DecodeOption(host, data[i], p)
                 case Err(e) => DecodeArea(host, data[i..]) == Err(e)
                 case Ok(o) =>
                   WellFormed(host, data[next..])
                   && DecodeArea(host, data[i..]) == Prepend([o], DecodeArea(host, data[next..]))
  {
    hide DecodeOption, Defined;
    var rest := data[i..];
    assert rest[1..] == data[i + 1..];
    if data[i] != 0 && data[i] != 255 {
      var n: int := rest[1];
      assert rest[2..2 + n] == data[i + 2..i + 2 + n];
      assert rest[2 + n..] == data[i + 2 + n..];
    }
  }

  lemma CookieAt(data: seq<byte>)
    requires |data| >= 240
    ensures data[236..240] == COOKIE <==> data[236] == 99 && data[237] == 130 && data[238] == 83 && data[239] == 99
  {
    var c := data[236..240];
    assert c == [data[236], data[237], data[238], data[239]];
  }

  class DhcpMessage {
    var op: byte
    var htype: byte
    var hlen: byte
    var hops: byte
    var xid: u32
    var secs: u16
    var flags: u16
    var ciaddr: Quad
    var yiaddr: Quad
    var siaddr: Quad
    var giaddr: Quad
    var chaddr: Option<Mac>
    var sname: seq<byte>
    var file: seq<byte>
    var options: seq<DhcpOption>

    function View(): Message
      reads this
    {
      Message(op, htype, hlen, hops, xid, secs, flags, ciaddr, yiaddr, siaddr, giaddr, chaddr, sname, file, options)
    }

    constructor ()
      ensures View() == Message(1, 1, 6, 0, 0, 0, 0, [0, 0, 0, 0], [0, 0, 0, 0], [0, 0, 0, 0], [0, 0, 0, 0],
                                None, [], [], [])
    {
      op, htype, hlen, hops := 1, ETHERNET, 6, 0;
      xid, secs, flags := 0, 0, 0;
      ciaddr, yiaddr, siaddr, giaddr := [0, 0, 0, 0], [0, 0, 0, 0], [0, 0, 0, 0], [0, 0, 0, 0];
      chaddr, sname, file, options := None, [], [], [];
    }

    /** The parsing constructor, run on a default message; it answers the exception thrown. */
    method Parse(host: Host, data: seq<byte>) returns (thrown: Option<MessageError>)
      requires View() == DEFAULT && DefinedMessage(host, data)
      modifies this
      ensures match DecodeMessage(host, data)
              case Ok(m) => thrown.None? && View() == m
              case Err(e) => thrown == Some(e)
    {
      hide WellFormed, DecodeArea, Header;
      assert options == [];
      if |data| < MIN_LENGTH {
        return Some(MessageTooShort);
      }
      var supported := ParseHeader(data);
      if !supported {
        return Some(UnsupportedHardware);
      }
      if !HasOptions(data) {
        return None;
      }
      CookieAt(data);
      if data[236] != 99 || data[237] != 130 || data[238] != 83 || data[239] != 99 {
        return Some(BadCookie);
      }
      var error := ParseOptions(host, data, 240);
      thrown := if error.None? then None else Some(BadOption(error.value));
    }

    method ParseHeader(data: seq<byte>) returns (supported: bool)
      requires |data| >= MIN_LENGTH && options == []
      modifies this
      ensures options == []
      ensures supported <==> data[1] == ETHERNET
      ensures supported ==> View() == Header(data)
    {
      hide Header;
      ParseNumbers(data);
      ParseAddresses(data);
      if htype != ETHERNET {
        return false;
      }
      ParseNames(data);
      return true;
    }

    method ParseNumbers(data: seq<byte>)
      requires |data| >= MIN_LENGTH
      modifies this`op, this`htype, this`hlen, this`hops, this`xid, this`secs, this`flags
      ensures var h := Header(data);
              && op == h.op && htype == data[1] == h.htype && hlen == h.hlen && hops == h.hops
              && xid == h.xid && secs == h.secs && flags == h.flags
    {
      hide BigEndian32, BigEndian16;
      op, htype, hlen, hops := data[0], data[1], data[2], data[3];
      xid := BigEndian32(data[4..8]);
      secs := BigEndian16(data[8..10]);
      flags := BigEndian16(data[10..12]);
    }

    method ParseAddresses(data: seq<byte>)
      requires |data| >= MIN_LENGTH
      modifies this`ciaddr, this`yiaddr, this`siaddr, this`giaddr
      ensures var h := Header(data);
              ciaddr == h.ciaddr && yiaddr == h.yiaddr && siaddr == h.siaddr && giaddr == h.giaddr
    {
      hide BigEndian32, BigEndian16;
      ciaddr, yiaddr, siaddr, giaddr := data[12..16], data[16..20], data[20..24], data[24..28];
    }

    method ParseNames(data: seq<byte>)
      requires |data| >= MIN_LENGTH
      modifies this`chaddr, this`sname, this`file
      ensures var h := Header(data);
              chaddr == h.chaddr && sname == h.sname && file == h.file && h.options == []
    {
      hide BigEndian32, BigEndian16;
      chaddr := Some(data[28..34]);
      sname := data[44..108];
      file := data[108..236];
    }

    /** The option loop: `iter` moves through the rest of the buffer. */
    method ParseOptions(host: Host, data: seq<byte>, start: nat) returns (thrown: Option<OptionError>)
      requires options == [] && start <= |data| && WellFormed(host, data[start..])
      modifies this`options
      ensures match DecodeArea(host, data[start..])
              case Ok(os) => thrown.None? && options == os
              case Err(e) => thrown == Some(e)
    {
      hide DecodeOption, Defined, WellFormed, DecodeArea, Prepend;
      ghost var area := data[start..];
      PrependNothing([], DecodeArea(host, area));
      var iter := start;
      while iter != |data|
        invariant start <= iter <= |data|
        invariant WellFormed(host, data[iter..])
        invariant DecodeArea(host, area) == Prepend(options, DecodeArea(host, data[iter..]))
        decreases |data| - iter
      {
        AreaAt(host, data, iter);
        var code := data[iter];
        iter := iter + 1;
        if code == 0 {
          continue;
        }
        if code == 255 {
          PrependNothing(options, DecodeArea(host, data[iter - 1..]));
          return None;
        }
        var length := data[iter];
        iter := iter + 1;
        var o := ParseOption(host, code, data[iter..iter + length]);
        if o.Err? {
          PrependNothing(options, DecodeArea(host, data[iter - 2..]));
          return Some(o.error);
        }
        PrependOne(options, o.value, DecodeArea(host, data[iter + length..]));
        options := options + [o.value];
        iter := iter + length;
      }
      assert data[iter..] == [];
      AreaEnds(host);
      PrependNothing(options, DecodeArea(host, []));
      return None;
    }

    method ToNetworkData(host: Host) returns (result: seq<byte>)
      requires Sendable(View())
      ensures result == EncodeMessage(host, View())
    {
      hide EncodeOption, AllEmittable;
      result := EmitHeader();
      if |options| == 0 {
        return;
      }
      result := result + COOKIE;
      ghost var head := result;
      for i := 0 to |options|
        invariant result == head + EncodeOptions(host, options[..i])
      {
        EncodeOptionsSnoc(host, options[..i], options[i]);
        assert options[..i + 1] == options[..i] + [options[i]];
        var optionData := EmitOption(host, options[i]);
        result := result + optionData;
      }
      assert options[..|options|] == options;
      result := result + [255];
    }

    /** The fixed part of the message; server name and boot file leave as zeros. */
    method EmitHeader() returns (result: seq<byte>)
      requires chaddr.Some?
      ensures result == EncodeHeader(View())
    {
      hide Network32, Network16;
      result := [op, htype, hlen, hops];
      result := result + Network32(xid) + Network16(secs) + Network16(flags);
      result := result + ciaddr + yiaddr + siaddr + giaddr;
      var chaddrData := HardwareAddresses.ToChaddr(chaddr.value);
      result := result + chaddrData;
      result := result + Zeros(64) + Zeros(128);
    }
  }
}
