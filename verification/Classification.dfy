/** Which datagrams the main loop of dhcp/src/DhcpServer.cpp answers, in terms of their bytes. */
module Classification {
  import opened Wrappers
  import opened Words
  import opened DhcpOptions
  import opened DhcpMessages
  import opened MessageCodec
  import opened DhcpServers
  import OptionCodec
  import OptionTable

  /** The first option 53 of the area stands at `i`. */
  predicate FirstType(items: seq<Item>, i: int) {
    && 0 <= i < |items| && items[i].Tlv? && items[i].code == 53
    && forall j | 0 <= j < i && items[j].Tlv? :: items[j].code != 53
  }

  predicate NoType(items: seq<Item>) {
    forall j | 0 <= j < |items| && items[j].Tlv? :: items[j].code != 53
  }

  /** One accepted option in front. */
  lemma FirstOption(host: Host, items: seq<Item>)
    requires items != [] && items[0].Tlv? && AllAcceptable(items)
    ensures DecodeItems(host, items).Ok? && DecodeItems(host, items[1..]).Ok?
    ensures DecodeOption(host, items[0].code, items[0].payload).Ok?
    ensures var o := DecodeOption(host, items[0].code, items[0].payload).value;
            && DecodeItems(host, items).value == [o] + DecodeItems(host, items[1..]).value
            && o.description.code == items[0].code
            && (items[0].code == 53 ==> |items[0].payload| == 1 && o.values == [U8(items[0].payload[0])])
  {
    ItemsAcceptedExactly(host, items);
    var code, p := items[0].code, items[0].payload;
    assert OptionCodec.Acceptable(code, p);
    OptionCodec.AcceptedExactly(host, code, p);
    if code == 53 {
      OptionTable.StoresByte(host, code, p);
    }
    FixedIsOneElement(code);
    hide Describe, OptionCodec.Acceptable, DecodeValues;
  }

  lemma {:induction false} TypeOfItems(host: Host, items: seq<Item>)
    requires AllAcceptable(items)
    ensures DecodeItems(host, items).Ok?
    ensures var o := MessageTypeOption(DecodeItems(host, items).value);
            && (NoType(items) ==> o.None?)
            && (forall i | FirstType(items, i) ::
                  o.Some? && |items[i].payload| == 1 && o.value.values == [U8(items[i].payload[0])])
  {
    hide OptionCodec.Acceptable, DecodeOption, Defined;
    if items != [] {
      var rest := items[1..];
      assert forall i | 0 <= i < |rest| :: rest[i] == items[i + 1];
      assert AllAcceptable(rest);
      TypeOfItems(host, rest);
      var os := DecodeItems(host, rest).value;
      if items[0].Tlv? {
        FirstOption(host, items);
        var o := DecodeOption(host, items[0].code, items[0].payload).value;
        assert ([o] + os)[0] == o && ([o] + os)[1..] == os;
      }
      forall i | FirstType(items, i) && i > 0 ensures FirstType(rest, i - 1) {
      }
      if NoType(items) {
        assert NoType(rest);
      }
      hide DecodeItems, MessageTypeOption;
    }
  }

  /** The fields of an accepted header. */
  lemma HeaderFields(host: Host, data: Datagram)
    requires |data| >= 236 && DefinedMessage(host, data) && DecodeMessage(host, data).Ok?
    ensures var m := DecodeMessage(host, data).value;
            m.op == data[0] && m.xid == BigEndian32(data[4..8]) && m.chaddr == Some(data[28..34])
  {
    hide DecodeArea, WellFormed;
  }

  lemma TypeOfDatagram(host: Host, data: Datagram, items: seq<Item>, tail: seq<byte>)
    requires |data| >= 240 && data[1] == 1 && data[236..240] == [99, 130, 83, 99]
    requires data[240..] == Flatten(items) + tail && IsTail(tail) && AllAcceptable(items)
    ensures DefinedMessage(host, data) && DecodeMessage(host, data).Ok?
    ensures NoType(items) ==> MessageType(host, data) == None
    ensures forall i | FirstType(items, i) ::
              |items[i].payload| == 1 && MessageType(host, data) == Some(items[i].payload[0])
  {
    hide WellFormed, DecodeArea, DecodeItems, Flatten, AllAcceptable, OptionCodec.Acceptable, Header, FirstType, NoType;
    DatagramIsDefined(host, data);
    AreaFollowsGrammar(host, items, tail);
    TypeOfItems(host, items);
    NoOptionsNoType();
  }

  lemma NoOptionsNoType()
    ensures MessageTypeOption([]) == None
  {
  }

  lemma {:induction false} HasFirstType(items: seq<Item>)
    requires !NoType(items)
    ensures exists i :: FirstType(items, i)
  {
    if items[0].Tlv? && items[0].code == 53 {
      assert FirstType(items, 0);
    } else {
      assert forall i | 0 <= i < |items| - 1 :: items[1..][i] == items[i + 1];
      var j :| 0 <= j < |items| && items[j].Tlv? && items[j].code == 53;
      assert items[1..][j - 1] == items[j];
      HasFirstType(items[1..]);
      var i :| FirstType(items[1..], i);
      assert FirstType(items, i + 1);
    }
  }

  /** A datagram with acceptable options asks for something exactly when it is a BOOTREQUEST (1)
      whose first option 53, wherever it stands, is one byte 1 or 3; it then asks for the
      transaction in bytes 4 to 7 and the client in bytes 28 to 33. */
  lemma ClassifyItems(host: Host, data: Datagram, items: seq<Item>, tail: seq<byte>, k: byte, x: u32, m: Mac)
    requires |data| >= 240 && data[1] == 1 && data[236..240] == [99, 130, 83, 99]
    requires data[240..] == Flatten(items) + tail && IsTail(tail) && AllAcceptable(items)
    ensures Classify(host, data) == Some(Asked(k, x, m)) <==>
              && data[0] == 1
              && (k == 1 || k == 3)
              && (exists i :: FirstType(items, i) && items[i].payload == [k])
              && x == 0x100_0000 * (data[4] as int) + 0x1_0000 * (data[5] as int) + 0x100 * (data[6] as int) + data[7]
              && m == data[28..34]
  {
    hide AllAcceptable, NoType, Flatten, DecodeMessage, DefinedMessage, MessageType, MessageTypeOption;
    TypeOfDatagram(host, data, items, tail);
    HeaderFields(host, data);
    if NoType(items) {
      NoFirstType(items);
    } else {
      HasFirstType(items);
      var i :| FirstType(items, i);
      OneFirstType(items, i);
      FirstTypeIsTlv(items, i);
    }
  }

  lemma NoFirstType(items: seq<Item>)
    requires NoType(items)
    ensures !exists i :: FirstType(items, i)
  {
  }

  lemma FirstTypeIsTlv(items: seq<Item>, i: int)
    requires FirstType(items, i)
    ensures 0 <= i < |items| && items[i].Tlv?
  {
  }

  lemma OneFirstType(items: seq<Item>, i: int)
    requires FirstType(items, i)
    ensures forall j | FirstType(items, j) :: j == i
  {
  }

  /** The same for all datagrams: what is not of that form asks for nothing. */
  lemma ClassifyExactly(host: Host, data: Datagram, k: byte, x: u32, m: Mac)
    ensures Classify(host, data) == Some(Asked(k, x, m)) <==>
              && |data| >= 240 && data[0] == 1 && data[1] == 1 && data[236..240] == [99, 130, 83, 99]
              && (k == 1 || k == 3)
              && (exists items: seq<Item>, tail, i ::
                    && data[240..] == Flatten(items) + tail && IsTail(tail) && AllAcceptable(items)
                    && FirstType(items, i) && items[i].payload == [k])
              && x == 0x100_0000 * (data[4] as int) + 0x1_0000 * (data[5] as int) + 0x100 * (data[6] as int) + data[7]
              && m == data[28..34]
  {
    hide AllAcceptable, Flatten, Classify, DecodeMessage, DefinedMessage, MessageType, IsTail;
    if Classify(host, data).Some? {
      DatagramAcceptedExactly(host, data);
      AsksHasOptions(host, data);
      var items: seq<Item>, tail :| IsTail(tail) && data[240..] == Flatten(items) + tail && AllAcceptable(items);
      ClassifyItems(host, data, items, tail, k, x, m);
    }
    if |data| >= 240 && data[1] == 1 && data[236..240] == [99, 130, 83, 99] {
      forall items: seq<Item>, tail | data[240..] == Flatten(items) + tail && IsTail(tail) && AllAcceptable(items)
        ensures Classify(host, data) == Some(Asked(k, x, m)) <==>
              && data[0] == 1
              && (k == 1 || k == 3)
              && (exists i :: FirstType(items, i) && items[i].payload == [k])
              && x == 0x100_0000 * (data[4] as int) + 0x1_0000 * (data[5] as int) + 0x100 * (data[6] as int) + data[7]
              && m == data[28..34]
      {
        ClassifyItems(host, data, items, tail, k, x, m);
      }
    }
  }

  lemma AsksHasOptions(host: Host, data: Datagram)
    requires DefinedMessage(host, data) && DecodeMessage(host, data).Ok? && MessageType(host, data).Some?
    ensures |data| >= 240
  {
    hide WellFormed, DecodeArea, MessageTypeOption;
  }
}
