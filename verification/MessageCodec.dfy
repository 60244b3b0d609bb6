/** What the message parser and emitter of DhcpMessages do to each other's output. */
module MessageCodec {
  import opened Wrappers
  import opened Words
  import opened IpAddresses
  import opened DhcpOptions
  import opened OptionCodec
  import opened DhcpMessages

  // ---- The grammar of the option area ---------------------------------------

  datatype AreaItem = Pad | Tlv(code: byte, payload: seq<byte>)

  predicate ValidTlv(code: byte, payload: seq<byte>) {
    code != 0 && code != 255 && |payload| < 0x100 && Defined(code, payload)
  }

  type Item = i: AreaItem | i.Tlv? ==> ValidTlv(i.code, i.payload) witness Pad

  function Flatten(items: seq<Item>): seq<byte>
  {
    if items == [] then []
    else if items[0].Pad? then [0] + Flatten(items[1..])
    else [items[0].code, |items[0].payload|] + items[0].payload + Flatten(items[1..])
  }

  function WithoutPads(items: seq<Item>): (r: seq<Item>)
    ensures forall i | i in r :: i in items && i.Tlv?
  {
    if items == [] then []
    else if items[0].Pad? then WithoutPads(items[1..])
    else [items[0]] + WithoutPads(items[1..])
  }

  /** The options of a list of items, up to the first that is rejected. */
  function DecodeItems(host: Host, items: seq<Item>): Result<seq<DhcpOption>, OptionError>
  {
    if items == [] then Ok([])
    else if items[0].Pad? then DecodeItems(host, items[1..])
    else
      var o :- DecodeOption(host, items[0].code, items[0].payload);
      var rest :- DecodeItems(host, items[1..]);
      Ok([o] + rest)
  }

  /** What may follow the items: nothing, or the end option and any bytes after it. */
  predicate IsTail(tail: seq<byte>) {
    tail == [] || tail[0] == 255
  }

  /** One TLV at the head of an area. */
  lemma AreaHead(host: Host, code: byte, p: seq<byte>, rest: seq<byte>)
    requires ValidTlv(code, p)
    ensures var area, o := [code, |p|] + p + rest, DecodeOption(host, code, p);
            && (WellFormed(host, area) <==> (o.Ok? ==> WellFormed(host, rest)))
            && (o.Err? ==> DecodeArea(host, area) == Err(o.error))
            && (o.Ok? && WellFormed(host, rest) ==>
                  DecodeArea(host, area) == Prepend([o.value], DecodeArea(host, rest)))
  {
    hide DecodeOption, Defined;
    var area := [code, |p|] + p + rest;
    assert area[2..2 + |p|] == p;
    assert area[2 + |p|..] == rest;
  }

  lemma AreaPad(host: Host, rest: seq<byte>)
    ensures WellFormed(host, [0] + rest) <==> WellFormed(host, rest)
    ensures WellFormed(host, rest) ==> DecodeArea(host, [0] + rest) == DecodeArea(host, rest)
  {
    assert ([0] + rest)[1..] == rest;
  }

  lemma AreaTail(host: Host, tail: seq<byte>)
    requires IsTail(tail)
    ensures WellFormed(host, tail) && DecodeArea(host, tail) == Ok([])
  {
  }

  /** What the first item contributes, on either side. */
  lemma PadFirst(host: Host, items: seq<Item>, tail: seq<byte>)
    requires items != [] && items[0].Pad?
    ensures Flatten(items) + tail == [0] + (Flatten(items[1..]) + tail)
    ensures DecodeItems(host, items) == DecodeItems(host, items[1..])
  {
  }

  lemma TlvFirst(host: Host, items: seq<Item>, tail: seq<byte>)
    requires items != [] && items[0].Tlv?
    ensures var code, p := items[0].code, items[0].payload;
            && Flatten(items) + tail == [code, |p|] + p + (Flatten(items[1..]) + tail)
            && (DecodeOption(host, code, p).Err? ==> DecodeItems(host, items) == Err(DecodeOption(host, code, p).error))
            && (DecodeOption(host, code, p).Ok? ==>
                  DecodeItems(host, items) == Prepend([DecodeOption(host, code, p).value], DecodeItems(host, items[1..])))
  {
    hide DecodeOption, Defined;
  }

  /** The option loop returns the options of the grammar, in order. */
  lemma {:induction false} AreaFollowsGrammar(host: Host, items: seq<Item>, tail: seq<byte>)
    requires IsTail(tail)
    ensures WellFormed(host, Flatten(items) + tail)
    ensures DecodeArea(host, Flatten(items) + tail) == DecodeItems(host, items)
  {
    hide DecodeOption, Defined, WellFormed, DecodeArea;
    if items == [] {
      assert Flatten(items) + tail == tail;
      AreaTail(host, tail);
    } else {
      hide Flatten, DecodeItems;
      var rest := Flatten(items[1..]) + tail;
      AreaFollowsGrammar(host, items[1..], tail);
      if items[0].Pad? {
        PadFirst(host, items, tail);
        AreaPad(host, rest);
      } else {
        TlvFirst(host, items, tail);
        AreaHead(host, items[0].code, items[0].payload, rest);
      }
    }
  }

  lemma {:induction false} PadsAreSkipped(host: Host, items: seq<Item>)
    ensures DecodeItems(host, WithoutPads(items)) == DecodeItems(host, items)
  {
    hide DecodeOption, Defined;
    if items != [] {
      PadsAreSkipped(host, items[1..]);
      if items[0].Tlv? {
        assert ([items[0]] + WithoutPads(items[1..]))[1..] == WithoutPads(items[1..]);
      }
    }
  }

  /** Pads between options and bytes after the end option change nothing. */
  lemma PadsAndTailChangeNothing(host: Host, items: seq<Item>, tail: seq<byte>)
    requires IsTail(tail)
    ensures WellFormed(host, Flatten(items) + tail) && WellFormed(host, Flatten(WithoutPads(items)))
    ensures DecodeArea(host, Flatten(items) + tail) == DecodeArea(host, Flatten(WithoutPads(items)))
  {
    AreaFollowsGrammar(host, items, tail);
    AreaFollowsGrammar(host, WithoutPads(items), []);
    PadsAreSkipped(host, items);
    assert Flatten(WithoutPads(items)) + [] == Flatten(WithoutPads(items));
  }

  /** Every area the parser accepts is a list of items and a tail. */
  lemma {:induction false} AcceptedAreaIsGrammar(host: Host, area: seq<byte>) returns (items: seq<Item>, tail: seq<byte>)
    requires WellFormed(host, area) && DecodeArea(host, area).Ok?
    ensures IsTail(tail)
    ensures area == Flatten(items) + tail
    decreases |area|
  {
    hide DecodeOption, Defined;
    if area == [] || area[0] == 255 {
      items, tail := [], area;
      assert area == Flatten(items) + tail;
    } else if area[0] == 0 {
      var rest;
      rest, tail := AcceptedAreaIsGrammar(host, area[1..]);
      items := [Pad] + rest;
      assert items[1..] == rest;
      PadFirst(host, items, tail);
      assert area == [0] + area[1..];
    } else {
      var n: int := area[1];
      var p, others := area[2..2 + n], [];
      others, tail := AcceptedAreaIsGrammar(host, area[2 + n..]);
      items := [Tlv(area[0], p)] + others;
      assert items[1..] == others;
      hide Flatten, WellFormed, DecodeArea;
      TlvFirst(host, items, tail);
      assert area == [area[0], |p|] + p + area[2 + n..];
    }
  }

  // ---- What is accepted ----------------------------------------------------------

  predicate AllAcceptable(items: seq<Item>) {
    forall i | 0 <= i < |items| && items[i].Tlv? :: Acceptable(items[i].code, items[i].payload)
  }

  lemma {:induction false} ItemsAcceptedExactly(host: Host, items: seq<Item>)
    ensures DecodeItems(host, items).Ok? <==> AllAcceptable(items)
  {
    hide DecodeOption, Defined, Acceptable;
    if items != [] {
      var first, rest := items[0], items[1..];
      ItemsAcceptedExactly(host, rest);
      assert AllAcceptable(items) <==> (first.Tlv? ==> Acceptable(first.code, first.payload)) && AllAcceptable(rest) by {
        assert forall i | 0 <= i < |rest| :: rest[i] == items[i + 1];
        assert forall i | 1 <= i < |items| :: items[i] == rest[i - 1];
      }
      if first.Tlv? {
        AcceptedExactly(host, first.code, first.payload);
      }
    }
  }

  /** Pads and acceptable TLVs, ended by nothing or by the end option and any bytes after it. */
  ghost predicate AcceptableArea(area: seq<byte>) {
    exists items: seq<Item>, tail ::
      IsTail(tail) && area == Flatten(items) + tail && AllAcceptable(items)
  }

  /** The area is defined and accepted exactly when it is such a list. */
  lemma AreaAcceptedExactly(host: Host, area: seq<byte>)
    ensures WellFormed(host, area) && DecodeArea(host, area).Ok? <==> AcceptableArea(area)
  {
    hide WellFormed, DecodeArea, DecodeItems, Flatten, AllAcceptable;
    if WellFormed(host, area) && DecodeArea(host, area).Ok? {
      var items, tail := AcceptedAreaIsGrammar(host, area);
      AreaFollowsGrammar(host, items, tail);
      ItemsAcceptedExactly(host, items);
    }
    if AcceptableArea(area) {
      var items: seq<Item>, tail :| IsTail(tail) && area == Flatten(items) + tail && AllAcceptable(items);
      AreaFollowsGrammar(host, items, tail);
      ItemsAcceptedExactly(host, items);
    }
  }

  /** A header of 236 bytes for Ethernet and, if there are four bytes more, the cookie and an
      acceptable area. */
  ghost predicate AcceptableDatagram(data: seq<byte>) {
    && |data| >= 236 && data[1] == 1
    && (|data| >= 240 ==> data[236..240] == [99, 130, 83, 99] && AcceptableArea(data[240..]))
  }

  /** The parser is defined on a datagram and accepts it exactly when it has this form. */
  lemma DatagramAcceptedExactly(host: Host, data: seq<byte>)
    ensures DefinedMessage(host, data) && DecodeMessage(host, data).Ok? <==> AcceptableDatagram(data)
  {
    hide WellFormed, DecodeArea, AcceptableArea, Header;
    if HasOptions(data) {
      AreaAcceptedExactly(host, data[240..]);
    }
  }

  /** So one option code outside the table makes it reject the whole datagram, whatever the
      other options are. */
  lemma UnknownCodeIsRejected(host: Host, data: seq<byte>, items: seq<Item>, tail: seq<byte>, i: nat)
    requires |data| >= 240 && data[240..] == Flatten(items) + tail && IsTail(tail)
    requires i < |items| && items[i].Tlv? && (items[i].code in {62, 63} || items[i].code >= 77)
    ensures DefinedMessage(host, data) && DecodeMessage(host, data).Err? && !AcceptableDatagram(data)
  {
    hide WellFormed, DecodeArea, Flatten, DecodeItems, Header, AcceptableArea;
    AreaFollowsGrammar(host, items, tail);
    ItemsAcceptedExactly(host, items);
    assert !AllAcceptable(items);
    DatagramAcceptedExactly(host, data);
  }

  // ---- What is rejected ----------------------------------------------------------

  /** Acceptable items, then one that is not acceptable, then any bytes. */
  ghost predicate RejectedArea(area: seq<byte>) {
    exists items: seq<Item>, code: byte, p: seq<byte>, rest: seq<byte> ::
      && AllAcceptable(items) && ValidTlv(code, p) && !Acceptable(code, p)
      && area == Flatten(items) + ([code, |p|] + p + rest)
  }

  /** The first option that is not acceptable ends the parsing with its exception. */
  lemma {:induction false} FirstBadOption(host: Host, items: seq<Item>, code: byte, p: seq<byte>, rest: seq<byte>)
    requires AllAcceptable(items) && ValidTlv(code, p) && !Acceptable(code, p)
    ensures DecodeOption(host, code, p).Err?
    ensures var area := Flatten(items) + ([code, |p|] + p + rest);
            WellFormed(host, area) && DecodeArea(host, area) == Err(DecodeOption(host, code, p).error)
  {
    AcceptedExactly(host, code, p);
    hide DecodeOption, Defined, WellFormed, DecodeArea, Acceptable;
    var last := [code, |p|] + p + rest;
    if items == [] {
      assert Flatten(items) + last == last;
      AreaHead(host, code, p, rest);
    } else {
      assert forall i | 0 <= i < |items| - 1 :: items[1..][i] == items[i + 1];
      FirstBadOption(host, items[1..], code, p, rest);
      if items[0].Pad? {
        PadFirst(host, items, last);
        AreaPad(host, Flatten(items[1..]) + last);
      } else {
        TlvFirst(host, items, last);
        AcceptedExactly(host, items[0].code, items[0].payload);
        AreaHead(host, items[0].code, items[0].payload, Flatten(items[1..]) + last);
      }
    }
  }

  lemma OneMoreAcceptable(item: Item, items: seq<Item>)
    requires AllAcceptable(items) && (item.Tlv? ==> Acceptable(item.code, item.payload))
    ensures AllAcceptable([item] + items) && ([item] + items)[1..] == items
  {
    hide Acceptable;
  }

  lemma {:induction false} RejectedHasForm(host: Host, area: seq<byte>)
    returns (items: seq<Item>, code: byte, p: seq<byte>, rest: seq<byte>)
    requires WellFormed(host, area) && DecodeArea(host, area).Err?
    ensures AllAcceptable(items) && ValidTlv(code, p) && !Acceptable(code, p)
    ensures area == Flatten(items) + ([code, |p|] + p + rest)
    decreases |area|
  {
    hide DecodeOption, Defined, Acceptable, Flatten;
    if area[0] == 0 {
      var others;
      others, code, p, rest := RejectedHasForm(host, area[1..]);
      items := [Pad] + others;
      OneMoreAcceptable(Pad, others);
      PadFirst(host, items, [code, |p|] + p + rest);
      assert area == [0] + area[1..];
    } else {
      var n: int := area[1];
      var q, tail := area[2..2 + n], area[2 + n..];
      assert area == [area[0], |q|] + q + tail;
      AcceptedExactly(host, area[0], q);
      if DecodeOption(host, area[0], q).Err? {
        items, code, p, rest := [], area[0], q, tail;
        NothingFlat();
        assert Flatten(items) + area == area;
      } else {
        var others;
        others, code, p, rest := RejectedHasForm(host, tail);
        items := [Tlv(area[0], q)] + others;
        OneMoreAcceptable(items[0], others);
        hide WellFormed, DecodeArea;
        TlvFirst(host, items, [code, |p|] + p + rest);
      }
    }
  }

  lemma NothingFlat()
    ensures Flatten([]) == []
  {
  }

  /** The area is read inside its bounds and rejected exactly when it is such a list. */
  lemma AreaRejectedExactly(host: Host, area: seq<byte>)
    ensures WellFormed(host, area) && DecodeArea(host, area).Err? <==> RejectedArea(area)
  {
    hide WellFormed, DecodeArea, Flatten, AllAcceptable, ValidTlv, Acceptable;
    if WellFormed(host, area) && DecodeArea(host, area).Err? {
      var items, code, p, rest := RejectedHasForm(host, area);
    }
    if RejectedArea(area) {
      var items: seq<Item>, code: byte, p: seq<byte>, rest: seq<byte> :|
        && AllAcceptable(items) && ValidTlv(code, p) && !Acceptable(code, p)
        && area == Flatten(items) + ([code, |p|] + p + rest);
      FirstBadOption(host, items, code, p, rest);
    }
  }

  /** The parser is defined on a datagram and throws exactly in these cases, tested in this
      order. */
  lemma DatagramRejectedExactly(host: Host, data: seq<byte>)
    ensures DefinedMessage(host, data) && DecodeMessage(host, data).Err? <==>
              || |data| < 236
              || data[1] != 1
              || (|data| >= 240 && (data[236..240] != [99, 130, 83, 99] || RejectedArea(data[240..])))
    ensures DefinedMessage(host, data) ==>
              && (DecodeMessage(host, data) == Err(MessageTooShort) <==> |data| < 236)
              && (DecodeMessage(host, data) == Err(UnsupportedHardware) <==> |data| >= 236 && data[1] != 1)
              && (DecodeMessage(host, data) == Err(BadCookie) <==>
                    |data| >= 240 && data[1] == 1 && data[236..240] != [99, 130, 83, 99])
  {
    hide WellFormed, DecodeArea, RejectedArea, Header;
    if |data| >= 240 {
      AreaRejectedExactly(host, data[240..]);
    }
  }

  // ---- Options that were parsed ---------------------------------------------

  predicate HasNoFlag(o: DhcpOption) {
    !o.description.kind.Boolean?
  }

  /** The bytes an option was parsed from. */
  function Payload(o: DhcpOption): seq<byte>
    requires AllEmittable(o.values)
  {
    EncodeValues(Big, o.values)
  }

  /** `o` is what the parser makes of some payload, which then is Payload(o). */
  predicate Parsed(host: Host, o: DhcpOption) {
    && HasNoFlag(o)
    && AllEmittable(o.values)
    && o.description.code != 0 && o.description.code != 255
    && |Payload(o)| < 0x100
    && Defined(o.description.code, Payload(o))
    && DecodeOption(host, o.description.code, Payload(o)) == Ok(o)
  }

  lemma DecodedIsParsed(host: Host, code: byte, p: seq<byte>)
    requires Defined(code, p) && |p| < 0x100
    requires DecodeOption(host, code, p).Ok? && HasNoFlag(DecodeOption(host, code, p).value)
    ensures var o := DecodeOption(host, code, p).value;
            Parsed(host, o) && Payload(o) == p && o.description.code == code
  {
    OptionRoundTrip(host, Big, code, p);
    var d := Describe(code).value;
    assert DecodeOption(host, code, p).value.description == d;
    FixedIsOneElement(code);
    hide Describe;
    if IsElementKind(d.kind) {
      WireTwice(Big, d.kind, p);
    }
  }

  /** The payload of a parsed option as the host emits it. */
  function Emitted(host: Host, o: DhcpOption): seq<byte>
    requires AllEmittable(o.values)
  {
    EncodeValues(host, o.values)
  }

  /** What a caller can check: each value leaves in network order. */
  predicate StableOption(host: Host, o: DhcpOption)
    requires AllEmittable(o.values)
  {
    forall v | v in o.values :: EncodeValue(host, v) == EncodeValue(Big, v)
  }

  /** A 16- or 32-bit number leaves a little-endian host in network order exactly when its
      bytes read the same in both directions; every other value always does. */
  lemma StableValue(host: Host, v: Value)
    requires Emittable(v)
    ensures EncodeValue(host, v) == EncodeValue(Big, v) <==>
              || host.Big?
              || match v
                 case U16(h) => h / 0x100 == h % 0x100
                 case U32(w) => Network32(w) == Reversed(Network32(w))
                 case I32(i) => Network32(Unsigned(i)) == Reversed(Network32(Unsigned(i)))
                 case _ => true
  {
    hide Network32, Unsigned;
  }

  lemma ValueLength(host: Host, v: Value)
    requires Emittable(v)
    ensures |EncodeValue(host, v)| == |EncodeValue(Big, v)|
  {
  }

  lemma {:induction false} StableValues(host: Host, vs: seq<Value>)
    requires AllEmittable(vs)
    ensures EncodeValues(host, vs) == EncodeValues(Big, vs)
            <==> forall v | v in vs :: EncodeValue(host, v) == EncodeValue(Big, v)
    ensures |EncodeValues(host, vs)| == |EncodeValues(Big, vs)|
  {
    if vs != [] {
      StableValues(host, vs[1..]);
      ValueLength(host, vs[0]);
      hide EncodeValue, Emittable;
      SamePrefix(EncodeValue(host, vs[0]), EncodeValues(host, vs[1..]),
                 EncodeValue(Big, vs[0]), EncodeValues(Big, vs[1..]));
      assert vs == [vs[0]] + vs[1..];
    }
  }

  lemma SamePrefix(a: seq<byte>, b: seq<byte>, c: seq<byte>, d: seq<byte>)
    requires |a| == |c|
    ensures a + b == c + d <==> a == c && b == d
  {
    if a + b == c + d {
      assert a == (a + b)[..|a|] == (c + d)[..|c|] == c;
      assert b == (a + b)[|a|..] == (c + d)[|c|..] == d;
    }
  }

  /** Parsing what the host emits for `o`. */
  lemma ReparseOption(host: Host, o: DhcpOption)
    requires Parsed(host, o)
    ensures var p, q := Payload(o), Emitted(host, o);
            && |q| == |p|
            && Defined(o.description.code, q)
            && EncodeOption(host, o) == [o.description.code, |q|] + q
            && (DecodeOption(host, o.description.code, q) == Ok(o) <==> StableOption(host, o))
            && (DecodeOption(host, o.description.code, q).Ok? ==>
                  Parsed(host, DecodeOption(host, o.description.code, q).value)
                  && Emitted(host, DecodeOption(host, o.description.code, q).value) == p
                  && DecodeOption(host, o.description.code, q).value.description.code == o.description.code)
  {
    var code, p, q := o.description.code, Payload(o), Emitted(host, o);
    OptionRoundTrip(host, host, code, p);
    RereadExactly(host, code, p);
    StableValues(host, o.values);
    var d := Describe(code).value;
    assert o.description == d;
    hide Describe, DecodeValues;
    if DecodeOption(host, code, q).Ok? {
      DecodedIsParsed(host, code, q);
      OptionRoundTrip(host, host, code, q);
      if IsElementKind(d.kind) {
        WireTwice(host, d.kind, p);
      }
    }
  }

  // ---- The option area, there and back ----------------------------------------

  predicate AllParsed(host: Host, os: seq<DhcpOption>) {
    forall i | 0 <= i < |os| :: Parsed(host, os[i])
  }

  predicate AllStable(host: Host, os: seq<DhcpOption>)
    requires EmittableOptions(os)
  {
    forall i | 0 <= i < |os| :: StableOption(host, os[i])
  }

  lemma ParsedIsEmittable(host: Host, os: seq<DhcpOption>)
    requires AllParsed(host, os)
    ensures EmittableOptions(os)
  {
  }

  lemma {:induction false} DecodedAreaIsParsed(host: Host, area: seq<byte>)
    requires WellFormed(host, area) && DecodeArea(host, area).Ok?
    requires forall o | o in DecodeArea(host, area).value :: HasNoFlag(o)
    ensures AllParsed(host, DecodeArea(host, area).value)
    decreases |area|
  {
    hide DecodeOption, Defined, Parsed, HasNoFlag;
    if area != [] && area[0] != 255 {
      if area[0] == 0 {
        DecodedAreaIsParsed(host, area[1..]);
      } else {
        var n: int := area[1];
        var o, rest := DecodeOption(host, area[0], area[2..2 + n]).value, DecodeArea(host, area[2 + n..]).value;
        assert DecodeArea(host, area).value == [o] + rest;
        assert ([o] + rest)[0] == o;
        assert forall x | x in rest :: x in [o] + rest;
        DecodedIsParsed(host, area[0], area[2..2 + n]);
        DecodedAreaIsParsed(host, area[2 + n..]);
      }
    }
  }

  function EmittedArea(host: Host, os: seq<DhcpOption>): seq<byte>
    requires EmittableOptions(os)
  {
    EncodeOptions(host, os) + [255]
  }

  /** Parsing the emitted area gives the same options back, and emitting those gives the same
      bytes again, each exactly when every option is stable. */
  lemma {:induction false} AreaRoundTrip(host: Host, os: seq<DhcpOption>)
    requires AllParsed(host, os) && EmittableOptions(os)
    ensures WellFormed(host, EmittedArea(host, os))
    ensures DecodeArea(host, EmittedArea(host, os)) == Ok(os) <==> AllStable(host, os)
    ensures var again := DecodeArea(host, EmittedArea(host, os));
            && (again.Ok? ==> EmittableOptions(again.value) && |again.value| == |os|)
            && ((again.Ok? && EncodeOptions(host, again.value) == EncodeOptions(host, os)) <==> AllStable(host, os))
  {
    hide DecodeOption, Defined, WellFormed, DecodeArea, EncodeOption, Parsed, StableOption, AllEmittable;
    if os == [] {
      assert EmittedArea(host, os) == [255];
      AreaTail(host, [255]);
    } else {
      var o, tail := os[0], os[1..];
      var p, q := Payload(o), Emitted(host, o);
      var code := o.description.code;
      AreaRoundTrip(host, tail);
      ReparseOption(host, o);
      ParsedCode(host, o);
      assert EmittedArea(host, os) == [code, |q|] + q + EmittedArea(host, tail);
      AreaHead(host, code, q, EmittedArea(host, tail));
      assert AllStable(host, os) <==> StableOption(host, o) && AllStable(host, tail);
      var first, others := DecodeOption(host, code, q), DecodeArea(host, EmittedArea(host, tail));
      if first.Ok? && others.Ok? {
        ReparseOption(host, first.value);
        ParsedCode(host, first.value);
        ConsEquals(first.value, others.value, os);
        EncodeCons(host, first.value, others.value);
        StablePayload(host, o);
        SamePrefix([code, |p|] + p, EncodeOptions(host, others.value), [code, |q|] + q, EncodeOptions(host, tail));
        SamePrefix([code, |p|], p, [code, |q|], q);
      }
    }
  }

  lemma ParsedCode(host: Host, o: DhcpOption)
    requires Parsed(host, o)
    ensures AllEmittable(o.values)
    ensures o.description.code != 0 && o.description.code != 255 && |Payload(o)| < 0x100
  {
  }

  lemma StablePayload(host: Host, o: DhcpOption)
    requires AllEmittable(o.values)
    ensures StableOption(host, o) <==> Emitted(host, o) == Payload(o)
  {
    StableValues(host, o.values);
  }

  lemma ConsEquals(o: DhcpOption, os: seq<DhcpOption>, all: seq<DhcpOption>)
    requires all != []
    ensures [o] + os == all <==> o == all[0] && os == all[1..]
  {
    if [o] + os == all {
      assert ([o] + os)[0] == o && ([o] + os)[1..] == os;
    }
  }

  lemma EncodeCons(host: Host, o: DhcpOption, os: seq<DhcpOption>)
    requires AllEmittable(o.values) && EmittableOptions(os)
    ensures EmittableOptions([o] + os)
    ensures EncodeOptions(host, [o] + os) == EncodeOption(host, o) + EncodeOptions(host, os)
  {
    hide EncodeOption, AllEmittable;
    assert ([o] + os)[1..] == os;
  }

  // ---- Whole messages -----------------------------------------------------------

  /** A message with the server name and boot file that the emitter writes. */
  function Normal(m: Message): Message {
    m.(sname := Zeros(64), file := Zeros(128))
  }

  lemma HeaderSlices(m: Message)
    requires m.chaddr.Some?
    ensures var h := EncodeHeader(m);
            && h[0] == m.op && h[1] == m.htype && h[2] == m.hlen && h[3] == m.hops
            && h[4..8] == Network32(m.xid) && h[8..10] == Network16(m.secs) && h[10..12] == Network16(m.flags)
  {
    hide Network32, Network16;
  }

  lemma AddressSlices(m: Message)
    requires m.chaddr.Some?
    ensures var h := EncodeHeader(m);
            && h[12..16] == m.ciaddr && h[16..20] == m.yiaddr && h[20..24] == m.siaddr && h[24..28] == m.giaddr
            && h[28..34] == m.chaddr.value && h[34..44] == Zeros(10)
            && h[44..108] == Zeros(64) && h[108..236] == Zeros(128)
  {
    hide Network32, Network16;
  }

  lemma Slice(h: seq<byte>, rest: seq<byte>, i: nat, j: nat)
    requires i <= j <= |h|
    ensures (h + rest)[i..j] == h[i..j]
  {
  }

  lemma HeaderRoundTrip(m: Message, rest: seq<byte>)
    requires m.chaddr.Some?
    ensures Header(EncodeHeader(m) + rest) == Normal(m).(options := [])
  {
    hide EncodeHeader, Network32, Network16, BigEndian32, BigEndian16;
    var h := EncodeHeader(m);
    HeaderSlices(m);
    AddressSlices(m);
    Network32Inverse([0, 0, 0, 0], m.xid);
    Network16Inverse([0, 0], m.secs);
    Network16Inverse([0, 0], m.flags);
    Slice(h, rest, 4, 8);
    Slice(h, rest, 8, 10);
    Slice(h, rest, 10, 12);
    Slice(h, rest, 12, 16);
    Slice(h, rest, 16, 20);
    Slice(h, rest, 20, 24);
    Slice(h, rest, 24, 28);
    Slice(h, rest, 28, 34);
    Slice(h, rest, 44, 108);
    Slice(h, rest, 108, 236);
  }

  /** The reader loses nothing of a header but the ten bytes after the client address: written
      out again, with the names as they were read, its fields are the bytes received. */
  lemma HeaderKeepsBytes(data: seq<byte>)
    requires |data| >= 236
    ensures var m := Header(data);
            && m.chaddr.Some? && m.options == []
            && data[..236] ==
                 [m.op, m.htype, m.hlen, m.hops] + Network32(m.xid) + Network16(m.secs) + Network16(m.flags)
                 + m.ciaddr + m.yiaddr + m.siaddr + m.giaddr + m.chaddr.value + data[34..44] + m.sname + m.file
            && |m.sname| == 64 && |m.file| == 128
  {
    hide Network32, Network16, BigEndian32, BigEndian16;
    Network32Inverse(data[4..8], 0);
    Network16Inverse(data[8..10], 0);
    Network16Inverse(data[10..12], 0);
    FirstBytes(data);
    Join(data, 4, 8);
    Join(data, 8, 10);
    Join(data, 10, 12);
    Join(data, 12, 16);
    Join(data, 16, 20);
    Join(data, 20, 24);
    Join(data, 24, 28);
    Join(data, 28, 34);
    Join(data, 34, 44);
    Join(data, 44, 108);
    Join(data, 108, 236);
  }

  lemma FirstBytes(data: seq<byte>)
    requires |data| >= 4
    ensures data[..4] == [data[0], data[1], data[2], data[3]]
  {
  }

  lemma Join(data: seq<byte>, i: nat, j: nat)
    requires i <= j <= |data|
    ensures data[..i] + data[i..j] == data[..j]
  {
  }

  /** An accepted message without FLAG options. */
  predicate Accepted(host: Host, data: seq<byte>) {
    && DefinedMessage(host, data)
    && DecodeMessage(host, data).Ok?
    && forall o | o in DecodeMessage(host, data).value.options :: HasNoFlag(o)
  }

  lemma AcceptedIsSendable(host: Host, data: seq<byte>)
    requires Accepted(host, data)
    ensures var m := DecodeMessage(host, data).value;
            Sendable(m) && AllParsed(host, m.options) && m.htype == ETHERNET
  {
    hide WellFormed, DecodeArea, Parsed, BigEndian32, BigEndian16;
    var m := DecodeMessage(host, data).value;
    if m.options != [] {
      DecodedAreaIsParsed(host, data[240..]);
    }
    ParsedIsEmittable(host, m.options);
  }

  lemma EncodedShape(host: Host, m: Message)
    requires Sendable(m) && m.options != []
    ensures var e := EncodeMessage(host, m);
            && e == EncodeHeader(m) + (COOKIE + EmittedArea(host, m.options))
            && |e| >= 240 && e[236..240] == COOKIE && e[240..] == EmittedArea(host, m.options)
  {
    hide EncodeHeader, EncodeOptions;
    var tail := COOKIE + EmittedArea(host, m.options);
    var e := EncodeHeader(m) + tail;
    assert EncodeMessage(host, m) == e;
    assert e[236..240] == tail[..4] == COOKIE;
    assert e[240..] == tail[4..] == EmittedArea(host, m.options);
  }

  /** Emitting a parsed message and parsing it again. */
  lemma ReparseMessage(host: Host, m: Message)
    requires Sendable(m) && AllParsed(host, m.options) && m.htype == ETHERNET
    ensures var e := EncodeMessage(host, m);
            && DefinedMessage(host, e) && WellFormed(host, EmittedArea(host, m.options))
            && |e| >= MIN_LENGTH
            && Header(e) == Normal(m).(options := [])
            && DecodeMessage(host, e) ==
                 if m.options == [] then Ok(Normal(m))
                 else if DecodeArea(host, EmittedArea(host, m.options)).Ok?
                 then Ok(Normal(m).(options := DecodeArea(host, EmittedArea(host, m.options)).value))
                 else Err(BadOption(DecodeArea(host, EmittedArea(host, m.options)).error))
  {
    hide WellFormed, DecodeArea, EncodeHeader, EmittedArea, EncodeOptions, Header, Parsed;
    AreaRoundTrip(host, m.options);
    var e := EncodeMessage(host, m);
    if m.options == [] {
      HeaderRoundTrip(m, []);
      assert EncodeHeader(m) + [] == EncodeHeader(m);
      HeaderSlices(m);
    } else {
      EncodedShape(host, m);
      HeaderRoundTrip(m, COOKIE + EmittedArea(host, m.options));
      HeaderSlices(m);
    }
  }

  /** For every accepted message, parsing what the emitter makes of it gives it back, but for
      the blanked server name and boot file, exactly when each of its options is stable;
      without options the emitted message is the bare 236-byte header. */
  lemma MessageRoundTrip(host: Host, data: seq<byte>)
    requires Accepted(host, data)
    ensures var m := DecodeMessage(host, data).value;
            && Sendable(m)
            && DefinedMessage(host, EncodeMessage(host, m))
            && (DecodeMessage(host, EncodeMessage(host, m)) == Ok(Normal(m)) <==> AllStable(host, m.options))
            && (m.options == [] ==> |EncodeMessage(host, m)| == MIN_LENGTH)
  {
    hide WellFormed, DecodeArea, EncodeHeader, EmittedArea, EncodeOptions, Header, Parsed, StableOption;
    var m := DecodeMessage(host, data).value;
    AcceptedIsSendable(host, data);
    AreaRoundTrip(host, m.options);
    ReparseMessage(host, m);
  }

  /** Emitting an accepted message normalises it: doing so twice is the same as once, exactly
      when each of its options is stable. */
  lemma NormalisingTwice(host: Host, data: seq<byte>)
    requires Accepted(host, data)
    ensures var m := DecodeMessage(host, data).value;
            && Sendable(m)
            && var e := EncodeMessage(host, m);
            && DefinedMessage(host, e)
            && var again := DecodeMessage(host, e);
            && (again.Ok? ==> Sendable(again.value))
            && ((again.Ok? && EncodeMessage(host, again.value) == e) <==> AllStable(host, m.options))
  {
    hide WellFormed, DecodeArea, EncodeHeader, EmittedArea, EncodeOptions, Header, Parsed, StableOption;
    var m := DecodeMessage(host, data).value;
    AcceptedIsSendable(host, data);
    AreaRoundTrip(host, m.options);
    ReparseMessage(host, m);
    var again := DecodeMessage(host, EncodeMessage(host, m));
    if again.Ok? && m.options != [] {
      SameHeader(m, again.value);
      EncodedShape(host, m);
      EncodedShape(host, again.value);
      SamePrefix(EncodeHeader(m), COOKIE + EmittedArea(host, m.options),
                 EncodeHeader(again.value), COOKIE + EmittedArea(host, again.value.options));
      SamePrefix(COOKIE, EmittedArea(host, m.options), COOKIE, EmittedArea(host, again.value.options));
      SameArea(host, m.options, again.value.options);
    } else if again.Ok? {
      SameHeader(m, again.value);
    }
  }

  lemma SameHeader(m: Message, n: Message)
    requires m.chaddr.Some? && n == Normal(m).(options := n.options)
    ensures EncodeHeader(n) == EncodeHeader(m)
  {
  }

  lemma SameArea(host: Host, os: seq<DhcpOption>, again: seq<DhcpOption>)
    requires EmittableOptions(os) && EmittableOptions(again)
    ensures EmittedArea(host, os) == EmittedArea(host, again) <==> EncodeOptions(host, os) == EncodeOptions(host, again)
  {
    hide EncodeOptions;
    var a, b := EncodeOptions(host, os), EncodeOptions(host, again);
    if a + [255] == b + [255] {
      assert a == (a + [255])[..|a|] == (b + [255])[..|b|] == b;
    }
  }

  /** The item an accepted item is emitted as: the integers of its payload in host order. */
  function EmittedItem(host: Host, item: Item): Item
    requires item.Tlv?
  {
    var d := Describe(item.code);
    if d.Some? && Aligned(d.value.kind, |item.payload|)
    then Tlv(item.code, Wire(host, d.value.kind, item.payload))
    else item
  }

  function EmittedItems(host: Host, items: seq<Item>): seq<Item> {
    if items == [] then []
    else if items[0].Pad? then EmittedItems(host, items[1..])
    else [EmittedItem(host, items[0])] + EmittedItems(host, items[1..])
  }

  /** A host whose order is the network's emits the items as they came, without the pads. */
  lemma {:induction false} EmittedByBigEndian(items: seq<Item>)
    ensures EmittedItems(Big, items) == WithoutPads(items)
  {
    if items != [] {
      EmittedByBigEndian(items[1..]);
      if items[0].Tlv? {
        var d := Describe(items[0].code);
        if d.Some? && IsElementKind(d.value.kind) && Aligned(d.value.kind, |items[0].payload|) {
          WireTwice(Big, d.value.kind, items[0].payload);
        }
      }
    }
  }

  lemma EmittedTlv(host: Host, item: Item)
    requires item.Tlv? && DecodeOption(host, item.code, item.payload).Ok?
    requires HasNoFlag(DecodeOption(host, item.code, item.payload).value)
    ensures var o, e := DecodeOption(host, item.code, item.payload).value, EmittedItem(host, item);
            AllEmittable(o.values) && e.Tlv? && EncodeOption(host, o) == [e.code, |e.payload|] + e.payload
  {
    FixedIsOneElement(item.code);
    OptionRoundTrip(host, host, item.code, item.payload);
  }

  lemma {:induction false} EmittedTlvs(host: Host, items: seq<Item>)
    requires DecodeItems(host, items).Ok?
    requires forall o | o in DecodeItems(host, items).value :: HasNoFlag(o)
    ensures EmittableOptions(DecodeItems(host, items).value)
    ensures EncodeOptions(host, DecodeItems(host, items).value) == Flatten(EmittedItems(host, items))
  {
    hide DecodeOption, Defined, HasNoFlag, EncodeOption, AllEmittable, EmittedItem;
    if items != [] {
      if items[0].Pad? {
        EmittedTlvs(host, items[1..]);
      } else {
        var o, rest := DecodeOption(host, items[0].code, items[0].payload).value, DecodeItems(host, items[1..]).value;
        assert DecodeItems(host, items).value == [o] + rest;
        assert ([o] + rest)[0] == o;
        assert forall x | x in rest :: x in [o] + rest;
        EmittedTlvs(host, items[1..]);
        EmittedTlv(host, items[0]);
        EncodeCons(host, o, rest);
        assert EmittedItems(host, items)[1..] == EmittedItems(host, items[1..]);
      }
    }
  }

  /** What the emitter keeps and drops: the emitted message is the received one up to the
      client address, with blanked padding, server name and boot file, and with the options of
      its area in host order (EmittedByBigEndian) without pads or bytes after the end option. */
  lemma EmittedMessage(host: Host, data: seq<byte>) returns (items: seq<Item>, tail: seq<byte>)
    requires Accepted(host, data)
    ensures IsTail(tail) && (HasOptions(data) ==> data[240..] == Flatten(items) + tail)
    ensures var m := DecodeMessage(host, data).value;
            && Sendable(m)
            && EncodeMessage(host, m) ==
                 data[..34] + Zeros(10) + Zeros(64) + Zeros(128)
                 + if m.options == [] then [] else COOKIE + Flatten(EmittedItems(host, items)) + [255]
  {
    hide WellFormed, DecodeArea, Parsed, HasNoFlag, EncodeOptions, EncodeHeader;
    var m := DecodeMessage(host, data).value;
    AcceptedIsSendable(host, data);
    ReceivedHeader(data);
    items, tail := [], [];
    if HasOptions(data) {
      items, tail := AcceptedAreaIsGrammar(host, data[240..]);
      AreaFollowsGrammar(host, items, tail);
      EmittedTlvs(host, items);
    }
    SameHeader(Header(data), m.(sname := Zeros(64), file := Zeros(128)));
    SameHeader(m, m.(sname := Zeros(64), file := Zeros(128)));
  }

  lemma ReceivedHeader(data: seq<byte>)
    requires |data| >= MIN_LENGTH
    ensures EncodeHeader(Header(data)) == data[..34] + Zeros(10) + Zeros(64) + Zeros(128)
  {
    hide Network32, Network16, BigEndian32, BigEndian16;
    Network32Inverse(data[4..8], 0);
    Network16Inverse(data[8..10], 0);
    Network16Inverse(data[10..12], 0);
    assert data[..34] == [data[0], data[1], data[2], data[3]] + data[4..8] + data[8..10] + data[10..12]
                         + data[12..16] + data[16..20] + data[20..24] + data[24..28] + data[28..34];
  }
}
