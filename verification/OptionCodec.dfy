/** What the option parser and emitter of DhcpOptions do to each other's output. */
module OptionCodec {
  import opened Wrappers
  import opened Words
  import opened IpAddresses
  import opened DhcpOptions

  /** The emitter writes integers in host order although they were read in network order. */
  predicate Swaps(host: Host, kind: Kind) {
    host.Little? && (kind.Uint16? || kind.Uint32? || kind.Int32?)
  }

  function WireElement(host: Host, kind: Kind, b: seq<byte>): (r: seq<byte>)
    ensures |r| == |b|
  {
    if Swaps(host, kind) then Reversed(b) else b
  }

  /** A payload with each of its elements passed through WireElement. */
  function WireElements(host: Host, kind: Kind, p: seq<byte>): (r: seq<byte>)
    requires IsElementKind(kind) && Aligned(kind, |p|)
    ensures |r| == |p|
    decreases |p|
  {
    if p == [] then []
    else
      AlignedStep(kind, |p|);
      var n := ElementSize(kind);
      WireElement(host, kind, p[..n]) + WireElements(host, kind, p[n..])
  }

  function Wire(host: Host, kind: Kind, p: seq<byte>): (r: seq<byte>)
    requires Aligned(kind, |p|)
    ensures |r| == |p|
  {
    if IsElementKind(kind) then WireElements(host, kind, p) else p
  }

  lemma WireElementTwice(host: Host, kind: Kind, b: seq<byte>)
    requires IsElementKind(kind) && |b| == ElementSize(kind)
    ensures WireElement(host, kind, WireElement(host, kind, b)) == b
    ensures !Swaps(host, kind) ==> WireElement(host, kind, b) == b
  {
  }

  lemma {:induction false} WireTwice(host: Host, kind: Kind, p: seq<byte>)
    requires IsElementKind(kind) && Aligned(kind, |p|)
    ensures WireElements(host, kind, WireElements(host, kind, p)) == p
    ensures !Swaps(host, kind) ==> WireElements(host, kind, p) == p
    decreases |p|
  {
    hide WireElement, Swaps;
    if p != [] {
      AlignedStep(kind, |p|);
      var n := ElementSize(kind);
      WireTwice(host, kind, p[n..]);
      var head, tail := WireElement(host, kind, p[..n]), WireElements(host, kind, p[n..]);
      assert (head + tail)[..n] == head && (head + tail)[n..] == tail;
      WireElementTwice(host, kind, p[..n]);
    }
  }

  lemma SignedInverse(w: u32)
    ensures -0x8000_0000 <= Signed(w) < 0x8000_0000 && Unsigned(Signed(w)) == w
  {
  }

  lemma ElementRoundTrip(reader: Host, writer: Host, d: Description, b: seq<byte>)
    requires IsElementKind(d.kind) && !d.kind.Boolean? && |b| == ElementSize(d.kind)
    requires DecodeElement(reader, d, b).Ok?
    ensures var v := DecodeElement(reader, d, b).value;
            Emittable(v) && EncodeValue(writer, v) == WireElement(writer, d.kind, b)
  {
    hide Memory16, Memory32, Signed, Unsigned;
    match d.kind
    case Uint16 => MemoryOfNetwork16(writer, b);
    case Uint32 => MemoryOfNetwork32(writer, b);
    case Int32 =>
      SignedInverse(BigEndian32(b));
      MemoryOfNetwork32(writer, b);
    case AddressWithMask => assert b[..4] + b[4..] == b;
    case AddressPair => assert b[..4] + b[4..] == b;
    case _ =>
  }

  lemma {:induction false} ElementsRoundTrip(reader: Host, writer: Host, d: Description, p: seq<byte>)
    requires IsElementKind(d.kind) && !d.kind.Boolean? && Aligned(d.kind, |p|)
    requires DecodeElements(reader, d, p).Ok?
    ensures var vs := DecodeElements(reader, d, p).value;
            && AllEmittable(vs)
            && EncodeValues(writer, vs) == WireElements(writer, d.kind, p)
    decreases |p|
  {
    hide EncodeValue, Emittable, DecodeElement, WireElement, Aligned;
    if p != [] {
      AlignedStep(d.kind, |p|);
      var n := ElementSize(d.kind);
      ElementRoundTrip(reader, writer, d, p[..n]);
      ElementsRoundTrip(reader, writer, d, p[n..]);
      var v, rest := DecodeElement(reader, d, p[..n]).value, DecodeElements(reader, d, p[n..]).value;
      assert ([v] + rest)[1..] == rest;
    }
  }

  lemma {:induction false} ElementCount(host: Host, d: Description, p: seq<byte>)
    requires IsElementKind(d.kind) && Aligned(d.kind, |p|) && DecodeElements(host, d, p).Ok?
    ensures |DecodeElements(host, d, p).value| == |p| / ElementSize(d.kind)
    decreases |p|
  {
    hide DecodeElement;
    if p != [] {
      AlignedStep(d.kind, |p|);
      var n := ElementSize(d.kind);
      ElementCount(host, d, p[n..]);
      assert n == 1 || n == 2 || n == 4 || n == 8;
    }
  }

  /** An accepted option is emitted with its code, its length and its payload, the bytes
      of each 16- or 32-bit integer being reversed exactly on a little-endian host. */
  lemma OptionRoundTrip(reader: Host, writer: Host, code: byte, p: seq<byte>)
    requires Defined(code, p) && |p| < 0x100
    requires DecodeOption(reader, code, p).Ok? && !Describe(code).value.kind.Boolean?
    ensures var o := DecodeOption(reader, code, p).value;
            && Aligned(o.description.kind, |p|)
            && AllEmittable(o.values)
            && EncodeValues(writer, o.values) == Wire(writer, o.description.kind, p)
            && EncodeOption(writer, o) == [code, |p|] + Wire(writer, o.description.kind, p)
            && (IsElementKind(o.description.kind) ==> |o.values| == |p| / ElementSize(o.description.kind))
  {
    FixedIsOneElement(code);
    var o := DecodeOption(reader, code, p).value;
    var d := o.description;
    assert d == Describe(code).value;
    assert code != 0 && code != 255;
    hide Describe;
    if p == [] {
      assert o.values == [];
    } else if IsElementKind(d.kind) {
      ElementsRoundTrip(reader, writer, d, p);
      ElementCount(reader, d, p);
    } else {
      assert EncodeValues(writer, o.values) == p + EncodeValues(writer, []);
    }
  }

  /** Neither the parser's verdict nor its values depend on the host. */
  lemma {:induction false} ElementsHostFree(d: Description, p: seq<byte>)
    requires IsElementKind(d.kind) && Aligned(d.kind, |p|)
    ensures DecodeElements(Little, d, p) == DecodeElements(Big, d, p)
    decreases |p|
  {
    if p != [] {
      AlignedStep(d.kind, |p|);
      ElementsHostFree(d, p[ElementSize(d.kind)..]);
    }
  }

  lemma ParsingIsHostFree(a: Host, b: Host, code: byte, p: seq<byte>)
    requires Defined(code, p)
    ensures DecodeOption(a, code, p) == DecodeOption(b, code, p)
  {
    var d := Describe(code);
    if d.Some? {
      FixedIsOneElement(code);
      hide Describe;
      if IsElementKind(d.value.kind) && Aligned(d.value.kind, |p|) {
        ElementsHostFree(d.value, p);
      }
    }
  }

  /** Two payloads of one code that parse to the same option are equal. */
  lemma ParsingIsInjective(host: Host, code: byte, p: seq<byte>, q: seq<byte>)
    requires Defined(code, p) && Defined(code, q) && |p| < 0x100 && |q| < 0x100
    requires DecodeOption(host, code, p).Ok? && !Describe(code).value.kind.Boolean?
    requires DecodeOption(host, code, q) == DecodeOption(host, code, p)
    ensures p == q
  {
    OptionRoundTrip(host, Big, code, p);
    OptionRoundTrip(host, Big, code, q);
    var kind := Describe(code).value.kind;
    if IsElementKind(kind) {
      WireTwice(Big, kind, p);
      WireTwice(Big, kind, q);
    }
  }

  /** Every integer of the payload reads the same in both byte orders, or the host writes
      network order. */
  predicate Stable(host: Host, code: byte, p: seq<byte>)
    requires Defined(code, p) && DecodeOption(host, code, p).Ok?
  {
    FixedIsOneElement(code);
    Wire(host, Describe(code).value.kind, p) == p
  }

  lemma AcceptedIsAligned(host: Host, code: byte, p: seq<byte>)
    requires Defined(code, p) && DecodeOption(host, code, p).Ok?
    ensures Describe(code).Some? && Aligned(Describe(code).value.kind, |p|)
    ensures forall q: seq<byte> | |q| == |p| :: Defined(code, q)
  {
    FixedIsOneElement(code);
    hide Describe, DecodeValues;
  }

  /** Emitting an accepted option and parsing it again gives it back exactly when it is stable. */
  lemma RereadExactly(host: Host, code: byte, p: seq<byte>)
    requires Defined(code, p) && |p| < 0x100
    requires DecodeOption(host, code, p).Ok? && !Describe(code).value.kind.Boolean?
    ensures Aligned(Describe(code).value.kind, |p|)
    ensures var q := Wire(host, Describe(code).value.kind, p);
            Defined(code, q) && (DecodeOption(host, code, q) == DecodeOption(host, code, p) <==> Stable(host, code, p))
  {
    hide Describe, DecodeOption, Wire, Defined, Aligned;
    AcceptedIsAligned(host, code, p);
    var q := Wire(host, Describe(code).value.kind, p);
    if DecodeOption(host, code, q) == DecodeOption(host, code, p) {
      ParsingIsInjective(host, code, p, q);
    }
  }

  // ---- Constraints ---------------------------------------------------------

  /** A stored value lies within its description's constraint. */
  predicate Obeys(d: Description, v: Value) {
    match v
    case U8(b) => Satisfies(d.constraint, b)
    case U16(h) => Satisfies(d.constraint, h)
    case U32(w) => Satisfies(d.constraint, w)
    case I32(i) => -0x8000_0000 <= i < 0x8000_0000 && IsCorrectInt(d.constraint, i)
    case _ => true
  }

  lemma {:induction false} ElementsObey(host: Host, d: Description, p: seq<byte>)
    requires IsElementKind(d.kind) && Aligned(d.kind, |p|) && DecodeElements(host, d, p).Ok?
    ensures forall v | v in DecodeElements(host, d, p).value :: Obeys(d, v)
    decreases |p|
  {
    if p != [] {
      AlignedStep(d.kind, |p|);
      var n := ElementSize(d.kind);
      ElementsObey(host, d, p[n..]);
    }
  }

  lemma ValuesObey(host: Host, code: byte, p: seq<byte>)
    requires Defined(code, p) && DecodeOption(host, code, p).Ok?
    ensures var o := DecodeOption(host, code, p).value;
            forall v | v in o.values :: Obeys(o.description, v)
  {
    FixedIsOneElement(code);
    var d := Describe(code).value;
    hide Describe;
    if IsElementKind(d.kind) {
      ElementsObey(host, d, p);
    }
  }

  /** The test one element of an integer kind has to pass. */
  predicate ElementFits(d: Description, b: seq<byte>)
    requires IsElementKind(d.kind) && |b| == ElementSize(d.kind)
  {
    match d.kind
    case Uint8 => Satisfies(d.constraint, b[0])
    case UintEnum => Satisfies(d.constraint, b[0])
    case Uint16 => Satisfies(d.constraint, BigEndian16(b))
    case Uint32 => Satisfies(d.constraint, BigEndian32(b))
    case Int32 => d.constraint.OneOf? ==> BigEndian32(b) in d.constraint.allowed
    case _ => true
  }

  lemma {:induction false} UnconstrainedListIsAccepted(host: Host, d: Description, p: seq<byte>)
    requires IsElementKind(d.kind) && Aligned(d.kind, |p|) && d.constraint == Unconstrained
    ensures DecodeElements(host, d, p).Ok?
    decreases |p|
  {
    if p != [] {
      AlignedStep(d.kind, |p|);
      UnconstrainedListIsAccepted(host, d, p[ElementSize(d.kind)..]);
    }
  }

  lemma OneElementIsAccepted(host: Host, d: Description, p: seq<byte>)
    requires IsElementKind(d.kind) && Aligned(d.kind, |p|) && |p| == ElementSize(d.kind)
    requires d.kind.Int32? ==> d.constraint == Unconstrained
    ensures DecodeElements(host, d, p).Ok? <==> ElementFits(d, p)
  {
    hide NetworkToHost16, NetworkToHost32;
    var n := ElementSize(d.kind);
    assert p[..n] == p && p[n..] == [];
    assert DecodeElements(host, d, p[n..]) == Ok([]);
    assert DecodeElements(host, d, p).Ok? <==> DecodeElement(host, d, p).Ok?;
  }

  lemma TableConstraints(code: byte)
    requires Describe(code).Some?
    ensures Describe(code).value.length == VARIABLE || Describe(code).value.kind.Int32? ==>
              Describe(code).value.constraint == Unconstrained
  {
  }

  /** Which payloads are accepted under which code. */
  predicate Acceptable(code: byte, p: seq<byte>) {
    if code in {1, 2, 16, 24, 28, 32, 35, 38, 50, 51, 54, 58, 59} then |p| == 4
    else if code == 13 then |p| == 2
    else if code == 22 || code == 57 then |p| == 2 && 0x100 * (p[0] as int) + p[1] >= 576
    else if code == 26 then |p| == 2 && 0x100 * (p[0] as int) + p[1] >= 68
    else if code in {19, 20, 27, 29, 30, 31, 34, 36, 39} then |p| == 1
    else if code == 23 || code == 37 then |p| == 1 && p[0] >= 1
    else if code == 46 then |p| == 1 && p[0] in {1, 2, 4, 8}
    else if code == 52 then |p| == 1 && 1 <= p[0] <= 3
    else if code == 53 then |p| == 1 && 1 <= p[0] <= 8
    else if 3 <= code <= 11 || code in {41, 42, 44, 45, 48, 49, 65, 68} || 69 <= code <= 76 then |p| % 4 == 0
    else if code == 25 then |p| % 2 == 0
    else if code == 21 || code == 33 then |p| % 8 == 0
    else if code == 61 then |p| != 1
    else code in {12, 14, 15, 17, 18, 40, 43, 47, 55, 56, 60, 64, 66, 67}
  }

  /** The same through the table. */
  predicate FitsTable(code: byte, p: seq<byte>) {
    && Describe(code).Some? && Defined(code, p)
    && var d := Describe(code).value;
    && !d.kind.NoPayload?
    && (d.length != VARIABLE ==>
          |p| == d.length == ElementSize(d.kind) && IsElementKind(d.kind) && ElementFits(d, p))
    && (d.kind.ByteArray? && p != [] ==> |p| >= d.minElements)
  }

  lemma ConstrainedFit(code: byte, p: seq<byte>)
    requires code in {22, 23, 26, 37, 57}
    ensures FitsTable(code, p) <==> Acceptable(code, p)
  {
  }

  lemma ListedFit(code: byte, p: seq<byte>)
    requires code in {46, 52, 53}
    ensures FitsTable(code, p) <==> Acceptable(code, p)
  {
  }

  lemma PlainFit(code: byte, p: seq<byte>)
    requires Describe(code).Some? && Describe(code).value.length != VARIABLE && code !in {22, 23, 26, 37, 46, 52, 53, 57}
    ensures FitsTable(code, p) <==> Acceptable(code, p)
  {
  }

  lemma FixedFit(code: byte, p: seq<byte>)
    requires Describe(code).Some? && Describe(code).value.length != VARIABLE
    ensures FitsTable(code, p) <==> Acceptable(code, p)
  {
    hide Acceptable, FitsTable, Describe;
    if code in {22, 23, 26, 37, 57} {
      ConstrainedFit(code, p);
    } else if code in {46, 52, 53} {
      ListedFit(code, p);
    } else {
      PlainFit(code, p);
    }
  }

  lemma VariableFit(code: byte, p: seq<byte>)
    requires Describe(code).Some? ==> Describe(code).value.length == VARIABLE
    ensures FitsTable(code, p) <==> Acceptable(code, p)
  {
  }

  /** The parser is defined on a payload and accepts it exactly under these conditions. */
  lemma AcceptedExactly(host: Host, code: byte, p: seq<byte>)
    ensures Defined(code, p) && DecodeOption(host, code, p).Ok? <==> Acceptable(code, p)
  {
    if Describe(code).Some? && Describe(code).value.length != VARIABLE {
      FixedFit(code, p);
    } else {
      VariableFit(code, p);
    }
    hide Acceptable;
    if Describe(code).Some? && Defined(code, p) {
      FixedIsOneElement(code);
      TableConstraints(code);
      AcceptedFor(host, code, Describe(code).value, p);
    }
  }

  lemma AcceptedFor(host: Host, code: byte, d: Description, p: seq<byte>)
    requires Describe(code) == Some(d) && Defined(code, p)
    requires d.length != VARIABLE && !d.kind.NoPayload? ==> IsElementKind(d.kind) && d.length == ElementSize(d.kind)
    requires d.length == VARIABLE || d.kind.Int32? ==> d.constraint == Unconstrained
    ensures DecodeOption(host, code, p).Ok? <==>
              && !d.kind.NoPayload?
              && (d.length != VARIABLE ==> |p| == d.length && ElementFits(d, p))
              && (d.kind.ByteArray? && p != [] ==> |p| >= d.minElements)
  {
    hide Describe, DecodeElements, ElementFits;
    if d.kind.NoPayload? || (d.length != VARIABLE && d.length != |p|) {
    } else if d.length != VARIABLE {
      OneElementIsAccepted(host, d, p);
    } else if IsElementKind(d.kind) {
      UnconstrainedListIsAccepted(host, d, p);
    }
  }

  /** A parsed message type is one byte between 1 and 8, and any such byte parses. */
  lemma MessageTypeIsOneByte(host: Host, p: seq<byte>)
    ensures DecodeOption(host, 53, p).Ok? <==> |p| == 1 && 1 <= p[0] <= 8
    ensures DecodeOption(host, 53, p).Ok? ==> DecodeOption(host, 53, p).value.values == [U8(p[0])]
  {
    var d := Describe(53).value;
    if |p| == 1 {
      assert p[..1] == p && p[1..] == [];
      assert DecodeElements(host, d, p[1..]) == Ok([]);
      assert [U8(p[0])] + [] == [U8(p[0])];
      if 1 <= p[0] <= 8 {
        assert d.constraint.allowed[p[0] - 1] == p[0];
      }
    }
  }

  /** The minimum length of a list is checked for byte arrays only, and not for empty ones. */
  lemma MinimumIsNotEnforced(host: Host)
    ensures forall code: byte :: Describe(code).Some? && Describe(code).value.length == VARIABLE
              ==> DecodeOption(host, code, []).Ok? && DecodeOption(host, code, []).value.values == []
    ensures DecodeOption(host, 61, [7]) == Err(TooShort)
    ensures DecodeOption(host, 25, [1, 2]).Ok? && Describe(25).value.minElements == 2
  {
    var p: seq<byte> := [1, 2];
    assert p[..2] == p && p[2..] == [];
  }
}
