/** What every row of the option table of dhcp/src/DhcpOption.cpp makes of a payload, code by
    code: the values that are stored, and the errors. */
module OptionTable {
  import opened Wrappers
  import opened Words
  import opened IpAddresses
  import opened DhcpOptions
  import opened OptionCodec

  // ---- Payloads of one element ------------------------------------------------------

  lemma OneElement(host: Host, code: byte, p: seq<byte>)
    requires Acceptable(code, p) && Describe(code).Some?
    requires var d := Describe(code).value; IsElementKind(d.kind) && |p| == ElementSize(d.kind)
    ensures Defined(code, p) && DecodeElement(host, Describe(code).value, p).Ok?
    ensures DecodeOption(host, code, p) ==
              Ok(DhcpOption(Describe(code).value, |p|, [DecodeElement(host, Describe(code).value, p).value]))
  {
    AcceptedExactly(host, code, p);
    hide Acceptable, DecodeElement, Describe;
    var d := Describe(code).value;
    assert p[..|p|] == p && p[|p|..] == [];
    assert DecodeElements(host, d, p[|p|..]) == Ok([]);
    var v := DecodeElement(host, d, p).value;
    assert [v] + [] == [v];
  }

  /** Codes 16, 28, 32, 50 and 54 store an address, and 1 a mask, as their four bytes. */
  lemma StoresQuad(host: Host, code: byte, p: seq<byte>)
    requires code in {1, 16, 28, 32, 50, 54} && |p| == 4
    ensures Defined(code, p) && DecodeOption(host, code, p).Ok?
    ensures var o := DecodeOption(host, code, p).value;
            o.description.code == code && o.realLength == 4 && o.values == [if code == 1 then Mask(p) else Ip(p)]
  {
    OneElement(host, code, p);
  }

  /** A flag is on exactly when its byte is not zero. */
  lemma StoresFlag(host: Host, code: byte, p: seq<byte>)
    requires code in {19, 20, 27, 29, 30, 31, 34, 36, 39} && |p| == 1
    ensures Defined(code, p) && DecodeOption(host, code, p).Ok?
    ensures var o := DecodeOption(host, code, p).value;
            o.description.code == code && o.realLength == 1 && o.values == [Flag(p[0] != 0)]
  {
    OneElement(host, code, p);
  }

  /** Single bytes, unsigned or enumerated. */
  lemma StoresByte(host: Host, code: byte, p: seq<byte>)
    requires code in {23, 37, 46, 52, 53} && Acceptable(code, p)
    ensures Defined(code, p) && DecodeOption(host, code, p).Ok?
    ensures var o := DecodeOption(host, code, p).value;
            o.description.code == code && o.realLength == 1 && o.values == [U8(p[0])]
  {
    OneElement(host, code, p);
  }

  /** Two bytes, the most significant first. */
  lemma StoresUint16(host: Host, code: byte, p: seq<byte>)
    requires code in {13, 22, 26, 57} && Acceptable(code, p)
    ensures Defined(code, p) && DecodeOption(host, code, p).Ok?
    ensures var o := DecodeOption(host, code, p).value;
            o.description.code == code && o.realLength == 2 && o.values == [U16(0x100 * (p[0] as int) + p[1])]
  {
    OneElement(host, code, p);
    hide NetworkToHost16;
  }

  lemma Uint32Row(code: byte)
    requires code in {24, 35, 38, 51, 58, 59}
    ensures Describe(code) == Some(Description(code, 4, Uint32, 0, Unconstrained))
  {
  }

  /** Four bytes, the most significant first. */
  lemma StoresUint32(host: Host, code: byte, p: seq<byte>)
    requires code in {24, 35, 38, 51, 58, 59} && |p| == 4
    ensures Defined(code, p) && DecodeOption(host, code, p).Ok?
    ensures var o := DecodeOption(host, code, p).value;
            && o.description.code == code && o.realLength == 4
            && o.values == [U32(0x100_0000 * (p[0] as int) + 0x1_0000 * (p[1] as int) + 0x100 * (p[2] as int) + p[3])]
  {
    Uint32Row(code);
    assert Acceptable(code, p);
    hide Describe, Acceptable, NetworkToHost32;
    OneElement(host, code, p);
  }

  /** The time offset is negative exactly when its top bit is set. */
  lemma StoresInt32(host: Host, p: seq<byte>)
    requires |p| == 4
    ensures Defined(2, p) && DecodeOption(host, 2, p).Ok?
    ensures var o := DecodeOption(host, 2, p).value;
            var w := 0x100_0000 * (p[0] as int) + 0x1_0000 * (p[1] as int) + 0x100 * (p[2] as int) + p[3];
            && o.description.code == 2 && o.realLength == 4
            && o.values == [I32(if p[0] < 128 then w else w - 0x1_0000_0000)]
  {
    OneElement(host, 2, p);
    assert Describe(2).value == Description(2, 4, Int32, 0, Unconstrained);
    hide Describe, Acceptable;
    hide NetworkToHost32;
  }

  // ---- Payloads taken whole -----------------------------------------------------------

  /** Text is stored as one string, the vendor field, the parameter list and the client
      identifier as one block, and nothing is stored for an empty payload. */
  lemma StoresWhole(host: Host, code: byte, p: seq<byte>)
    requires code in {12, 14, 15, 17, 18, 40, 47, 56, 60, 64, 66, 67} || code in {43, 55} || (code == 61 && |p| != 1)
    ensures Defined(code, p) && DecodeOption(host, code, p).Ok?
    ensures var o := DecodeOption(host, code, p).value;
            && o.description.code == code && o.realLength == |p|
            && o.values == if p == [] then []
                           else if code in {43, 55, 61} then [Block(p)]
                           else [Str(p)]
  {
    AcceptedExactly(host, code, p);
    hide DecodeElements;
  }

  // ---- Lists ----------------------------------------------------------------------------

  lemma {:induction false} ElementsAt(host: Host, d: Description, p: seq<byte>, i: nat, at: nat)
    requires IsElementKind(d.kind) && Aligned(d.kind, |p|) && DecodeElements(host, d, p).Ok?
    requires at == ElementSize(d.kind) * i && at + ElementSize(d.kind) <= |p|
    ensures var n, vs := ElementSize(d.kind), DecodeElements(host, d, p).value;
            && i < |vs| && DecodeElement(host, d, p[at..at + n]).Ok?
            && vs[i] == DecodeElement(host, d, p[at..at + n]).value
    decreases i
  {
    hide DecodeElement;
    ElementsStep(host, d, p);
    var n := ElementSize(d.kind);
    assert n == 1 || n == 2 || n == 4 || n == 8;
    hide ElementSize, Aligned, DecodeElements;
    if i > 0 {
      OneLess(n, i);
      ElementsAt(host, d, p[n..], i - 1, at - n);
      SliceOfRest(p, n, at);
    } else {
      assert at == 0;
    }
  }

  lemma SliceOfRest(p: seq<byte>, n: nat, at: nat)
    requires n <= at && at + n <= |p|
    ensures p[n..][at - n..at] == p[at..at + n]
  {
  }

  lemma OneLess(n: nat, i: nat)
    requires (n == 1 || n == 2 || n == 4 || n == 8) && i > 0
    ensures n * (i - 1) == n * i - n
  {
  }

  lemma ListBound(n: nat, length: nat, i: nat)
    requires n == 1 || n == 2 || n == 4 || n == 8
    requires i < length / n
    ensures 0 <= n * i && n * i + n <= length
  {
  }

  lemma AllElementsAt(host: Host, d: Description, p: seq<byte>)
    requires IsElementKind(d.kind) && Aligned(d.kind, |p|) && DecodeElements(host, d, p).Ok?
    ensures var n, vs := ElementSize(d.kind), DecodeElements(host, d, p).value;
            && |vs| == |p| / n
            && forall i | 0 <= i < |p| / n ::
                 && 0 <= n * i <= n * i + n <= |p|
                 && DecodeElement(host, d, p[n * i..n * i + n]).Ok?
                 && vs[i] == DecodeElement(host, d, p[n * i..n * i + n]).value
  {
    hide DecodeElement, DecodeElements;
    var n := ElementSize(d.kind);
    assert n == 1 || n == 2 || n == 4 || n == 8;
    ElementCount(host, d, p);
    hide ElementSize;
    forall i | 0 <= i < |p| / n
      ensures 0 <= n * i <= n * i + n <= |p|
      ensures DecodeElement(host, d, p[n * i..n * i + n]).Ok?
      ensures DecodeElements(host, d, p).value[i] == DecodeElement(host, d, p[n * i..n * i + n]).value
    {
      ListBound(n, |p|, i);
      ElementsAt(host, d, p, i, n * i);
    }
  }

  lemma ListElements(host: Host, code: byte, p: seq<byte>)
    requires Acceptable(code, p) && Describe(code).Some?
    requires Describe(code).value.length == VARIABLE && IsElementKind(Describe(code).value.kind)
    ensures Defined(code, p) && DecodeOption(host, code, p).Ok?
    ensures var d, o := Describe(code).value, DecodeOption(host, code, p).value;
            var n := ElementSize(d.kind);
            && o.description == d && d.code == code && o.realLength == |p| && |o.values| == |p| / n
            && forall i | 0 <= i < |p| / n ::
                 && 0 <= n * i <= n * i + n <= |p|
                 && DecodeElement(host, d, p[n * i..n * i + n]).Ok?
                 && o.values[i] == DecodeElement(host, d, p[n * i..n * i + n]).value
  {
    AcceptedExactly(host, code, p);
    FixedIsOneElement(code);
    hide Acceptable, DecodeElement, DecodeElements, Describe;
    AllElementsAt(host, Describe(code).value, p);
    hide ElementSize;
  }

  lemma AddressRow(code: byte)
    requires 3 <= code <= 11 || code in {41, 42, 44, 45, 48, 49, 65, 68} || 69 <= code <= 76
    ensures Describe(code).Some? && Describe(code).value.length == VARIABLE && Describe(code).value.kind == Address
  {
  }

  /** One address for each four bytes. */
  lemma StoresAddresses(host: Host, code: byte, p: seq<byte>)
    requires 3 <= code <= 11 || code in {41, 42, 44, 45, 48, 49, 65, 68} || 69 <= code <= 76
    requires |p| % 4 == 0
    ensures Defined(code, p) && DecodeOption(host, code, p).Ok?
    ensures var o := DecodeOption(host, code, p).value;
            && o.description.code == code && o.realLength == |p| && |o.values| == |p| / 4
            && forall i | 0 <= i < |p| / 4 :: o.values[i] == Ip(p[4 * i..4 * i + 4])
  {
    AddressRow(code);
    assert Acceptable(code, p);
    hide Describe, Acceptable, Defined, DecodeOption;
    ListElements(host, code, p);
  }

  /** One address with a mask (21), or one pair of addresses (33), for each eight bytes. */
  lemma StoresPairs(host: Host, code: byte, p: seq<byte>)
    requires code in {21, 33} && |p| % 8 == 0
    ensures Defined(code, p) && DecodeOption(host, code, p).Ok?
    ensures var o := DecodeOption(host, code, p).value;
            && o.description.code == code && o.realLength == |p| && |o.values| == |p| / 8
            && forall i | 0 <= i < |p| / 8 ::
                 var a, b := p[8 * i..8 * i + 4], p[8 * i + 4..8 * i + 8];
                 o.values[i] == if code == 21 then IpAndMask(a, b) else TwoIps(a, b)
  {
    PairRow(code);
    assert Acceptable(code, p);
    hide Describe, Acceptable, Defined, DecodeOption;
    ListElements(host, code, p);
    var o := DecodeOption(host, code, p).value;
    forall i | 0 <= i < |p| / 8
      ensures var a, b := p[8 * i..8 * i + 4], p[8 * i + 4..8 * i + 8];
              o.values[i] == if code == 21 then IpAndMask(a, b) else TwoIps(a, b)
    {
      var e := p[8 * i..8 * i + 8];
      assert e[..4] == p[8 * i..8 * i + 4] && e[4..] == p[8 * i + 4..8 * i + 8];
    }
  }

  lemma PairRow(code: byte)
    requires code in {21, 33}
    ensures Describe(code).Some? && Describe(code).value.length == VARIABLE
    ensures Describe(code).value.kind == if code == 21 then AddressWithMask else AddressPair
  {
  }

  /** One 16-bit number for each two bytes. */
  lemma StoresPlateaus(host: Host, p: seq<byte>)
    requires |p| % 2 == 0
    ensures Defined(25, p) && DecodeOption(host, 25, p).Ok?
    ensures var o := DecodeOption(host, 25, p).value;
            && o.description.code == 25 && o.realLength == |p| && |o.values| == |p| / 2
            && forall i | 0 <= i < |p| / 2 :: o.values[i] == U16(0x100 * (p[2 * i] as int) + p[2 * i + 1])
  {
    ListElements(host, 25, p);
    hide NetworkToHost16;
  }

  // ---- Errors ------------------------------------------------------------------------------

  /** The codes whose payload has one length, and that length. */
  function FixedLength(code: byte): Option<nat> {
    if code == 0 || code == 255 then Some(0)
    else if code in {1, 2, 16, 24, 28, 32, 35, 38, 50, 51, 54, 58, 59} then Some(4)
    else if code in {13, 22, 26, 57} then Some(2)
    else if code in {19, 20, 23, 27, 29, 30, 31, 34, 36, 37, 39, 46, 52, 53} then Some(1)
    else None
  }

  lemma TableLengths(code: byte)
    ensures Describe(code).None? <==> code in {62, 63} || 77 <= code < 255
    ensures Describe(code).Some? ==>
              Describe(code).value.length == if FixedLength(code).Some? then FixedLength(code).value else -1
    ensures Describe(code).Some? && Describe(code).value.kind.NoPayload? <==> code == 0 || code == 255
    ensures Describe(code).Some? && Describe(code).value.kind.ByteArray? <==> code == 55 || code == 61
    ensures code == 55 ==> Describe(code).value.minElements == 1
    ensures code == 61 ==> Describe(code).value.minElements == 2
  {
  }

  /** The parser reads inside the payload exactly when lists have whole elements. */
  lemma DefinedExactly(code: byte, p: seq<byte>)
    ensures Defined(code, p) <==>
            && (3 <= code <= 11 || code in {41, 42, 44, 45, 48, 49, 65, 68} || 69 <= code <= 76 ==> |p| % 4 == 0)
            && (code == 25 ==> |p| % 2 == 0)
            && (code == 21 || code == 33 ==> |p| % 8 == 0)
  {
  }

  lemma ElementError(host: Host, d: Description, p: seq<byte>)
    requires IsElementKind(d.kind) && Aligned(d.kind, |p|) && |p| == ElementSize(d.kind)
    ensures DecodeElements(host, d, p).Err? ==> DecodeElements(host, d, p) == Err(ConstraintViolated)
  {
    hide NetworkToHost16, NetworkToHost32, Satisfies, IsCorrectInt;
    assert p[..|p|] == p && p[|p|..] == [];
    assert DecodeElements(host, d, p[|p|..]) == Ok([]);
  }

  /** Which exception a rejected payload meets. */
  lemma RejectedWith(host: Host, code: byte, p: seq<byte>)
    requires Defined(code, p) && !Acceptable(code, p)
    ensures DecodeOption(host, code, p) ==
              if code in {62, 63} || 77 <= code < 255 then Err(UnknownCode)
              else if FixedLength(code).Some? && FixedLength(code).value != |p| then Err(WrongLength)
              else if code == 0 || code == 255 then Err(EmptyPayloadType)
              else if code == 61 then Err(TooShort)
              else Err(ConstraintViolated)
  {
    AcceptedExactly(host, code, p);
    TableLengths(code);
    hide Acceptable, FixedLength;
    if Describe(code).Some? {
      FixedIsOneElement(code);
      TableConstraints(code);
      RejectedFor(host, code, Describe(code).value, p);
    }
  }

  lemma RejectedFor(host: Host, code: byte, d: Description, p: seq<byte>)
    requires Describe(code) == Some(d) && Defined(code, p) && DecodeOption(host, code, p).Err?
    requires d.length != VARIABLE && !d.kind.NoPayload? ==> IsElementKind(d.kind) && d.length == ElementSize(d.kind)
    requires d.length == VARIABLE ==> d.constraint == Unconstrained
    ensures DecodeOption(host, code, p) ==
              if d.length != VARIABLE && d.length != |p| then Err(WrongLength)
              else if d.kind.NoPayload? then Err(EmptyPayloadType)
              else if d.length == VARIABLE then Err(TooShort)
              else Err(ConstraintViolated)
    ensures d.length == VARIABLE && !d.kind.NoPayload? ==> d.kind.ByteArray? && 0 < |p| < d.minElements
  {
    hide Describe, DecodeElements;
    if d.kind.NoPayload? || (d.length != VARIABLE && d.length != |p|) {
    } else if d.length != VARIABLE {
      ElementError(host, d, p);
    } else if IsElementKind(d.kind) {
      UnconstrainedListIsAccepted(host, d, p);
    }
  }
}
