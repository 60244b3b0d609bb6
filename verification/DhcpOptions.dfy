/** DHCP options: the description table, the parser and the emitter of
    dhcp/src/DhcpOption.cpp, for the option formats of RFC 2132. */
module DhcpOptions {
  import opened Wrappers
  import opened Words
  import opened IpAddresses

  datatype Constraint =
    | Unconstrained
    | FromMin(min: int)
    | InRange(min: int, max: int)
    | OneOf(allowed: seq<nat>)

  datatype Kind =
    | NoPayload
    | VendorSpecific
    | ByteArray
    | Text
    | Address
    | SubnetMask
    | AddressWithMask
    | AddressPair
    | Uint8
    | Uint16
    | Uint32
    | Int32
    | Boolean
    | UintEnum

  const VARIABLE := -1

  datatype Description = Description(
    code: byte, length: int, kind: Kind, minElements: nat, constraint: Constraint)

  datatype Value =
    | I32(i: int)
    | U32(w: u32)
    | U16(h: u16)
    | U8(b: byte)
    | Block(bytes: seq<byte>)
    | Str(chars: seq<byte>)
    | Ip(ip: Quad)
    | Mask(mask: Quad)
    | IpAndMask(net: Quad, netMask: Quad)
    | TwoIps(ip1: Quad, ip2: Quad)
    | Flag(on: bool)

  datatype DhcpOption = DhcpOption(description: Description, realLength: nat, values: seq<Value>)

  datatype OptionError = UnknownCode | WrongLength | EmptyPayloadType | TooShort | ConstraintViolated

  /** The number of bytes of one element; for the vendor field it is not defined. */
  function ElementSize(kind: Kind): int {
    match kind
    case NoPayload => 0
    case VendorSpecific => VARIABLE
    case ByteArray => 1
    case Text => 1
    case Address => 4
    case SubnetMask => 4
    case AddressWithMask => 8
    case AddressPair => 8
    case Uint8 => 1
    case Uint16 => 2
    case Uint32 => 4
    case Int32 => 4
    case Boolean => 1
    case UintEnum => 1
  }

  /** The kinds whose payload is read element by element. */
  predicate IsElementKind(kind: Kind) {
    !kind.NoPayload? && !kind.VendorSpecific? && !kind.ByteArray? && !kind.Text?
  }

  function Fixed(code: byte, length: nat, kind: Kind, constraint: Constraint): Option<Description> {
    Some(Description(code, length, kind, 0, constraint))
  }

  function Variable(code: byte, kind: Kind, minElements: nat): Option<Description> {
    Some(Description(code, VARIABLE, kind, minElements, Unconstrained))
  }

  /** The table `options_descriptions`; a code that is not in it makes `at` throw. */
  function Describe(code: byte): Option<Description> {
    if code == 0 || code == 255 then Fixed(code, 0, NoPayload, Unconstrained)
    else if code == 1 then Fixed(code, 4, SubnetMask, Unconstrained)
    else if code == 2 then Fixed(code, 4, Int32, Unconstrained)
    else if 3 <= code <= 11 || code in {41, 42, 44, 45, 48, 49, 65} || 69 <= code <= 76 then Variable(code, Address, 1)
    else if code == 68 then Variable(code, Address, 0)
    else if code in {12, 14, 15, 17, 18, 40, 47, 56, 60, 64, 66, 67} then Variable(code, Text, 1)
    else if code == 13 then Fixed(code, 2, Uint16, Unconstrained)
    else if code in {16, 28, 32, 50, 54} then Fixed(code, 4, Address, Unconstrained)
    else if code in {19, 20, 27, 29, 30, 31, 34, 36, 39} then Fixed(code, 1, Boolean, Unconstrained)
    else if code == 21 then Variable(code, AddressWithMask, 1)
    else if code == 22 || code == 57 then Fixed(code, 2, Uint16, FromMin(576))
    else if code == 23 then Fixed(code, 1, Uint8, InRange(1, 255))
    else if code in {24, 35, 38, 51, 58, 59} then Fixed(code, 4, Uint32, Unconstrained)
    else if code == 25 then Variable(code, Uint16, 2)
    else if code == 26 then Fixed(code, 2, Uint16, FromMin(68))
    else if code == 33 then Variable(code, AddressPair, 1)
    else if code == 37 then Fixed(code, 1, Uint8, FromMin(1))
    else if code == 43 then Variable(code, VendorSpecific, 1)
    else if code == 46 then Fixed(code, 1, UintEnum, OneOf([1, 2, 4, 8]))
    else if code == 52 then Fixed(code, 1, UintEnum, OneOf([1, 2, 3]))
    else if code == 53 then Fixed(code, 1, UintEnum, OneOf([1, 2, 3, 4, 5, 6, 7, 8]))
    else if code == 55 then Variable(code, ByteArray, 1)
    else if code == 61 then Variable(code, ByteArray, 2)
    else None
  }

  predicate Satisfies(c: Constraint, value: int) {
    match c
    case Unconstrained => true
    case FromMin(min) => value >= min
    case InRange(min, max) => min <= value <= max
    case OneOf(allowed) => value in allowed
  }

  /** The same 32 bits read as a signed and as an unsigned number. */
  function Signed(w: u32): int {
    if w < 0x8000_0000 then w else w - 0x1_0000_0000
  }

  function Unsigned(i: int): u32
    requires -0x8000_0000 <= i < 0x8000_0000
  {
    if i < 0 then i + 0x1_0000_0000 else i
  }

  predicate IsCorrectInt(c: Constraint, value: int)
    requires -0x8000_0000 <= value < 0x8000_0000
  {
    if c.OneOf? then Unsigned(value) in c.allowed else Satisfies(c, value)
  }

  // ---- Parsing -------------------------------------------------------------

  function Checked(ok: bool, v: Value): Result<Value, OptionError> {
    if ok then Ok(v) else Err(ConstraintViolated)
  }

  /** The `process_*` member that reads one element. */
  function DecodeElement(host: Host, d: Description, b: seq<byte>): Result<Value, OptionError>
    requires IsElementKind(d.kind) && |b| == ElementSize(d.kind)
  {
    match d.kind
    case Address => Ok(Ip(b))
    case SubnetMask => Ok(Mask(b))
    case AddressWithMask => Ok(IpAndMask(b[..4], b[4..]))
    case AddressPair => Ok(TwoIps(b[..4], b[4..]))
    case Uint8 => Checked(Satisfies(d.constraint, b[0]), U8(b[0]))
    case UintEnum => Checked(Satisfies(d.constraint, b[0]), U8(b[0]))
    case Uint16 => var h := NetworkToHost16(host, b); Checked(Satisfies(d.constraint, h), U16(h))
    case Uint32 => var w := NetworkToHost32(host, b); Checked(Satisfies(d.constraint, w), U32(w))
    case Int32 => var i := Signed(NetworkToHost32(host, b)); Checked(IsCorrectInt(d.constraint, i), I32(i))
    case Boolean => Ok(Flag(b[0] != 0))
  }

  predicate Aligned(kind: Kind, n: nat) {
    IsElementKind(kind) ==> n % ElementSize(kind) == 0
  }

  lemma AlignedStep(kind: Kind, n: nat)
    requires IsElementKind(kind) && Aligned(kind, n) && n > 0
    ensures n >= ElementSize(kind) && Aligned(kind, n - ElementSize(kind))
  {
    var size := ElementSize(kind);
    assert size == 1 || size == 2 || size == 4 || size == 8;
  }

  function DecodeElements(host: Host, d: Description, p: seq<byte>): Result<seq<Value>, OptionError>
    requires IsElementKind(d.kind) && Aligned(d.kind, |p|)
    decreases |p|
  {
    if p == [] then Ok([])
    else
      AlignedStep(d.kind, |p|);
      var n := ElementSize(d.kind);
      var v :- DecodeElement(host, d, p[..n]);
      var rest :- DecodeElements(host, d, p[n..]);
      Ok([v] + rest)
  }

  /** The members that take the whole rest of the payload as one value. */
  function DecodeWhole(d: Description, p: seq<byte>): Result<Value, OptionError>
    requires d.kind.VendorSpecific? || d.kind.ByteArray? || d.kind.Text?
  {
    if d.kind.VendorSpecific? then Ok(Block(p))
    else if d.kind.Text? then Ok(Str(p))
    else if d.length == VARIABLE && |p| < d.minElements then Err(TooShort)
    else if d.length != VARIABLE && d.length != |p| then Err(WrongLength)
    else Ok(Block(p))
  }

  /** Reading past the end of a list payload is undefined in the source; this is what its
      callers must rule out. */
  predicate Defined(code: byte, payload: seq<byte>) {
    var d := Describe(code);
    d.Some? && d.value.length == VARIABLE ==> Aligned(d.value.kind, |payload|)
  }

  lemma FixedIsOneElement(code: byte)
    requires Describe(code).Some?
    ensures var d := Describe(code).value;
            && d.code == code
            && (d.length != VARIABLE && !d.kind.NoPayload? ==> IsElementKind(d.kind) && d.length == ElementSize(d.kind))
  {
  }

  function DecodeValues(host: Host, d: Description, payload: seq<byte>): Result<seq<Value>, OptionError>
    requires IsElementKind(d.kind) ==> Aligned(d.kind, |payload|)
    requires !d.kind.NoPayload?
  {
    if payload == [] then Ok([])
    else if IsElementKind(d.kind) then DecodeElements(host, d, payload)
    else var v :- DecodeWhole(d, payload); Ok([v])
  }

  function DecodeOption(host: Host, code: byte, payload: seq<byte>): Result<DhcpOption, OptionError>
    requires Defined(code, payload)
  {
    var found := Describe(code);
    if found.None? then Err(UnknownCode)
    else
      var d := found.value;
      FixedIsOneElement(code);
      if d.length != VARIABLE && d.length != |payload| then Err(WrongLength)
      else if d.kind.NoPayload? then Err(EmptyPayloadType)
      else
        var values :- DecodeValues(host, d, payload);
        Ok(DhcpOption(d, |payload|, values))
  }

  lemma ElementsEnd(host: Host, d: Description)
    requires IsElementKind(d.kind)
    ensures Aligned(d.kind, 0) && DecodeElements(host, d, []) == Ok([])
  {
  }

  /** One step of the element loop. */
  lemma ElementsStep(host: Host, d: Description, p: seq<byte>)
    requires IsElementKind(d.kind) && Aligned(d.kind, |p|) && p != []
    ensures var n := ElementSize(d.kind);
            && 0 < n <= |p| && Aligned(d.kind, |p| - n)
            && DecodeElements(host, d, p) ==
                 match DecodeElement(host, d, p[..n])
                 case Err(e) => Err(e)
                 case Ok(v) => Prepend([v], DecodeElements(host, d, p[n..]))
  {
    hide DecodeElement;
    AlignedStep(d.kind, |p|);
  }

  /** The constructor's loop, which moves an iterator and pushes into `real_values`. */
  method ParseOption(host: Host, code: byte, payload: seq<byte>) returns (r: Result<DhcpOption, OptionError>)
    requires Defined(code, payload)
    ensures r == DecodeOption(host, code, payload)
  {
    var found := Describe(code);
    if found.None? {
      return Err(UnknownCode);
    }
    var d := found.value;
    FixedIsOneElement(code);
    if d.length != VARIABLE && d.length != |payload| {
      return Err(WrongLength);
    }
    if d.kind.NoPayload? {
      return Err(EmptyPayloadType);
    }
    var values := ParseValues(host, d, payload);
    match values
    case Err(e) => return Err(e);
    case Ok(vs) => return Ok(DhcpOption(d, |payload|, vs));
  }

  method ParseValues(host: Host, d: Description, payload: seq<byte>) returns (r: Result<seq<Value>, OptionError>)
    requires IsElementKind(d.kind) ==> Aligned(d.kind, |payload|)
    requires !d.kind.NoPayload?
    ensures r == DecodeValues(host, d, payload)
  {
    hide DecodeElement, DecodeElements, DecodeWhole, Aligned, ElementSize, Prepend;
    var values: seq<Value> := [];
    var iter := 0;
    assert payload[iter..] == payload;
    if IsElementKind(d.kind) {
      PrependNothing([], DecodeElements(host, d, payload));
      ElementsEnd(host, d);
    }
    while iter != |payload|
      invariant 0 <= iter <= |payload|
      invariant IsElementKind(d.kind) ==>
                  && Aligned(d.kind, |payload[iter..]|)
                  && DecodeElements(host, d, payload) == Prepend(values, DecodeElements(host, d, payload[iter..]))
      invariant !IsElementKind(d.kind) ==> iter == 0 && values == []
      decreases |payload| - iter
    {
      if !IsElementKind(d.kind) {
        var whole := DecodeWhole(d, payload[iter..]);
        if whole.Err? {
          return Err(whole.error);
        }
        assert payload[iter..] == payload && values + [whole.value] == [whole.value];
        return Ok(values + [whole.value]);
      }
      ElementsStep(host, d, payload[iter..]);
      var n := ElementSize(d.kind);
      var v := DecodeElement(host, d, payload[iter..][..n]);
      if v.Err? {
        PrependNothing(values, DecodeElements(host, d, payload[iter..]));
        return Err(v.error);
      }
      assert payload[iter..][n..] == payload[iter + n..];
      PrependOne(values, v.value, DecodeElements(host, d, payload[iter + n..]));
      values := values + [v.value];
      iter := iter + n;
    }
    assert payload[iter..] == [];
    if IsElementKind(d.kind) {
      PrependNothing(values, DecodeElements(host, d, payload[iter..]));
    }
    return Ok(values);
  }

  // ---- Emitting ------------------------------------------------------------

  predicate Emittable(v: Value) {
    && !v.Flag?
    && (v.I32? ==> -0x8000_0000 <= v.i < 0x8000_0000)
  }

  /** Integers leave in the order in which their bytes lie in the host's memory. */
  function EncodeValue(host: Host, v: Value): seq<byte>
    requires Emittable(v)
  {
    match v
    case I32(i) => Memory32(host, Unsigned(i))
    case U32(w) => Memory32(host, w)
    case U16(h) => Memory16(host, h)
    case U8(b) => [b]
    case Block(bytes) => bytes
    case Str(chars) => chars
    case Ip(ip) => ip
    case Mask(mask) => mask
    case IpAndMask(net, mask) => net + mask
    case TwoIps(ip1, ip2) => ip1 + ip2
  }

  predicate AllEmittable(vs: seq<Value>) {
    forall v | v in vs :: Emittable(v)
  }

  function EncodeValues(host: Host, vs: seq<Value>): seq<byte>
    requires AllEmittable(vs)
  {
    if vs == [] then [] else EncodeValue(host, vs[0]) + EncodeValues(host, vs[1..])
  }

  function EncodeOption(host: Host, o: DhcpOption): seq<byte>
    requires AllEmittable(o.values)
  {
    var d := o.description;
    if d.code == 0 then [0]
    else if d.code == 255 then [255]
    else [d.code, (if d.length == VARIABLE then o.realLength else d.length) % 0x100] + EncodeValues(host, o.values)
  }

  lemma {:induction false} EncodeValuesSnoc(host: Host, vs: seq<Value>, v: Value)
    requires AllEmittable(vs) && Emittable(v)
    ensures AllEmittable(vs + [v])
    ensures EncodeValues(host, vs + [v]) == EncodeValues(host, vs) + EncodeValue(host, v)
  {
    hide EncodeValue, Emittable;
    if vs == [] {
      assert [v][1..] == [];
    } else {
      EncodeValuesSnoc(host, vs[1..], v);
      assert (vs + [v])[1..] == vs[1..] + [v];
    }
  }

  method EmitOption(host: Host, o: DhcpOption) returns (result: seq<byte>)
    requires AllEmittable(o.values)
    ensures result == EncodeOption(host, o)
  {
    hide EncodeValue, Emittable;
    var d := o.description;
    if d.code == 0 {
      return [0];
    }
    if d.code == 255 {
      return [255];
    }
    result := [d.code];
    result := result + [(if d.length == VARIABLE then o.realLength else d.length) % 0x100];
    ghost var head := result;
    for i := 0 to |o.values|
      invariant result == head + EncodeValues(host, o.values[..i])
    {
      EncodeValuesSnoc(host, o.values[..i], o.values[i]);
      assert o.values[..i + 1] == o.values[..i] + [o.values[i]];
      result := result + EncodeValue(host, o.values[i]);
    }
    assert o.values[..|o.values|] == o.values;
  }
}
