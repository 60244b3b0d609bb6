/** Addresses as text: the character cursors and the three readers and two printers of
    dotted addresses, in cli/src and in dhcp/src.

    What a reader still has to read is the string `Rest()` of its cursor, and each reader
    is specified by a function of that string. */
module AddressText {
  import opened Wrappers
  import opened Words
  import opened IpAddresses

  /** The sentinel; a string may contain this character, and then seems to end there. */
  const EOT: char := 3 as char

  function First(u: string): char {
    if u == "" then EOT else u[0]
  }

  function Tail(u: string): (r: string)
    ensures u != "" ==> |r| < |u|
  {
    if u == "" then "" else u[1..]
  }

  predicate IsDigit(c: char) {
    '0' <= c <= '9'
  }

  predicate IsSpace(c: char) {
    c == ' ' || 9 <= c as int <= 13
  }

  function DigitValue(c: char): nat
    requires IsDigit(c)
  {
    c as int - '0' as int
  }

  predicate AllDigits(d: string) {
    forall i | 0 <= i < |d| :: IsDigit(d[i])
  }

  function Decimal(d: string): nat
    requires AllDigits(d)
  {
    if d == "" then 0 else Decimal(d[..|d| - 1]) * 10 + DigitValue(d[|d| - 1])
  }

  /** How many digits a text starts with, and what they denote. */
  function DigitCount(u: string): (n: nat)
    ensures n <= |u| && AllDigits(u[..n])
    ensures n < |u| ==> !IsDigit(u[n])
  {
    if u != "" && IsDigit(u[0]) then 1 + DigitCount(u[1..]) else 0
  }

  function Number(u: string): nat {
    Decimal(u[..DigitCount(u)])
  }

  function AfterNumber(u: string): string {
    u[DigitCount(u)..]
  }

  lemma {:induction false} DigitCountUnique(u: string, n: nat)
    requires n <= |u| && AllDigits(u[..n]) && (n < |u| ==> !IsDigit(u[n]))
    ensures DigitCount(u) == n
  {
    if n > 0 {
      assert u[..n][0] == u[0];
      var rest := u[1..][..n - 1];
      forall i | 0 <= i < |rest| ensures IsDigit(rest[i]) {
        assert u[..n][i + 1] == u[i + 1];
      }
      DigitCountUnique(u[1..], n - 1);
    }
  }

  class Cursor {
    const data: string
    var ch: char
    var pos: nat
    ghost var here: nat

    ghost predicate Valid()
      reads this
    {
      && here <= |data|
      && ch == First(data[here..])
      && pos == if here < |data| then here + 1 else |data|
    }

    ghost function Rest(): string
      requires Valid()
      reads this
    {
      data[here..]
    }

    constructor (str: string)
      ensures Valid() && Rest() == str
    {
      data := str;
      if |str| == 0 {
        ch, pos := EOT, 0;
      } else {
        ch, pos := str[0], 1;
      }
      here := 0;
    }

    method GetNext()
      requires Valid()
      modifies this
      ensures Valid() && Rest() == Tail(old(Rest()))
    {
      if pos == |data| {
        ch := EOT;
        here := |data|;
        return;
      }
      ch := data[pos];
      here := pos;
      pos := pos + 1;
    }

    method SkipWhitespaces()
      requires Valid()
      modifies this
      ensures Valid() && Rest() == SkipSpaces(old(Rest()))
    {
      while IsSpace(ch)
        invariant Valid() && SkipSpaces(Rest()) == SkipSpaces(old(Rest()))
        decreases |data| - here
      {
        GetNext();
      }
    }

    method IsEnd() returns (end: bool)
      requires Valid()
      ensures end <==> First(Rest()) == EOT
    {
      return ch == EOT;
    }

    method Check(c: char) returns (ok: bool)
      requires Valid()
      modifies this
      ensures Valid() && ok == (First(old(Rest())) == c)
      ensures Rest() == if ok then Tail(old(Rest())) else old(Rest())
    {
      if ch != c {
        return false;
      }
      GetNext();
      return true;
    }
  }

  function SkipSpaces(u: string): string {
    if u != "" && IsSpace(u[0]) then SkipSpaces(u[1..]) else u
  }

  const SIZE_T := 0x1_0000_0000_0000_0000

  /** The digit loop of parse_number and of both parse_octet. The DHCP one counts in a
      64-bit `size_t`, which wraps; the counters of the CLI are taken as unbounded. */
  method ReadDigits(wrap: Cursor, wraps: bool) returns (n: nat)
    requires wrap.Valid()
    modifies wrap
    ensures wrap.Valid() && wrap.Rest() == AfterNumber(old(wrap.Rest()))
    ensures n == if wraps then Number(old(wrap.Rest())) % SIZE_T else Number(old(wrap.Rest()))
  {
    hide Decimal, DigitCount;
    ghost var u := wrap.Rest();
    ghost var k := 0;
    n := 0;
    DecimalOfNothing();
    while IsDigit(wrap.ch)
      invariant wrap.Valid() && k <= |u| && wrap.Rest() == u[k..]
      invariant AllDigits(u[..k])
      invariant n == if wraps then Decimal(u[..k]) % SIZE_T else Decimal(u[..k])
      decreases |u| - k
    {
      DecimalMore(u, k);
      CountStep(Decimal(u[..k]), n, DigitValue(wrap.ch), wraps);
      n := n * 10 + DigitValue(wrap.ch);
      if wraps {
        n := n % SIZE_T;
      }
      k := k + 1;
      wrap.GetNext();
    }
    DigitCountUnique(u, k);
  }

  lemma CountStep(v: nat, n: nat, d: nat, wraps: bool)
    requires n == if wraps then v % SIZE_T else v
    ensures (if wraps then (n * 10 + d) % SIZE_T else n * 10 + d) == if wraps then (v * 10 + d) % SIZE_T else v * 10 + d
  {
    WrapStep(v, d);
  }

  lemma WrapStep(n: nat, d: nat)
    ensures (n % SIZE_T * 10 + d) % SIZE_T == (n * 10 + d) % SIZE_T
  {
    var q, r := n / SIZE_T, n % SIZE_T;
    var y := r * 10 + d;
    var a, b := y / SIZE_T, y % SIZE_T;
    assert n * 10 + d == (q * 10 + a) * SIZE_T + b;
    ModUnique(n * 10 + d, q * 10 + a, b);
  }

  lemma ModUnique(x: nat, k: int, b: nat)
    requires x == k * SIZE_T + b && b < SIZE_T
    ensures x % SIZE_T == b
  {
  }

  lemma DecimalOfNothing()
    ensures Decimal("") == 0
  {
  }

  lemma DecimalMore(u: string, k: nat)
    requires k < |u| && AllDigits(u[..k]) && IsDigit(u[k])
    ensures AllDigits(u[..k + 1]) && Decimal(u[..k + 1]) == Decimal(u[..k]) * 10 + DigitValue(u[k])
  {
    assert u[..k + 1][..k] == u[..k];
  }

  // ---- The three readers -----------------------------------------------------------

  datatype TextError = OctetTooBig | DotExpected | UnknownCharacter

  /** The CLI validator parse_ipv4_address, from octet `k` on. */
  predicate Validates(u: string, k: nat)
    requires k <= 4
    decreases 4 - k
  {
    if k == 4 then First(u) == EOT
    else
      && IsDigit(First(u))
      && Number(u) <= 255
      && (k < 3 ==> First(AfterNumber(u)) == '.')
      && Validates(if k < 3 then Tail(AfterNumber(u)) else AfterNumber(u), k + 1)
  }

  method ParseIpv4Address(str: string) returns (valid: bool)
    ensures valid == Validates(str, 0)
  {
    hide Number, AfterNumber;
    var wrap := new Cursor(str);
    for i := 0 to 4
      invariant wrap.Valid() && fresh(wrap)
      invariant Validates(str, 0) == Validates(wrap.Rest(), i)
    {
      if !IsDigit(wrap.ch) {  // parse_number throws, and the exception is caught
        return false;
      }
      var octet := ReadDigits(wrap, false);
      if octet > 255 {
        return false;
      }
      if i < 3 {
        if wrap.ch != '.' {
          return false;
        }
        wrap.GetNext();
      }
    }
    return wrap.ch == EOT;
  }

  /** The CLI constructor; it does not look at what follows the fourth octet. */
  function CliOctets(u: string, k: nat): Result<seq<byte>, TextError>
    requires k <= 4
    decreases 4 - k
  {
    if k == 4 then Ok([])
    else if Number(u) > 255 then Err(OctetTooBig)
    else if k != 3 && First(AfterNumber(u)) != '.' then Err(DotExpected)
    else
      var rest :- CliOctets(if k != 3 then Tail(AfterNumber(u)) else AfterNumber(u), k + 1);
      Ok([Number(u)] + rest)
  }

  method CliIPv4Address(ip: string) returns (r: Result<seq<byte>, TextError>)
    ensures r == CliOctets(ip, 0)
  {
    hide Number, AfterNumber;
    var wrap := new Cursor(ip);
    var data: seq<byte> := [];
    PrependNothing([], CliOctets(ip, 0));
    for i := 0 to 4
      invariant wrap.Valid() && fresh(wrap)
      invariant CliOctets(ip, 0) == Prepend(data, CliOctets(wrap.Rest(), i))
    {
      var octet := ReadDigits(wrap, false);
      if octet > 255 {
        return Err(OctetTooBig);
      }
      if i != 3 {
        var ok := wrap.Check('.');
        if !ok {
          return Err(DotExpected);
        }
      }
      PrependOne(data, octet, CliOctets(wrap.Rest(), i + 1));
      data := data + [octet];
    }
    PrependNothing(data, Result<seq<byte>, TextError>.Ok([]));
    return Ok(data);
  }

  /** The DHCP constructor. It steps over one character after each octet, also the last. */
  function DhcpOctets(u: string, k: nat): Result<seq<byte>, TextError>
    requires k <= 4
    decreases 4 - k
  {
    if k == 4 then if First(u) == EOT then Ok([]) else Err(UnknownCharacter)
    else if Number(u) % SIZE_T > 255 then Err(OctetTooBig)
    else if k < 3 && First(AfterNumber(u)) != '.' then Err(DotExpected)
    else
      var rest :- DhcpOctets(Tail(AfterNumber(u)), k + 1);
      Ok([Number(u) % SIZE_T] + rest)
  }

  method DhcpIPv4Address(ip: string) returns (r: Result<seq<byte>, TextError>)
    ensures r == DhcpOctets(ip, 0)
  {
    hide Number, AfterNumber;
    var wrap := new Cursor(ip);
    var data: seq<byte> := [];
    PrependNothing([], DhcpOctets(ip, 0));
    for i := 0 to 4
      invariant wrap.Valid() && fresh(wrap)
      invariant DhcpOctets(ip, 0) == Prepend(data, DhcpOctets(wrap.Rest(), i))
    {
      var octet := ReadDigits(wrap, true);
      if octet > 255 {
        return Err(OctetTooBig);
      }
      if i < 3 && wrap.ch != '.' {
        return Err(DotExpected);
      }
      wrap.GetNext();
      PrependOne(data, octet, DhcpOctets(wrap.Rest(), i + 1));
      data := data + [octet];
    }
    if wrap.ch != EOT {
      return Err(UnknownCharacter);
    }
    PrependNothing(data, Result<seq<byte>, TextError>.Ok([]));
    return Ok(data);
  }

  // ---- What they accept --------------------------------------------------------------

  /** Digit strings joined by dots, and a tail. */
  function Dotted(ds: seq<string>, tail: string): string
    requires ds != []
  {
    if |ds| == 1 then ds[0] + tail else ds[0] + "." + Dotted(ds[1..], tail)
  }

  lemma DottedCons(d: string, others: seq<string>, tail: string)
    ensures Dotted([d] + others, tail) == if others == [] then d + tail else d + "." + Dotted(others, tail)
  {
    assert ([d] + others)[1..] == others;
  }

  predicate DigitStrings(ds: seq<string>) {
    forall i | 0 <= i < |ds| :: AllDigits(ds[i])
  }

  predicate Octets(ds: seq<string>) {
    DigitStrings(ds) && forall i | 0 <= i < |ds| :: ds[i] != "" && Decimal(ds[i]) <= 255
  }

  function Values(ds: seq<string>): seq<byte>
    requires Octets(ds)
  {
    seq(|ds|, i requires 0 <= i < |ds| => Decimal(ds[i]))
  }

  lemma NumberOf(d: string, u: string)
    requires AllDigits(d) && !IsDigit(First(u))
    ensures Number(d + u) == Decimal(d) && AfterNumber(d + u) == u
  {
    assert (d + u)[..|d|] == d && (d + u)[|d|..] == u;
    DigitCountUnique(d + u, |d|);
  }

  lemma DottedHead(ds: seq<string>, tail: string) returns (rest: string)
    requires DigitStrings(ds) && ds != [] && !IsDigit(First(tail))
    ensures Dotted(ds, tail) == ds[0] + rest && !IsDigit(First(rest))
    ensures if |ds| == 1 then rest == tail else First(rest) == '.' && Tail(rest) == Dotted(ds[1..], tail)
    ensures Number(Dotted(ds, tail)) == Decimal(ds[0]) && AfterNumber(Dotted(ds, tail)) == rest
  {
    rest := if |ds| == 1 then tail else "." + Dotted(ds[1..], tail);
    assert Dotted(ds, tail) == ds[0] + rest;
    NumberOf(ds[0], rest);
  }

  lemma {:induction false} ValidatorAccepts(ds: seq<string>, tail: string)
    requires 1 <= |ds| <= 4 && Octets(ds) && First(tail) == EOT
    ensures Validates(Dotted(ds, tail), 4 - |ds|)
    ensures CliOctets(Dotted(ds, tail), 4 - |ds|) == Ok(Values(ds))
  {
    hide Decimal, Number, AfterNumber;
    assert First(Dotted(ds, tail)) == ds[0][0];
    var rest := DottedHead(ds, tail);
    if |ds| == 1 {
      assert Values(ds) == [Decimal(ds[0])] + [];
    } else {
      ValidatorAccepts(ds[1..], tail);
      assert Values(ds) == [Decimal(ds[0])] + Values(ds[1..]);
    }
  }

  lemma SplitNumber(u: string)
    ensures u == u[..DigitCount(u)] + AfterNumber(u)
    ensures First(AfterNumber(u)) == '.' ==> u == u[..DigitCount(u)] + "." + Tail(AfterNumber(u))
  {
    var rest := AfterNumber(u);
    if First(rest) == '.' {
      assert rest == "." + Tail(rest);
    }
  }

  lemma OctetsCons(d: string, others: seq<string>)
    requires AllDigits(d) && d != "" && Decimal(d) <= 255 && Octets(others)
    ensures Octets([d] + others)
  {
  }

  lemma {:induction false} ValidatorOnly(u: string, k: nat) returns (ds: seq<string>, tail: string)
    requires k <= 3 && Validates(u, k)
    ensures |ds| == 4 - k && Octets(ds) && First(tail) == EOT && u == Dotted(ds, tail)
    decreases 4 - k
  {
    var d := u[..DigitCount(u)];
    assert d != "";
    hide Decimal, AllDigits, Dotted, Octets;
    SplitNumber(u);
    var others := [];
    tail := AfterNumber(u);
    if k < 3 {
      others, tail := ValidatorOnly(Tail(AfterNumber(u)), k + 1);
    } else {
      NoOctets();
    }
    ds := [d] + others;
    OctetsCons(d, others);
    DottedCons(d, others, tail);
  }

  lemma NoOctets()
    ensures Octets([]) && LooseOctets([])
  {
  }

  /** The end of a text, or the character 3 that stands for it. */
  predicate AtEnd(tail: string) {
    tail == "" || tail[0] as int == 3
  }

  /** The validator accepts exactly four dotted octets, up to the end of the text or the
      first sentinel character; the CLI constructor then reads just these octets. */
  lemma ValidatorExactly(s: string)
    ensures Validates(s, 0) <==>
            exists ds, tail :: |ds| == 4 && Octets(ds) && AtEnd(tail) && s == Dotted(ds, tail)
    ensures Validates(s, 0) ==>
              exists ds, tail :: |ds| == 4 && Octets(ds) && AtEnd(tail) && s == Dotted(ds, tail)
                                 && CliOctets(s, 0) == Ok(Values(ds))
  {
    if Validates(s, 0) {
      var ds, tail := ValidatorOnly(s, 0);
      ValidatorAccepts(ds, tail);
    }
    forall ds, tail | |ds| == 4 && Octets(ds) && AtEnd(tail) && s == Dotted(ds, tail)
      ensures Validates(s, 0)
    {
      ValidatorAccepts(ds, tail);
    }
  }

  /** What the DHCP constructor lets follow the fourth octet. */
  predicate LooseTail(tail: string) {
    (tail == "" || !('0' <= tail[0] <= '9')) && (|tail| > 1 ==> tail[1] as int == 3)
  }

  /** It accepts octets without digits, and numbers that are small modulo 2^64. */
  predicate LooseOctets(ds: seq<string>) {
    DigitStrings(ds) && forall i | 0 <= i < |ds| :: Decimal(ds[i]) % 0x1_0000_0000_0000_0000 <= 255
  }

  function LooseValues(ds: seq<string>): seq<byte>
    requires LooseOctets(ds)
  {
    seq(|ds|, i requires 0 <= i < |ds| => Decimal(ds[i]) % 0x1_0000_0000_0000_0000)
  }

  lemma {:induction false} DhcpAccepts(ds: seq<string>, tail: string)
    requires 1 <= |ds| <= 4 && LooseOctets(ds) && LooseTail(tail)
    ensures DhcpOctets(Dotted(ds, tail), 4 - |ds|) == Ok(LooseValues(ds))
  {
    hide Decimal, Number, AfterNumber, AllDigits;
    var rest := DottedHead(ds, tail);
    if |ds| == 1 {
      assert LooseValues(ds) == [Decimal(ds[0]) % SIZE_T] + [];
    } else {
      DhcpAccepts(ds[1..], tail);
      assert LooseValues(ds) == [Decimal(ds[0]) % SIZE_T] + LooseValues(ds[1..]);
    }
  }

  lemma LooseOctetsCons(d: string, others: seq<string>)
    requires AllDigits(d) && Decimal(d) % 0x1_0000_0000_0000_0000 <= 255 && LooseOctets(others)
    ensures LooseOctets([d] + others)
  {
  }

  lemma {:induction false} DhcpOnly(u: string, k: nat) returns (ds: seq<string>, tail: string)
    requires k <= 3 && DhcpOctets(u, k).Ok?
    ensures |ds| == 4 - k && LooseOctets(ds) && LooseTail(tail) && u == Dotted(ds, tail)
    decreases 4 - k
  {
    hide Decimal, AllDigits, Dotted, LooseOctets;
    var d := u[..DigitCount(u)];
    SplitNumber(u);
    var others := [];
    tail := AfterNumber(u);
    if k < 3 {
      others, tail := DhcpOnly(Tail(AfterNumber(u)), k + 1);
    } else {
      NoOctets();
      NumberIsMaximal(u);
    }
    ds := [d] + others;
    LooseOctetsCons(d, others);
    DottedCons(d, others, tail);
  }

  lemma NumberIsMaximal(u: string)
    ensures !IsDigit(First(AfterNumber(u)))
  {
  }

  /** The DHCP constructor accepts exactly four dotted, possibly empty digit strings that are
      small modulo 2^64, with at most one more character before the end or a sentinel. */
  lemma DhcpExactly(s: string)
    ensures DhcpOctets(s, 0).Ok? <==>
            exists ds, tail :: |ds| == 4 && LooseOctets(ds) && LooseTail(tail) && s == Dotted(ds, tail)
    ensures DhcpOctets(s, 0).Ok? ==>
              exists ds, tail :: |ds| == 4 && LooseOctets(ds) && LooseTail(tail) && s == Dotted(ds, tail)
                                 && DhcpOctets(s, 0) == Ok(LooseValues(ds))
  {
    if DhcpOctets(s, 0).Ok? {
      var ds, tail := DhcpOnly(s, 0);
      DhcpAccepts(ds, tail);
    }
    forall ds, tail | |ds| == 4 && LooseOctets(ds) && LooseTail(tail) && s == Dotted(ds, tail)
      ensures DhcpOctets(s, 0).Ok?
    {
      DhcpAccepts(ds, tail);
    }
  }

  /** Octets of the CLI constructor, with or without digits. */
  predicate PlainOctets(ds: seq<string>) {
    DigitStrings(ds) && forall i | 0 <= i < |ds| :: Decimal(ds[i]) <= 255
  }

  function PlainValues(ds: seq<string>): seq<byte>
    requires PlainOctets(ds)
  {
    seq(|ds|, i requires 0 <= i < |ds| => Decimal(ds[i]))
  }

  predicate NoDigitFollows(tail: string) {
    tail == "" || !('0' <= tail[0] <= '9')
  }

  lemma {:induction false} CliAccepts(ds: seq<string>, tail: string)
    requires 1 <= |ds| <= 4 && PlainOctets(ds) && NoDigitFollows(tail)
    ensures CliOctets(Dotted(ds, tail), 4 - |ds|) == Ok(PlainValues(ds))
  {
    hide Decimal, Number, AfterNumber, AllDigits;
    var rest := DottedHead(ds, tail);
    if |ds| == 1 {
      assert PlainValues(ds) == [Decimal(ds[0])] + [];
    } else {
      CliAccepts(ds[1..], tail);
      assert PlainValues(ds) == [Decimal(ds[0])] + PlainValues(ds[1..]);
    }
  }

  lemma PlainOctetsCons(d: string, others: seq<string>)
    requires AllDigits(d) && Decimal(d) <= 255 && PlainOctets(others)
    ensures PlainOctets([d] + others)
  {
  }

  lemma {:induction false} CliOnly(u: string, k: nat) returns (ds: seq<string>, tail: string)
    requires k <= 3 && CliOctets(u, k).Ok?
    ensures |ds| == 4 - k && PlainOctets(ds) && NoDigitFollows(tail) && u == Dotted(ds, tail)
    decreases 4 - k
  {
    hide Decimal, AllDigits, Dotted;
    var d := u[..DigitCount(u)];
    SplitNumber(u);
    var others := [];
    tail := AfterNumber(u);
    if k < 3 {
      others, tail := CliOnly(Tail(AfterNumber(u)), k + 1);
    } else {
      NumberIsMaximal(u);
    }
    ds := [d] + others;
    PlainOctetsCons(d, others);
    DottedCons(d, others, tail);
  }

  /** The CLI constructor accepts exactly four dotted, possibly empty digit strings up to 255,
      whatever follows the last one, and reads just these numbers. */
  lemma CliExactly(s: string)
    ensures CliOctets(s, 0).Ok? <==>
            exists ds, tail :: |ds| == 4 && PlainOctets(ds) && NoDigitFollows(tail) && s == Dotted(ds, tail)
    ensures CliOctets(s, 0).Ok? ==>
              exists ds, tail :: |ds| == 4 && PlainOctets(ds) && NoDigitFollows(tail) && s == Dotted(ds, tail)
                                 && CliOctets(s, 0) == Ok(PlainValues(ds))
  {
    if CliOctets(s, 0).Ok? {
      var ds, tail := CliOnly(s, 0);
      CliAccepts(ds, tail);
    }
    forall ds, tail | |ds| == 4 && PlainOctets(ds) && NoDigitFollows(tail) && s == Dotted(ds, tail)
      ensures CliOctets(s, 0).Ok?
    {
      CliAccepts(ds, tail);
    }
  }

  /** A text the DHCP constructor accepts and the CLI refuses: a character after the fourth octet. */
  lemma DhcpReadsTrailingCharacter()
    ensures DhcpOctets("1.2.3.4x", 0) == Ok([1, 2, 3, 4]) && !Validates("1.2.3.4x", 0)
  {
    hide Decimal, DhcpOctets, Validates, Dotted;
    var ds := ["1", "2", "3", "4"];
    OneDigits();
    DottedFour(ds, "x");
    assert "1" + "." + ("2" + "." + ("3" + "." + ("4" + "x"))) == "1.2.3.4x";
    DhcpAccepts(ds, "x");
    assert LooseValues(ds) == [1, 2, 3, 4];
    NotValidated(ds, "x");
  }

  /** Another one: octets without digits. */
  lemma DhcpReadsEmptyOctets()
    ensures DhcpOctets("...", 0) == Ok([0, 0, 0, 0]) && !Validates("...", 0)
  {
    assert !Validates("...", 0);
    hide Decimal, DhcpOctets, Validates, Dotted;
    var ds := ["", "", "", ""];
    OneDigits();
    DottedFour(ds, "");
    assert "" + "." + ("" + "." + ("" + "." + ("" + ""))) == "...";
    DhcpAccepts(ds, "");
    assert LooseValues(ds) == [0, 0, 0, 0];
  }

  lemma OneDigits()
    ensures Decimal("") == 0 && Decimal("1") == 1 && Decimal("2") == 2 && Decimal("3") == 3 && Decimal("4") == 4
  {
    assert "1"[..0] == "" && "2"[..0] == "" && "3"[..0] == "" && "4"[..0] == "";
  }

  lemma DottedFour(ds: seq<string>, tail: string)
    requires |ds| == 4
    ensures Dotted(ds, tail) == ds[0] + "." + (ds[1] + "." + (ds[2] + "." + (ds[3] + tail)))
  {
    var three, two, one := ds[1..], ds[2..], ds[3..];
    assert three[1..] == two && two[1..] == one;
    assert Dotted(one, tail) == ds[3] + tail;
    assert Dotted(two, tail) == ds[2] + "." + Dotted(one, tail);
    assert Dotted(three, tail) == ds[1] + "." + Dotted(two, tail);
  }

  /** The validator refuses four octets that are followed by anything but the end. */
  lemma {:induction false} NotValidated(ds: seq<string>, tail: string)
    requires 1 <= |ds| <= 4 && DigitStrings(ds) && !IsDigit(First(tail)) && First(tail) != EOT
    ensures !Validates(Dotted(ds, tail), 4 - |ds|)
  {
    hide Decimal, Number, AfterNumber, AllDigits;
    var rest := DottedHead(ds, tail);
    if |ds| > 1 {
      NotValidated(ds[1..], tail);
    }
  }

  // ---- Printing ------------------------------------------------------------------------

  function PrintOctet(b: byte): string {
    if b < 10 then [(b + '0' as int) as char] else PrintOctet(b / 10) + [(b % 10 + '0' as int) as char]
  }

  /** The value of a digit string, digit by digit. */
  lemma DecimalIsPositional(d: string, c: char)
    requires AllDigits(d) && '0' <= c <= '9'
    ensures AllDigits(d + [c]) && Decimal(d + [c]) == 10 * Decimal(d) + (c as int - 48) && Decimal("") == 0
  {
    assert (d + [c])[..|d|] == d;
  }

  /** Both `to_string` members. */
  function Print(q: Quad): string {
    PrintOctet(q[0]) + "." + PrintOctet(q[1]) + "." + PrintOctet(q[2]) + "." + PrintOctet(q[3])
  }

  lemma {:induction false} PrintedOctet(b: byte)
    ensures PrintOctet(b) != "" && AllDigits(PrintOctet(b)) && Decimal(PrintOctet(b)) == b
  {
    var d := PrintOctet(b);
    if b >= 10 {
      PrintedOctet(b / 10);
      assert d[..|d| - 1] == PrintOctet(b / 10);
    } else {
      assert d[..0] == "";
    }
  }

  /** An octet is printed without leading zeros. */
  lemma PrintedLength(b: byte)
    ensures |PrintOctet(b)| == if b < 10 then 1 else if b < 100 then 2 else 3
  {
    if b >= 10 {
      assert |PrintOctet(b / 10)| == if b / 10 < 10 then 1 else 2;
    }
  }

  lemma PrintedExample()
    ensures Print([192, 168, 0, 10]) == "192.168.0.10"
  {
    assert PrintOctet(19) == "19" && PrintOctet(16) == "16";
    assert PrintOctet(192) == "192" && PrintOctet(168) == "168" && PrintOctet(10) == "10";
    assert "192" + "." + "168" + "." + "0" + "." + "10" == "192.168.0.10";
  }

  lemma PrintIsDotted(q: Quad) returns (ds: seq<string>)
    ensures |ds| == 4 && Octets(ds) && Values(ds) == q && Print(q) == Dotted(ds, "")
  {
    hide Decimal, AllDigits, PrintOctet;
    ds := [PrintOctet(q[0]), PrintOctet(q[1]), PrintOctet(q[2]), PrintOctet(q[3])];
    forall i | 0 <= i < 4 ensures ds[i] != "" && AllDigits(ds[i]) && Decimal(ds[i]) == q[i] {
      PrintedOctet(q[i]);
    }
    var last, two, three := ds[3..], ds[2..], ds[1..];
    assert Dotted(last, "") == ds[3];
    assert two[1..] == last && Dotted(two, "") == ds[2] + "." + ds[3];
    assert three[1..] == two && Dotted(three, "") == ds[1] + "." + Dotted(two, "");
    assert Dotted(ds, "") == ds[0] + "." + Dotted(three, "");
    assert Print(q) == ds[0] + "." + (ds[1] + "." + (ds[2] + "." + ds[3]));
  }

  /** Printing any address and reading it with any of the readers gives it back. */
  lemma PrintThenParse(q: Quad)
    ensures Validates(Print(q), 0)
    ensures CliOctets(Print(q), 0) == Ok(q)
    ensures DhcpOctets(Print(q), 0) == Ok(q)
  {
    hide Validates, CliOctets, DhcpOctets, Dotted, Print, Decimal;
    var ds := PrintIsDotted(q);
    ValidatorAccepts(ds, "");
    DhcpAccepts(ds, "");
    assert Values(ds) == LooseValues(ds);
  }

  /** From the command line to the server: a text the CLI accepts is read there without
      error, and the server reads the same octets from what the CLI prints. */
  lemma TextEndToEnd(s: string)
    requires Validates(s, 0)
    ensures CliOctets(s, 0).Ok? && |CliOctets(s, 0).value| == 4
    ensures DhcpOctets(Print(CliOctets(s, 0).value), 0) == CliOctets(s, 0)
    ensures CliOctets(Print(CliOctets(s, 0).value), 0) == CliOctets(s, 0)
  {
    var ds, tail := ValidatorOnly(s, 0);
    ValidatorAccepts(ds, tail);
    PrintThenParse(CliOctets(s, 0).value);
  }
}
