/** The commands registered in cli/src/Command.cpp, and what typing one of them does. */
module ShippedCommands {
  import opened Wrappers
  import opened AddressText
  import opened CommandTrees
  import opened CommandDispatch
  import opened CommandPatterns

  const VERSION := WordElement("version")
  const IP := WordElement("ip")
  const SHOW := WordElement("show")
  const ADDRESS := WordElement("address")
  const DHCP := WordElement("dhcp")
  const POOL := WordElement("pool")
  const CREATE := WordElement("create")
  const LIST := WordElement("list")
  const IPV4 := Element(IpV4Address, "")

  function WordElement(w: string): Element {
    Element(FixedWord, w)
  }

  /** `all_commands`; the handlers are numbered by position, as `blank` is registered twice. */
  const PATTERNS: seq<string> := [
    "version",
    "ip show",
    "ip address show",
    "ip address " + "<IPv4Address>",
    "dhcp pool create " + "<IPv4Address> <IPv4Address>",
    "dhcp pool list"]

  const SHIPPED: seq<Command> := [
    Command([VERSION], 0),
    Command([IP, SHOW], 1),
    Command([IP, ADDRESS, SHOW], 2),
    Command([IP, ADDRESS, IPV4], 3),
    Command([DHCP, POOL, CREATE, IPV4, IPV4], 4),
    Command([DHCP, POOL, LIST], 5)]

  lemma Shown1(e: Element)
    requires Expressible(e)
    ensures ShowAll([e]) == Show(e)
  {
  }

  lemma ShownMore(e: Element, es: seq<Element>)
    requires Expressible(e) && AllExpressible(es) && es != []
    ensures AllExpressible([e] + es) && ShowAll([e] + es) == Show(e) + " " + ShowAll(es)
  {
    assert ([e] + es)[1..] == es;
  }

  lemma Shown2(e: Element, f: Element)
    requires Expressible(e) && Expressible(f)
    ensures ShowAll([e, f]) == Show(e) + " " + Show(f)
  {
    Shown1(f);
    ShownMore(e, [f]);
    assert [e] + [f] == [e, f];
  }

  lemma Shown3(e: Element, f: Element, g: Element)
    requires Expressible(e) && Expressible(f) && Expressible(g)
    ensures ShowAll([e, f, g]) == Show(e) + " " + (Show(f) + " " + Show(g))
  {
    Shown2(f, g);
    ShownMore(e, [f, g]);
    assert [e] + [f, g] == [e, f, g];
  }

  /** The elements are what the pattern parser makes of the patterns. */
  lemma PatternsParse(i: nat)
    requires i < 6
    ensures Pattern(PATTERNS[i]) == Ok(SHIPPED[i].elements)
  {
    hide Pattern;
    match i
    case 0 => VersionPatternParses();
    case 1 => IpShowPatternParses();
    case 2 => AddressShowPatternParses();
    case 3 => AddressPatternParses();
    case 4 => CreatePatternParses();
    case 5 => ListPatternParses();
  }

  lemma VersionPatternParses()
    ensures Pattern("version") == Ok([VERSION])
  {
    hide Pattern;
    Shown1(VERSION);
    PatternRoundTrip([VERSION]);
  }

  lemma IpShowPatternParses()
    ensures Pattern("ip show") == Ok([IP, SHOW])
  {
    hide Pattern, ShowAll, Show;
    ShowWords();
    Shown2(IP, SHOW);
    PatternRoundTrip([IP, SHOW]);
    assert "ip" + " " + "show" == "ip show";
  }

  lemma AddressShowPatternParses()
    ensures Pattern("ip address show") == Ok([IP, ADDRESS, SHOW])
  {
    hide Pattern, ShowAll, Show;
    ShowWords();
    Shown3(IP, ADDRESS, SHOW);
    PatternRoundTrip([IP, ADDRESS, SHOW]);
    IpAddressText("show");
    assert "ip address " + "show" == "ip address show";
  }

  lemma AddressPatternParses()
    ensures Pattern("ip address " + "<IPv4Address>") == Ok([IP, ADDRESS, IPV4])
  {
    hide Pattern, ShowAll, Show;
    ShowWords();
    Shown3(IP, ADDRESS, IPV4);
    PatternRoundTrip([IP, ADDRESS, IPV4]);
    IpAddressText("<IPv4Address>");
  }

  lemma IpAddressText(rest: string)
    ensures "ip" + " " + ("address" + " " + rest) == "ip address " + rest
  {
    assert "ip" + " " + "address" + " " == "ip address ";
  }

  lemma ListPatternParses()
    ensures Pattern("dhcp pool list") == Ok([DHCP, POOL, LIST])
  {
    hide Pattern, ShowAll, Show;
    ShowWords();
    Shown3(DHCP, POOL, LIST);
    PatternRoundTrip([DHCP, POOL, LIST]);
    assert "dhcp" + " " + ("pool" + " " + "list") == "dhcp pool list";
  }

  lemma CreatePatternParses()
    ensures Pattern("dhcp pool create " + "<IPv4Address> <IPv4Address>") == Ok([DHCP, POOL, CREATE, IPV4, IPV4])
  {
    hide Pattern, ShowAll, Show;
    ShowWords();
    var three, four := [CREATE, IPV4, IPV4], [POOL, CREATE, IPV4, IPV4];
    Shown3(CREATE, IPV4, IPV4);
    ShownMore(POOL, three);
    assert [POOL] + three == four;
    ShownMore(DHCP, four);
    assert [DHCP] + four == [DHCP, POOL, CREATE, IPV4, IPV4];
    PatternRoundTrip([DHCP] + four);
    assert "<IPv4Address>" + " " + "<IPv4Address>" == "<IPv4Address> <IPv4Address>";
    CreateText("<IPv4Address> <IPv4Address>");
  }

  lemma CreateText(rest: string)
    ensures "dhcp" + " " + ("pool" + " " + ("create" + " " + rest)) == "dhcp pool create " + rest
  {
    assert "dhcp" + " " + "pool" + " " + "create" + " " == "dhcp pool create ";
  }

  lemma ShowWords()
    ensures forall e | e in [VERSION, IP, SHOW, ADDRESS, DHCP, POOL, CREATE, LIST, IPV4] :: Expressible(e)
    ensures Show(VERSION) == "version" && Show(IP) == "ip" && Show(SHOW) == "show" && Show(ADDRESS) == "address"
    ensures Show(DHCP) == "dhcp" && Show(POOL) == "pool" && Show(CREATE) == "create" && Show(LIST) == "list"
    ensures Show(IPV4) == "<IPv4Address>"
  {
  }

  /** Two elements that no word fits both of. */
  predicate Separate(e: Element, f: Element) {
    || (e.kind.FixedWord? && f.kind.FixedWord? && e.fixedValue != f.fixedValue)
    || (e.kind.FixedWord? && IsWord(e.fixedValue) && f.kind.IpV4Address?)
    || (f.kind.FixedWord? && IsWord(f.fixedValue) && e.kind.IpV4Address?)
  }

  lemma SeparateRefuses(token: string, e: Element, f: Element)
    requires Separate(e, f) && CheckElement(token, e).Accepted?
    ensures CheckElement(token, f).Refused?
  {
  }

  lemma LeavesShares(ds: seq<Element>, es: seq<Element>, i: nat, j: nat)
    requires i < |es| && LeavesAt(ds, es, i) && j < i
    ensures j < |ds| && ds[j] == es[j]
  {
    assert ds[j] == ds[..i][j] == es[..i][j];
  }

  lemma FirstWordsPart(a: nat, b: nat)
    requires a < 6 && b < 6
    ensures SHIPPED[a].elements[0] != SHIPPED[b].elements[0] ==>
              Separate(SHIPPED[a].elements[0], SHIPPED[b].elements[0])
  {
  }

  lemma SecondWordsPart(a: nat, b: nat)
    requires a < 6 && b < 6 && |SHIPPED[a].elements| > 1 && |SHIPPED[b].elements| > 1
    ensures SHIPPED[a].elements[1] != SHIPPED[b].elements[1] ==>
              Separate(SHIPPED[a].elements[1], SHIPPED[b].elements[1])
  {
  }

  lemma LaterElementsPart(a: nat, b: nat, i: nat)
    requires a < 6 && b < 6 && 1 < i < |SHIPPED[a].elements| && i < |SHIPPED[b].elements|
    requires SHIPPED[a].elements[0] == SHIPPED[b].elements[0] && SHIPPED[a].elements[1] == SHIPPED[b].elements[1]
    ensures SHIPPED[a].elements[i] != SHIPPED[b].elements[i] ==>
              Separate(SHIPPED[a].elements[i], SHIPPED[b].elements[i])
  {
    WordsDiffer();
  }

  /** Two registered patterns part at separate elements. */
  lemma ShippedPart(a: nat, b: nat, i: nat)
    requires a < 6 && b < 6 && i < |SHIPPED[a].elements|
    ensures LeavesAt(SHIPPED[b].elements, SHIPPED[a].elements, i) ==>
              Separate(SHIPPED[a].elements[i], SHIPPED[b].elements[i])
  {
    var es, ds := SHIPPED[a].elements, SHIPPED[b].elements;
    hide Separate;
    if LeavesAt(ds, es, i) {
      LeavesInside(ds, es, i);
      if i == 0 {
        FirstWordsPart(a, b);
      } else if i == 1 {
        SecondWordsPart(a, b);
      } else {
        LeavesShares(ds, es, i, 0);
        LeavesShares(ds, es, i, 1);
        LaterElementsPart(a, b, i);
      }
    }
  }

  /** None of them is a prefix of another. */
  lemma NoPrefixes(a: nat, b: nat)
    requires a < 6 && b < 6
    ensures SHIPPED[a].elements <= SHIPPED[b].elements <==> a == b
  {
    var es, ds := SHIPPED[a].elements, SHIPPED[b].elements;
    WordsDiffer();
    if es <= ds {
      assert ds[0] == es[0];
      assert |es| > 1 ==> ds[1] == es[1];
      assert |es| > 2 ==> ds[2] == es[2];
    }
  }

  lemma WordsDiffer()
    ensures "show" != "dhcp" && "show" != "pool" && "show" != "list" && "dhcp" != "pool" && "dhcp" != "list"
    ensures "pool" != "list" && "version" != "address"
  {
    assert "show"[0] == 's' && "dhcp"[0] == 'd' && "pool"[0] == 'p' && "list"[0] == 'l';
    assert "version"[0] == 'v' && "address"[0] == 'a';
  }

  /** Typing any registered command, with any valid addresses for its variables, reaches its
      node with one stack entry per element, and ENTER runs its own handler. */
  lemma ShippedDispatch(at: nat, tokens: seq<string>)
    requires at < |SHIPPED| && Instantiates(tokens, SHIPPED[at].elements)
    ensures var walk := Analyze(Build(SHIPPED), tokens, []);
            && walk.Arrived? && Enter(walk.node) == Some(SHIPPED[at].handler)
            && walk.stack == Entries(tokens, SHIPPED[at].elements)
  {
    DispatchIn(SHIPPED, at, tokens);
  }

  /** The same with the list as a variable, which keeps its literal out of the proof. */
  lemma DispatchIn(commands: seq<Command>, at: nat, tokens: seq<string>)
    requires commands == SHIPPED && at < |commands| && Instantiates(tokens, commands[at].elements)
    ensures var walk := Analyze(Build(commands), tokens, []);
            && walk.Arrived? && Enter(walk.node) == Some(commands[at].handler)
            && walk.stack == Entries(tokens, commands[at].elements)
  {
    var es := commands[at].elements;
    hide CheckElement, Build, Analyze, Enter, Separate, LeavesAt;
    forall i | 0 <= i < |es| ensures ClearAt(commands, tokens[i], es, i) {
      forall c | 0 <= c < |commands| && LeavesAt(commands[c].elements, es, i)
        ensures CheckElement(tokens[i], commands[c].elements[i]).Refused?
      {
        ShippedPart(at, c, i);
        LeavesInside(commands[c].elements, es, i);
        SeparateRefuses(tokens[i], es[i], commands[c].elements[i]);
      }
    }
    forall i | 0 <= i < |commands| ensures es <= commands[i].elements <==> i == at {
      NoPrefixes(at, i);
    }
    assert RealCommands(commands);
    HitsOnce(commands, at, es);
    Dispatch(commands, at, tokens);
  }

  lemma LeavesInside(ds: seq<Element>, es: seq<Element>, i: nat)
    requires i < |es| && LeavesAt(ds, es, i)
    ensures i < |ds| && ds[i] != es[i]
  {
  }

  /** The two handlers with arguments find the 3 and 5 stack entries they check for, with the
      addresses they take from the top. */
  lemma HandlersFindArguments(tokens: seq<string>)
    ensures Instantiates(tokens, SHIPPED[3].elements) ==>
              var walk := Analyze(Build(SHIPPED), tokens, []);
              walk.Arrived? && |walk.stack| == 3 && walk.stack[2].Ipv4?
    ensures Instantiates(tokens, SHIPPED[4].elements) ==>
              var walk := Analyze(Build(SHIPPED), tokens, []);
              walk.Arrived? && |walk.stack| == 5 && walk.stack[4].Ipv4? && walk.stack[3].Ipv4?
  {
    hide CheckElement, Build, Analyze, Enter, Instantiates;
    if Instantiates(tokens, SHIPPED[3].elements) {
      ShippedDispatch(3, tokens);
    }
    if Instantiates(tokens, SHIPPED[4].elements) {
      ShippedDispatch(4, tokens);
    }
  }
}
