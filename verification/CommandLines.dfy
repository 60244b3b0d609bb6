/** Whole command lines: which words fit which element, which words are skipped, and what the
    registered commands do. */
module CommandLines {
  import opened Wrappers
  import opened Words
  import opened IpAddresses
  import opened AddressText
  import opened CommandTrees
  import opened CommandDispatch
  import opened ShippedCommands

  // ---- Words and elements ---------------------------------------------------------------

  predicate Letters(w: string) {
    forall i | 0 <= i < |w| :: 'a' <= w[i] <= 'z' || 'A' <= w[i] <= 'Z'
  }

  lemma {:induction false} SkippedLetters(u: string) returns (w: string)
    ensures Letters(w) && u == w + SkipAlpha(u)
  {
    w := "";
    if u != "" && IsAlpha(u[0]) {
      var v := SkippedLetters(u[1..]);
      w := [u[0]] + v;
      assert u == [u[0]] + u[1..];
    }
  }

  lemma {:induction false} LettersAreSkipped(w: string, rest: string)
    requires Letters(w) && (rest != "" ==> !IsAlpha(rest[0]))
    ensures SkipAlpha(w + rest) == rest
  {
    if w == "" {
      assert w + rest == rest;
    } else {
      LettersAreSkipped(w[1..], rest);
      assert (w + rest)[1..] == w[1..] + rest;
    }
  }

  lemma QuotedHas(token: string) returns (w: string, rest: string)
    requires IsQuoted(token)
    ensures Letters(w) && token == "\"" + w + "\"" + rest
  {
    var u := token[1..];
    w := SkippedLetters(u);
    rest := SkipAlpha(u)[1..];
    assert SkipAlpha(u) == "\"" + rest;
    assert token == "\"" + u;
  }

  lemma HasQuoted(w: string, rest: string)
    requires Letters(w)
    ensures IsQuoted("\"" + w + "\"" + rest)
  {
    var token := "\"" + w + "\"" + rest;
    assert token[1..] == w + ("\"" + rest);
    LettersAreSkipped(w, "\"" + rest);
  }

  /** A quoted word is a quote, letters only and a quote, with anything after it. */
  lemma QuotedExactly(token: string)
    ensures IsQuoted(token) <==> exists w, rest :: Letters(w) && token == "\"" + w + "\"" + rest
  {
    hide IsQuoted, Letters;
    if IsQuoted(token) {
      var w, rest := QuotedHas(token);
    }
    if exists w, rest :: Letters(w) && token == "\"" + w + "\"" + rest {
      var w, rest :| Letters(w) && token == "\"" + w + "\"" + rest;
      HasQuoted(w, rest);
    }
  }

  /** A word of a line fits an element exactly so; the IPv6 parsers and the name parser accept
      everything. */
  lemma WordFits(token: string, e: Element)
    ensures e.kind.NoElement? ==> CheckElement(token, e) == Refused
    ensures e.kind.FixedWord? ==> CheckElement(token, e) == if token == e.fixedValue then Accepted else Refused
    ensures e.kind.AnyString? ==>
              CheckElement(token, e) == if exists w, rest :: Letters(w) && token == "\"" + w + "\"" + rest
                                        then Accepted else Refused
    ensures e.kind.Name? || e.kind.IpV6Address? || e.kind.IpV6SubnetMask? ==> CheckElement(token, e) == Accepted
    ensures e.kind.IpV4Address? ==>
              CheckElement(token, e) == if exists ds, tail ::
                                             && |ds| == 4 && Octets(ds) && AtEnd(tail)
                                             && token == Dotted(ds, tail)
                                        then Accepted else Refused
  {
    hide IsQuoted, Validates, Octets;
    if e.kind.AnyString? {
      QuotedExactly(token);
    }
    if e.kind.IpV4Address? {
      ValidatorExactly(token);
    }
  }

  /** What is pushed for an accepted word: the text itself for words, strings and names; the
      constructors for masks and IPv6 keep nothing of it. */
  lemma EntryKinds(token: string, e: Element)
    requires CheckElement(token, e).Accepted?
    ensures e.kind.FixedWord? || e.kind.AnyString? || e.kind.Name? <==> EntryFor(token, e) == Word(token)
    ensures e.kind.IpV4Address? <==> EntryFor(token, e).Ipv4?
    ensures e.kind.IpV6Address? <==> EntryFor(token, e) == Ipv6
    ensures e.kind.IpV4SubnetMask? <==> EntryFor(token, e) == Mask4
    ensures e.kind.IpV6SubnetMask? <==> EntryFor(token, e) == Mask6
    ensures e.kind.IpV4Address? ==>
              exists ds, tail :: |ds| == 4 && Octets(ds) && AtEnd(tail) && token == Dotted(ds, tail)
                                 && EntryFor(token, e) == Ipv4(Values(ds))
  {
    hide IsQuoted, Validates, Octets, CliOctets;
    if e.kind.IpV4Address? {
      ValidatorExactly(token);
    }
  }

  /** A mask is a number from 0 to 32, with anything after it; without a digit in front the
      parser throws, which nothing in the walk catches. */
  lemma MaskFits(token: string, e: Element, digits: string, rest: string)
    requires e.kind.IpV4SubnetMask? && token == digits + rest
    requires (forall i | 0 <= i < |digits| :: '0' <= digits[i] <= '9') && (rest != "" ==> !('0' <= rest[0] <= '9'))
    ensures CheckElement(token, e) ==
              if digits == "" then Raised
              else if Decimal(digits) <= 32 then Accepted
              else Refused
  {
    if digits == "" {
      assert token == rest;
    } else {
      assert token[0] == digits[0];
      NumberOf(digits, rest);
    }
  }

  // ---- Words that are skipped -------------------------------------------------------------

  predicate AllRefuse(children: seq<Tree>, w: string) {
    forall j | 0 <= j < |children| :: CheckElement(w, children[j].element).Refused?
  }

  lemma {:induction false} NothingPicked(children: seq<Tree>, w: string, k: nat)
    requires k <= |children| && AllRefuse(children, w)
    ensures Pick(children, w, k) == NoChild
    decreases |children| - k
  {
    hide CheckElement;
    if k < |children| {
      NothingPicked(children, w, k + 1);
    }
  }

  lemma {:induction false} AnalyzeAppend(t: Tree, a: seq<string>, b: seq<string>, stack: seq<Entry>)
    ensures Analyze(t, a + b, stack) ==
              match Analyze(t, a, stack)
              case Failed => Failed
              case Arrived(node, s) => Analyze(node, b, s)
    decreases |a|
  {
    hide Pick, CheckElement, EntryFor;
    if a == [] {
      assert a + b == b;
    } else {
      assert (a + b)[1..] == a[1..] + b;
      match Pick(t.children, a[0], 0)
      case Throw =>
      case NoChild => AnalyzeAppend(t, a[1..], b, stack);
      case Child(k) =>
        AnalyzeAppend(t.children[k], a[1..], b, stack + [EntryFor(a[0], t.children[k].element)]);
    }
  }

  /** A word that every child of the node reached refuses can be put in or left out anywhere:
      the walk stays at its node, its stack stays as it is, and the rest of the line is read. */
  lemma RefusedWordIsSkipped(t: Tree, a: seq<string>, w: string, b: seq<string>, stack: seq<Entry>)
    requires var walk := Analyze(t, a, stack); walk.Arrived? ==> AllRefuse(walk.node.children, w)
    ensures Analyze(t, a + [w] + b, stack) == Analyze(t, a + b, stack)
  {
    hide Analyze, AllRefuse, CheckElement;
    AnalyzeAppend(t, a, b, stack);
    AnalyzeAppend(t, a, [w] + b, stack);
    assert a + [w] + b == a + ([w] + b);
    var walk := Analyze(t, a, stack);
    if walk.Arrived? {
      OneWordSkipped(walk.node, w, b, walk.stack);
    }
  }

  lemma OneWordSkipped(t: Tree, w: string, b: seq<string>, stack: seq<Entry>)
    requires AllRefuse(t.children, w)
    ensures Analyze(t, [w] + b, stack) == Analyze(t, b, stack)
  {
    NothingPicked(t.children, w, 0);
    assert ([w] + b)[1..] == b;
  }

  /** A word that a child accepts while all before it refuse leads to that child, and its entry
      is pushed. */
  lemma AcceptedWordIsTaken(t: Tree, a: seq<string>, w: string, b: seq<string>, stack: seq<Entry>, j: nat)
    requires var walk := Analyze(t, a, stack);
             && walk.Arrived? && j < |walk.node.children|
             && CheckElement(w, walk.node.children[j].element).Accepted?
             && AllRefuse(walk.node.children[..j], w)
    ensures var walk := Analyze(t, a, stack);
            var child := walk.node.children[j];
            Analyze(t, a + [w] + b, stack) == Analyze(child, b, walk.stack + [EntryFor(w, child.element)])
  {
    hide Analyze, CheckElement, EntryFor;
    AnalyzeAppend(t, a, [w] + b, stack);
    assert a + [w] + b == a + ([w] + b);
    var walk := Analyze(t, a, stack);
    var children := walk.node.children;
    assert forall i | 0 <= i < j :: children[i] == children[..j][i];
    PickIs(children, w, 0, j);
    OneWordTaken(walk.node, w, b, walk.stack, j);
  }

  lemma OneWordTaken(t: Tree, w: string, b: seq<string>, stack: seq<Entry>, j: nat)
    requires j < |t.children| && CheckElement(w, t.children[j].element).Accepted? && Pick(t.children, w, 0) == Child(j)
    ensures Analyze(t, [w] + b, stack) == Analyze(t.children[j], b, stack + [EntryFor(w, t.children[j].element)])
  {
    hide EntryFor, CheckElement, Pick;
    assert ([w] + b)[1..] == b;
  }

  /** A word on which a child's check throws while all before it refuse ends the walk. */
  lemma ThrowingWordEndsWalk(t: Tree, a: seq<string>, w: string, b: seq<string>, stack: seq<Entry>, j: nat)
    requires var walk := Analyze(t, a, stack);
             && walk.Arrived? && j < |walk.node.children|
             && CheckElement(w, walk.node.children[j].element).Raised?
             && AllRefuse(walk.node.children[..j], w)
    ensures Analyze(t, a + [w] + b, stack) == Failed
  {
    hide Analyze, CheckElement, EntryFor;
    AnalyzeAppend(t, a, [w] + b, stack);
    assert a + [w] + b == a + ([w] + b);
    var walk := Analyze(t, a, stack);
    var children := walk.node.children;
    assert forall i | 0 <= i < j :: children[i] == children[..j][i];
    PickThrows(children, w, 0, j);
    OneWordThrows(walk.node, w, b, walk.stack);
  }

  lemma {:induction false} PickThrows(children: seq<Tree>, w: string, from: nat, j: nat)
    requires from <= j < |children| && CheckElement(w, children[j].element).Raised?
    requires forall i | from <= i < j :: CheckElement(w, children[i].element).Refused?
    ensures Pick(children, w, from) == Throw
    decreases j - from
  {
    hide CheckElement;
    if from < j {
      PickThrows(children, w, from + 1, j);
    }
  }

  lemma OneWordThrows(t: Tree, w: string, b: seq<string>, stack: seq<Entry>)
    requires Pick(t.children, w, 0) == Throw
    ensures Analyze(t, [w] + b, stack) == Failed
  {
    hide Pick;
  }

  /** A line with every occurrence of one word left out. */
  function WithoutWord(tokens: seq<string>, w: string): (r: seq<string>)
    ensures w !in r
    ensures forall x | x in tokens && x != w :: x in r
  {
    if tokens == [] then []
    else (if tokens[0] == w then [] else [tokens[0]]) + WithoutWord(tokens[1..], w)
  }

  predicate RefusedBelow(t: Tree, w: string) {
    AllRefuse(t.children, w) && forall j | 0 <= j < |t.children| :: RefusedBelow(t.children[j], w)
  }

  lemma {:induction false} InsertRefuses(t: Tree, es: seq<Element>, h: Handler, w: string)
    requires RefusedBelow(t, w) && forall i | 0 <= i < |es| :: CheckElement(w, es[i]).Refused?
    ensures RefusedBelow(Insert(t, es, h), w) && Insert(t, es, h).element == t.element
    decreases |es|
  {
    hide CheckElement;
    if es == [] {
      WordFits(w, NO_ELEMENT);
    } else {
      var k := Find(t.children, es[0]);
      InsertRefuses(if k < |t.children| then t.children[k] else Tree(es[0], None, []), es[1..], h, w);
    }
  }

  predicate CommandsRefuse(commands: seq<Command>, w: string) {
    forall c, i | 0 <= c < |commands| && 0 <= i < |commands[c].elements| ::
      CheckElement(w, commands[c].elements[i]).Refused?
  }

  lemma {:induction false} BuildRefuses(commands: seq<Command>, w: string)
    requires CommandsRefuse(commands, w)
    ensures RefusedBelow(Build(commands), w)
  {
    hide CheckElement;
    if commands != [] {
      var init, last := commands[..|commands| - 1], commands[|commands| - 1];
      assert CommandsRefuse(init, w);
      BuildRefuses(init, w);
      InsertRefuses(Build(init), last.elements, last.handler, w);
    }
  }

  lemma {:induction false} WordSkippedBelow(t: Tree, tokens: seq<string>, w: string, stack: seq<Entry>)
    requires RefusedBelow(t, w)
    ensures Analyze(t, tokens, stack) == Analyze(t, WithoutWord(tokens, w), stack)
    decreases |tokens|
  {
    hide Pick, CheckElement, EntryFor, AllRefuse;
    if tokens != [] {
      var rest := WithoutWord(tokens[1..], w);
      if tokens[0] == w {
        NothingPicked(t.children, w, 0);
        WordSkippedBelow(t, tokens[1..], w, stack);
        assert [] + rest == rest;
      } else {
        assert ([tokens[0]] + rest)[0] == tokens[0] && ([tokens[0]] + rest)[1..] == rest;
        match Pick(t.children, tokens[0], 0)
        case Throw =>
        case NoChild => WordSkippedBelow(t, tokens[1..], w, stack);
        case Child(k) =>
          WordSkippedBelow(t.children[k], tokens[1..], w, stack + [EntryFor(tokens[0], t.children[k].element)]);
      }
    }
  }

  /** A word that fits no element of any command changes nothing, wherever it stands. */
  lemma UnknownWordIsSkipped(commands: seq<Command>, tokens: seq<string>, w: string)
    requires CommandsRefuse(commands, w)
    ensures Analyze(Build(commands), tokens, []) == Analyze(Build(commands), WithoutWord(tokens, w), [])
  {
    BuildRefuses(commands, w);
    WordSkippedBelow(Build(commands), tokens, w, []);
  }

  // ---- The registered commands ----------------------------------------------------------------

  /** Exactly these words fit the registered patterns. */
  lemma ShippedWordsExactly(words: seq<string>)
    ensures Instantiates(words, SHIPPED[0].elements) <==> words == ["version"]
    ensures Instantiates(words, SHIPPED[1].elements) <==> words == ["ip", "show"]
    ensures Instantiates(words, SHIPPED[2].elements) <==> words == ["ip", "address", "show"]
    ensures Instantiates(words, SHIPPED[3].elements) <==>
              |words| == 3 && words[0] == "ip" && words[1] == "address" && Validates(words[2], 0)
    ensures Instantiates(words, SHIPPED[4].elements) <==>
              && |words| == 5 && words[0] == "dhcp" && words[1] == "pool" && words[2] == "create"
              && Validates(words[3], 0) && Validates(words[4], 0)
    ensures Instantiates(words, SHIPPED[5].elements) <==> words == ["dhcp", "pool", "list"]
  {
    hide Validates;
    TwoWordsExactly(words);
    ThreeWordsExactly(words);
    CreateExactly(words);
  }

  lemma TwoWordsExactly(words: seq<string>)
    ensures Instantiates(words, SHIPPED[0].elements) <==> words == ["version"]
    ensures Instantiates(words, SHIPPED[1].elements) <==> words == ["ip", "show"]
  {
  }

  lemma ThreeWordsExactly(words: seq<string>)
    ensures Instantiates(words, SHIPPED[2].elements) <==> words == ["ip", "address", "show"]
    ensures Instantiates(words, SHIPPED[3].elements) <==>
              |words| == 3 && words[0] == "ip" && words[1] == "address" && Validates(words[2], 0)
    ensures Instantiates(words, SHIPPED[5].elements) <==> words == ["dhcp", "pool", "list"]
  {
    hide Validates;
  }

  lemma CreateExactly(words: seq<string>)
    ensures Instantiates(words, SHIPPED[4].elements) <==>
              && |words| == 5 && words[0] == "dhcp" && words[1] == "pool" && words[2] == "create"
              && Validates(words[3], 0) && Validates(words[4], 0)
  {
    hide Validates;
  }

  lemma EmptyWordIsRefused()
    ensures CommandsRefuse(SHIPPED, "")
  {
  }

  /** ENTER after this line runs the handler with this number, which finds this stack. */
  predicate Runs(line: seq<string>, handler: nat, stack: seq<Entry>) {
    var walk := Analyze(Build(SHIPPED), line, []);
    walk.Arrived? && walk.stack == stack && Enter(walk.node) == Some(handler)
  }

  lemma LineRuns(line: seq<string>, at: nat, words: seq<string>)
    requires at < 6 && words == WithoutWord(line, "") && Instantiates(words, SHIPPED[at].elements)
    ensures Runs(line, at, Entries(words, SHIPPED[at].elements))
  {
    hide CheckElement, Build, Analyze, Enter, Instantiates, CommandsRefuse, WithoutWord, Entries;
    EmptyWordIsRefused();
    UnknownWordIsSkipped(SHIPPED, line, "");
    ShippedDispatch(at, words);
    assert SHIPPED[at].handler == at;
  }

  lemma WordEntry(w: string)
    ensures CheckElement(w, WordElement(w)).Accepted? && EntryFor(w, WordElement(w)) == Word(w)
  {
  }

  lemma AddressEntry(q: Quad)
    ensures CheckElement(Print(q), IPV4).Accepted? && EntryFor(Print(q), IPV4) == Ipv4(q)
  {
    PrintThenParse(q);
    hide Validates, CliOctets, Print;
  }

  /** The lines of the registered commands, with empty words before, between and after the
      others: which handler they run, and what it finds. */
  lemma ShippedLines(line: seq<string>, q: Quad, r: Quad)
    ensures var words := WithoutWord(line, "");
            && (words == ["version"] ==> Runs(line, 0, [Word("version")]))
            && (words == ["ip", "show"] ==> Runs(line, 1, [Word("ip"), Word("show")]))
            && (words == ["ip", "address", "show"] ==> Runs(line, 2, [Word("ip"), Word("address"), Word("show")]))
            && (words == ["ip", "address", Print(q)] ==> Runs(line, 3, [Word("ip"), Word("address"), Ipv4(q)]))
            && (words == ["dhcp", "pool", "create", Print(q), Print(r)] ==>
                  Runs(line, 4, [Word("dhcp"), Word("pool"), Word("create"), Ipv4(q), Ipv4(r)]))
            && (words == ["dhcp", "pool", "list"] ==> Runs(line, 5, [Word("dhcp"), Word("pool"), Word("list")]))
  {
    hide WithoutWord, Runs;
    if WithoutWord(line, "") == ["version"] {
      VersionRuns(line);
    }
    if WithoutWord(line, "") == ["ip", "show"] {
      IpShowRuns(line);
    }
    if WithoutWord(line, "") == ["ip", "address", "show"] {
      AddressShowRuns(line);
    }
    if WithoutWord(line, "") == ["ip", "address", Print(q)] {
      AddressRuns(line, q);
    }
    if WithoutWord(line, "") == ["dhcp", "pool", "create", Print(q), Print(r)] {
      CreateRuns(line, q, r);
    }
    if WithoutWord(line, "") == ["dhcp", "pool", "list"] {
      ListRuns(line);
    }
  }

  lemma VersionRuns(line: seq<string>)
    requires WithoutWord(line, "") == ["version"]
    ensures Runs(line, 0, [Word("version")])
  {
    hide WithoutWord, Runs, CheckElement, EntryFor;
    var words, es := ["version"], SHIPPED[0].elements;
    WordEntry("version");
    assert Instantiates(words, es);
    LineRuns(line, 0, words);
    assert Entries(words, es) == [Word("version")];
  }

  lemma IpShowRuns(line: seq<string>)
    requires WithoutWord(line, "") == ["ip", "show"]
    ensures Runs(line, 1, [Word("ip"), Word("show")])
  {
    hide WithoutWord, Runs, CheckElement, EntryFor;
    var words, es := ["ip", "show"], SHIPPED[1].elements;
    WordEntry("ip");
    WordEntry("show");
    assert Instantiates(words, es);
    LineRuns(line, 1, words);
    assert Entries(words, es) == [Word("ip"), Word("show")];
  }

  lemma AddressShowRuns(line: seq<string>)
    requires WithoutWord(line, "") == ["ip", "address", "show"]
    ensures Runs(line, 2, [Word("ip"), Word("address"), Word("show")])
  {
    hide WithoutWord, Runs, CheckElement, EntryFor;
    var words, es := ["ip", "address", "show"], SHIPPED[2].elements;
    WordEntry("ip");
    WordEntry("address");
    WordEntry("show");
    assert Instantiates(words, es);
    LineRuns(line, 2, words);
    assert Entries(words, es) == [Word("ip"), Word("address"), Word("show")];
  }

  lemma AddressRuns(line: seq<string>, q: Quad)
    requires WithoutWord(line, "") == ["ip", "address", Print(q)]
    ensures Runs(line, 3, [Word("ip"), Word("address"), Ipv4(q)])
  {
    hide WithoutWord, Runs, CheckElement, EntryFor;
    var words, es := ["ip", "address", Print(q)], SHIPPED[3].elements;
    WordEntry("ip");
    WordEntry("address");
    AddressEntry(q);
    assert Instantiates(words, es);
    LineRuns(line, 3, words);
    assert Entries(words, es) == [Word("ip"), Word("address"), Ipv4(q)];
  }

  lemma CreateRuns(line: seq<string>, q: Quad, r: Quad)
    requires WithoutWord(line, "") == ["dhcp", "pool", "create", Print(q), Print(r)]
    ensures Runs(line, 4, [Word("dhcp"), Word("pool"), Word("create"), Ipv4(q), Ipv4(r)])
  {
    hide WithoutWord, Runs, CheckElement, EntryFor;
    var words, es := ["dhcp", "pool", "create", Print(q), Print(r)], SHIPPED[4].elements;
    WordEntry("dhcp");
    WordEntry("pool");
    WordEntry("create");
    AddressEntry(q);
    AddressEntry(r);
    assert Instantiates(words, es);
    LineRuns(line, 4, words);
    assert Entries(words, es) == [Word("dhcp"), Word("pool"), Word("create"), Ipv4(q), Ipv4(r)];
  }

  lemma ListRuns(line: seq<string>)
    requires WithoutWord(line, "") == ["dhcp", "pool", "list"]
    ensures Runs(line, 5, [Word("dhcp"), Word("pool"), Word("list")])
  {
    hide WithoutWord, Runs, CheckElement, EntryFor;
    var words, es := ["dhcp", "pool", "list"], SHIPPED[5].elements;
    WordEntry("dhcp");
    WordEntry("pool");
    WordEntry("list");
    assert Instantiates(words, es);
    LineRuns(line, 5, words);
    assert Entries(words, es) == [Word("dhcp"), Word("pool"), Word("list")];
  }
}
