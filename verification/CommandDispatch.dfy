/** From the words of a command line to a handler: check_command_element of
    cli/src/Command.cpp, analyze_command and the ENTER key of cli/src/main.cpp. */
module CommandDispatch {
  import opened Wrappers
  import opened Words
  import opened AddressText
  import opened CommandTrees

  // ---- One word against one element -----------------------------------------------------

  datatype Verdict = Accepted | Refused | Raised

  predicate IsAlpha(c: char) {
    'a' <= c <= 'z' || 'A' <= c <= 'Z'
  }

  function SkipAlpha(u: string): string {
    if u != "" && IsAlpha(u[0]) then SkipAlpha(u[1..]) else u
  }

  predicate IsQuoted(u: string) {
    First(u) == '"' && First(SkipAlpha(Tail(u))) == '"'
  }

  function CheckElement(token: string, e: Element): Verdict {
    var ok :=
      match e.kind
      case NoElement => false
      case FixedWord => e.fixedValue == token
      case AnyString => IsQuoted(token)
      case Name => true
      case IpV4Address => Validates(token, 0)
      case IpV4SubnetMask => Number(token) <= 32
      case IpV6Address => true
      case IpV6SubnetMask => true;
    if e.kind.IpV4SubnetMask? && !IsDigit(First(token)) then Raised
    else if ok then Accepted else Refused
  }

  method ParseString(str: string) returns (ok: bool)
    ensures ok == IsQuoted(str)
  {
    var wrap := new Cursor(str);
    if wrap.ch != '"' {
      return false;
    }
    wrap.GetNext();
    while IsAlpha(wrap.ch)
      invariant wrap.Valid() && fresh(wrap) && SkipAlpha(wrap.Rest()) == SkipAlpha(Tail(str))
      decreases |wrap.Rest()|
    {
      wrap.GetNext();
    }
    return wrap.ch == '"';
  }

  method CheckCommandElement(token: string, e: Element) returns (v: Verdict)
    ensures v == CheckElement(token, e)
  {
    match e.kind
    case NoElement => return Refused;
    case FixedWord => return if e.fixedValue == token then Accepted else Refused;
    case AnyString =>
      var ok := ParseString(token);
      return if ok then Accepted else Refused;
    case IpV4Address =>
      var ok := ParseIpv4Address(token);
      return if ok then Accepted else Refused;
    case IpV4SubnetMask =>
      var wrap := new Cursor(token);
      if !IsDigit(wrap.ch) {
        return Raised;
      }
      var mask := ReadDigits(wrap, false);
      return if mask <= 32 then Accepted else Refused;
    case _ => return Accepted;
  }

  // ---- The walk -----------------------------------------------------------------------------

  /** A stack entry; the IPv6 and mask constructors do not look at the text. */
  datatype Entry = Word(word: string) | Ipv4(octets: seq<byte>) | Ipv6 | Mask4 | Mask6

  /** The value pushed for an accepted word: the address constructor never throws there. */
  function EntryFor(token: string, e: Element): (entry: Entry)
    requires CheckElement(token, e).Accepted?
    ensures entry.Ipv4? <==> e.kind.IpV4Address?
    ensures entry.Ipv4? ==> |entry.octets| == 4
  {
    match e.kind
    case IpV4Address => TextEndToEnd(token); Ipv4(CliOctets(token, 0).value)
    case IpV6Address => Ipv6
    case IpV4SubnetMask => Mask4
    case IpV6SubnetMask => Mask6
    case _ => Word(token)
  }

  datatype Choice = Child(k: nat) | NoChild | Throw

  /** The first child, from `k` on, that accepts the word. */
  function Pick(children: seq<Tree>, token: string, k: nat): (c: Choice)
    requires k <= |children|
    ensures c.Child? ==> k <= c.k < |children| && CheckElement(token, children[c.k].element).Accepted?
    decreases |children| - k
  {
    if k == |children| then NoChild
    else
      match CheckElement(token, children[k].element)
      case Accepted => Child(k)
      case Raised => Throw
      case Refused => Pick(children, token, k + 1)
  }

  datatype Walk = Arrived(node: Tree, stack: seq<Entry>) | Failed

  /** A word that no child accepts is skipped. */
  function Analyze(t: Tree, tokens: seq<string>, stack: seq<Entry>): Walk
    decreases |tokens|
  {
    if tokens == [] then Arrived(t, stack)
    else
      match Pick(t.children, tokens[0], 0)
      case Throw => Failed
      case NoChild => Analyze(t, tokens[1..], stack)
      case Child(k) => Analyze(t.children[k], tokens[1..], stack + [EntryFor(tokens[0], t.children[k].element)])
  }

  method AnalyzeCommand(parts: seq<string>, root: Tree) returns (walk: Walk)
    ensures walk == Analyze(root, parts, [])
  {
    var current, stack: seq<Entry> := root, [];
    assert parts[0..] == parts;
    for i := 0 to |parts|
      invariant Analyze(root, parts, []) == Analyze(current, parts[i..], stack)
    {
      var part := parts[i];
      assert parts[i..][1..] == parts[i + 1..];
      var k := 0;
      var done := false;
      while k < |current.children| && !done
        invariant k <= |current.children|
        invariant !done ==> Pick(current.children, part, 0) == Pick(current.children, part, k)
        invariant done ==> Pick(current.children, part, 0) == Child(k)
        decreases |current.children| - k, !done
      {
        var verdict := CheckCommandElement(part, current.children[k].element);
        match verdict
        case Raised => return Failed;
        case Accepted => done := true;
        case Refused => k := k + 1;
      }
      if done {
        stack := stack + [EntryFor(part, current.children[k].element)];
        current := current.children[k];
      }
    }
    assert parts[|parts|..] == [];
    return Arrived(current, stack);
  }

  /** ENTER runs a handler when the node has one child and that is a handler. */
  function Enter(node: Tree): Option<Handler> {
    if |node.children| == 1 then node.children[0].handler else None
  }

  // ---- Reaching a command's node ---------------------------------------------------------------

  predicate Instantiates(tokens: seq<string>, es: seq<Element>) {
    |tokens| == |es| && forall i | 0 <= i < |es| :: CheckElement(tokens[i], es[i]).Accepted?
  }

  function Entries(tokens: seq<string>, es: seq<Element>): (r: seq<Entry>)
    requires Instantiates(tokens, es)
    ensures |r| == |es|
    ensures forall i | 0 <= i < |es| :: r[i] == EntryFor(tokens[i], es[i])
  {
    seq(|es|, i requires 0 <= i < |es| => EntryFor(tokens[i], es[i]))
  }

  /** The node whose path from `t` spells `es`. */
  function NodeAt(t: Tree, es: seq<Element>): Option<Tree>
    decreases |es|
  {
    if es == [] then Some(t)
    else
      var k := Find(t.children, es[0]);
      if k < |t.children| then NodeAt(t.children[k], es[1..]) else None
  }

  /** At every node on the way no earlier child accepts the word. */
  predicate NoEarlierSibling(t: Tree, tokens: seq<string>, es: seq<Element>)
    requires |tokens| == |es|
    decreases |es|
  {
    es == []
    || var k := Find(t.children, es[0]);
       && k < |t.children|
       && (forall j | 0 <= j < k :: CheckElement(tokens[0], t.children[j].element).Refused?)
       && NoEarlierSibling(t.children[k], tokens[1..], es[1..])
  }

  lemma {:induction false} PickIs(children: seq<Tree>, token: string, from: nat, k: nat)
    requires from <= k < |children| && CheckElement(token, children[k].element).Accepted?
    requires forall j | from <= j < k :: CheckElement(token, children[j].element).Refused?
    ensures Pick(children, token, from) == Child(k)
    decreases k - from
  {
    hide CheckElement;
    if from < k {
      PickIs(children, token, from + 1, k);
    }
  }

  lemma FirstWord(tokens: seq<string>, es: seq<Element>)
    requires Instantiates(tokens, es) && es != []
    ensures CheckElement(tokens[0], es[0]).Accepted? && Instantiates(tokens[1..], es[1..])
    ensures Entries(tokens, es) == [EntryFor(tokens[0], es[0])] + Entries(tokens[1..], es[1..])
  {
    hide CheckElement, EntryFor;
  }

  lemma {:induction false} WalkFollows(t: Tree, tokens: seq<string>, es: seq<Element>, stack: seq<Entry>)
    requires Instantiates(tokens, es) && NoEarlierSibling(t, tokens, es)
    ensures NodeAt(t, es).Some?
    ensures Analyze(t, tokens, stack) == Arrived(NodeAt(t, es).value, stack + Entries(tokens, es))
    decreases |es|
  {
    hide CheckElement, EntryFor, Entries, Instantiates, Find, Pick;
    assert |tokens| == |es| by { SameLength(tokens, es); }
    if es == [] {
      assert stack + Entries(tokens, es) == stack;
    } else {
      var k := Find(t.children, es[0]);
      FirstWord(tokens, es);
      PickIs(t.children, tokens[0], 0, k);
      var entry := EntryFor(tokens[0], es[0]);
      WalkFollows(t.children[k], tokens[1..], es[1..], stack + [entry]);
      assert stack + [entry] + Entries(tokens[1..], es[1..]) == stack + ([entry] + Entries(tokens[1..], es[1..]));
    }
  }

  lemma SameLength(tokens: seq<string>, es: seq<Element>)
    requires Instantiates(tokens, es)
    ensures |tokens| == |es|
  {
  }

  // ---- The same in terms of the list of commands -------------------------------------------------

  /** Distinct siblings: the node found first is the only one that counts. */
  lemma {:induction false} BelowIsFound(children: seq<Tree>, q: seq<Element>, want: Option<Handler>)
    requires q != [] && !q[0].kind.NoElement?
    requires forall i | 0 <= i < |children| :: WellFormedChild(children[i])
    requires forall i, j | 0 <= i < j < |children| ::
               children[i].handler.None? && children[j].handler.None? ==> children[i].element != children[j].element
    ensures var k := Find(children, q[0]);
            Below(children, q, want) == if k < |children| then Count(children[k], q[1..], want) else 0
  {
    hide Count, WellFormed;
    if children != [] {
      var c := children[0];
      assert WellFormedChild(c);
      BelowIsFound(children[1..], q, want);
      if c.element == q[0] {
        forall i | 0 <= i < |children| - 1 ensures children[1..][i].element != q[0] {
          assert WellFormedChild(children[i + 1]);
        }
      }
    }
  }

  /** Counting from the root is counting at the node that the path reaches. */
  lemma {:induction false} CountAtNode(t: Tree, q: seq<Element>, want: Option<Handler>)
    requires WellFormed(t) && RealElements(q)
    ensures Count(t, q, want) == if NodeAt(t, q).Some? then Leaves(NodeAt(t, q).value.children, want) else 0
    ensures NodeAt(t, q).Some? ==> WellFormed(NodeAt(t, q).value)
    decreases |q|
  {
    if q != [] {
      var k := Find(t.children, q[0]);
      BelowIsFound(t.children, q, want);
      FindIsNode(t, q[0]);
      if k < |t.children| {
        CountAtNode(t.children[k], q[1..], want);
      }
    }
  }

  /** Every child has a handler on or below it. */
  lemma {:induction false} LeavesAtLeast(children: seq<Tree>)
    requires forall i | 0 <= i < |children| :: WellFormedChild(children[i])
    ensures Leaves(children, None) >= |children|
    decreases children
  {
    if children != [] {
      assert WellFormedChild(children[0]);
      if children[0].handler.None? {
        assert WellFormed(children[0]);
        LeavesAtLeast(children[0].children);
      }
      LeavesAtLeast(children[1..]);
    }
  }

  lemma {:induction false} LeavesSome(children: seq<Tree>, h: Handler)
    ensures Leaves(children, Some(h)) <= Leaves(children, None)
    ensures Leaves(children, Some(h)) > 0 ==> exists i :: 0 <= i < |children| && children[i].handler == Some(h)
  {
    if children != [] {
      LeavesSome(children[1..], h);
      if Leaves(children[1..], Some(h)) > 0 {
        var i :| 0 <= i < |children| - 1 && children[1..][i].handler == Some(h);
        assert children[i + 1].handler == Some(h);
      }
    }
  }

  /** The commands whose pattern begins with `es`. */
  function PrefixCount(commands: seq<Command>, es: seq<Element>): nat {
    Hits(commands, es, None)
  }

  lemma NodeOfCommand(commands: seq<Command>, c: Command)
    requires RealCommands(commands) && c in commands
    ensures NodeAt(Build(commands), c.elements).Some?
    ensures var n := NodeAt(Build(commands), c.elements).value;
            && WellFormed(n)
            && Leaves(n.children, None) == PrefixCount(commands, c.elements)
            && Leaves(n.children, Some(c.handler)) > 0
  {
    var es := c.elements;
    assert multiset(commands)[c] > 0;
    TrieRefinesList(commands, es, c.handler);
    BuildCounts(commands, es, None);
    CountAtNode(Build(commands), es, Some(c.handler));
    CountAtNode(Build(commands), es, None);
  }

  /** At the node of a registered command ENTER runs its handler exactly when no other
      registered command has its pattern as a prefix or equal, and otherwise runs nothing. */
  lemma EnterExactly(commands: seq<Command>, c: Command)
    requires RealCommands(commands) && c in commands
    ensures NodeAt(Build(commands), c.elements).Some?
    ensures var n := NodeAt(Build(commands), c.elements).value;
            && (Enter(n) == Some(c.handler) <==> PrefixCount(commands, c.elements) == 1)
            && (Enter(n) == None <==> PrefixCount(commands, c.elements) > 1)
  {
    NodeOfCommand(commands, c);
    var n := NodeAt(Build(commands), c.elements).value;
    LeavesSome(n.children, c.handler);
    var i :| 0 <= i < |n.children| && n.children[i].handler == Some(c.handler);
    forall j | 0 <= j < |n.children| ensures WellFormedChild(n.children[j]) {
    }
    LeavesAtLeast(n.children);
    if |n.children| == 1 {
      assert n.children == [n.children[0]];
      LeavesOne(n.children[0], None);
    }
  }

  lemma {:induction false} HitsNone(commands: seq<Command>, q: seq<Element>)
    requires forall i | 0 <= i < |commands| :: !(q <= commands[i].elements)
    ensures PrefixCount(commands, q) == 0
  {
    if commands != [] {
      HitsNone(commands[..|commands| - 1], q);
    }
  }

  lemma {:induction false} HitsOnce(commands: seq<Command>, k: nat, q: seq<Element>)
    requires k < |commands|
    requires forall i | 0 <= i < |commands| :: q <= commands[i].elements <==> i == k
    ensures PrefixCount(commands, q) == 1
  {
    var n := |commands| - 1;
    if k < n {
      HitsOnce(commands[..n], k, q);
    } else {
      HitsNone(commands[..n], q);
    }
  }

  // ---- Siblings stand in the order of registration -----------------------------------------------

  /** The first command whose pattern begins with `p`, or the number of commands. */
  function FirstWith(commands: seq<Command>, p: seq<Element>): (f: nat)
    ensures f <= |commands|
    ensures f < |commands| ==> p <= commands[f].elements
    ensures forall c | 0 <= c < f :: !(p <= commands[c].elements)
  {
    if commands == [] then 0
    else
      var n := |commands| - 1;
      var f := FirstWith(commands[..n], p);
      assert forall c | 0 <= c < n :: commands[..n][c] == commands[c];
      if f < n || p <= commands[n].elements then f else n + 1
  }

  /** The children where the path that spells `q` ends. */
  function Kids(t: Tree, q: seq<Element>): seq<Tree> {
    match NodeAt(t, q)
    case Some(node) => node.children
    case None => []
  }

  lemma {:induction false} FindAppend(children: seq<Tree>, c: Tree, e: Element)
    ensures var k := Find(children, e);
            Find(children + [c], e) == if k < |children| || c.element == e then k else k + 1
  {
    var k := Find(children, e);
    FindIs(children + [c], e, if k < |children| || c.element == e then k else k + 1);
  }

  lemma FindUpdate(children: seq<Tree>, i: nat, c: Tree, e: Element)
    requires i < |children| && children[i].element == c.element
    ensures Find(children[i := c], e) == Find(children, e)
  {
    FindIs(children[i := c], e, Find(children, e));
  }

  lemma KidsBelow(t: Tree, q: seq<Element>)
    requires q != []
    ensures var k := Find(t.children, q[0]);
            Kids(t, q) == if k < |t.children| then Kids(t.children[k], q[1..]) else []
  {
  }

  /** Adding a command changes the children at the prefixes of its pattern only. */
  lemma {:induction false} KidsAfter(t: Tree, es: seq<Element>, h: Handler, q: seq<Element>)
    requires RealElements(q)
    ensures Kids(Insert(t, es, h), q) ==
            if q <= es then Insert(Tree(NO_ELEMENT, None, Kids(t, q)), es[|q|..], h).children else Kids(t, q)
    decreases |q|
  {
    if q == [] {
      assert es[0..] == es;
    } else {
      hide Kids, Find;
      KidsBelow(t, q);
      KidsBelow(Insert(t, es, h), q);
      if es == [] {
        FindAppend(t.children, HandlerNode(h), q[0]);
      } else {
        hide Insert;
        InsertFinds(t, es, h, q[0]);
        PrefixTail(q, es);
        if q[0] == es[0] {
          KidsAfter(FoundOrNew(t, es[0]), es[1..], h, q[1..]);
          NoKids(es[0], q[1..]);
          assert q <= es ==> es[1..][|q[1..]|..] == es[|q|..];
        }
      }
    }
  }

  function FoundOrNew(t: Tree, e: Element): Tree {
    var k := Find(t.children, e);
    if k < |t.children| then t.children[k] else Tree(e, None, [])
  }

  /** One step of an insertion, as a search for `e` sees it. */
  lemma InsertFinds(t: Tree, es: seq<Element>, h: Handler, e: Element)
    requires es != []
    ensures var k, children := Find(t.children, e), Insert(t, es, h).children;
            var j := Find(children, e);
            if e == es[0] then j < |children| && children[j] == Insert(FoundOrNew(t, e), es[1..], h)
            else if k < |t.children| then j < |children| && children[j] == t.children[k]
            else j == |children|
  {
    var i, after := Find(t.children, es[0]), Insert(FoundOrNew(t, es[0]), es[1..], h);
    if i < |t.children| {
      FindUpdate(t.children, i, after, e);
    } else {
      FindAppend(t.children, after, e);
    }
  }

  lemma NoKids(e: Element, q: seq<Element>)
    ensures Kids(Tree(e, None, []), q) == []
  {
  }

  /** The first command in whose pattern `e` follows `q`. */
  function Introduces(commands: seq<Command>, q: seq<Element>, e: Element): nat {
    FirstWith(commands, q + [e])
  }

  /** The child elements below `q` are the elements that follow `q` in some pattern, in the
      order in which the commands introduced them. */
  ghost predicate InOrder(commands: seq<Command>, q: seq<Element>, kids: seq<Tree>) {
    && (forall j | 0 <= j < |kids| && kids[j].handler.None? ::
          Introduces(commands, q, kids[j].element) < |commands|)
    && (forall j, k | 0 <= j < k < |kids| && kids[j].handler.None? && kids[k].handler.None? ::
          Introduces(commands, q, kids[j].element) < Introduces(commands, q, kids[k].element))
    && (forall e | Introduces(commands, q, e) < |commands| :: Find(kids, e) < |kids|)
    && (forall j | 0 <= j < |kids| && kids[j].handler.Some? :: kids[j].element == NO_ELEMENT)
  }

  lemma {:induction false} SiblingsInOrder(commands: seq<Command>, q: seq<Element>)
    requires RealCommands(commands) && RealElements(q)
    ensures InOrder(commands, q, Kids(Build(commands), q))
  {
    hide Introduces, Find, Insert, NodeAt;
    if commands == [] {
      NoKids(NO_ELEMENT, q);
    } else {
      var init, last := commands[..|commands| - 1], commands[|commands| - 1];
      SiblingsInOrder(init, q);
      KidsAfter(Build(init), last.elements, last.handler, q);
      OneMoreInOrder(init, last, q, Kids(Build(init), q));
      assert init + [last] == commands;
    }
  }

  lemma {:induction false} OneMoreInOrder(init: seq<Command>, last: Command, q: seq<Element>, kids: seq<Tree>)
    requires InOrder(init, q, kids)
    ensures InOrder(init + [last], q,
                    if q <= last.elements
                    then Insert(Tree(NO_ELEMENT, None, kids), last.elements[|q|..], last.handler).children
                    else kids)
  {
    hide InOrder, Find, FirstWith, Introduces;
    var es := last.elements;
    if !(q <= es) || |q| == |es| {
      forall e ensures !(q + [e] <= es) {
        FollowsAt(q, es, e);
      }
      if q <= es {
        AppendedInOrder(init, last, q, kids, HandlerNode(last.handler));
      } else {
        SameInOrder(init, last, q, kids);
      }
    } else {
      var rest := es[|q|..];
      var k := Find(kids, rest[0]);
      forall e ensures q + [e] <= es <==> e == rest[0] {
        FollowsAt(q, es, e);
      }
      if k < |kids| {
        UpdatedInOrder(init, last, q, kids, k, Insert(kids[k], rest[1..], last.handler));
      } else {
        AppendedInOrder(init, last, q, kids, Insert(Tree(rest[0], None, []), rest[1..], last.handler));
      }
    }
  }

  lemma FollowsAt(q: seq<Element>, es: seq<Element>, e: Element)
    ensures q + [e] <= es <==> q <= es && |q| < |es| && e == es[|q|]
  {
    if q + [e] <= es {
      assert q == (q + [e])[..|q|] == es[..|q|] && (q + [e])[|q|] == es[|q|];
    }
  }

  lemma OneMoreCommand(init: seq<Command>, last: Command, q: seq<Element>, e: Element)
    ensures var f := Introduces(init, q, e);
            Introduces(init + [last], q, e) ==
            if f < |init| || q + [e] <= last.elements then f else |init| + 1
    ensures Introduces(init, q, e) <= |init|
  {
    assert (init + [last])[..|init|] == init;
  }

  lemma {:induction false} SameInOrder(init: seq<Command>, last: Command, q: seq<Element>, kids: seq<Tree>)
    requires InOrder(init, q, kids)
    requires forall e :: !(q + [e] <= last.elements)
    ensures InOrder(init + [last], q, kids)
  {
    hide Introduces, Find;
    forall e ensures Introduces(init + [last], q, e) < |init| + 1 ==> Introduces(init, q, e) < |init|
      ensures Introduces(init, q, e) < |init| ==> Introduces(init + [last], q, e) == Introduces(init, q, e)
    {
      OneMoreCommand(init, last, q, e);
    }
  }

  lemma SameShapeInOrder(commands: seq<Command>, q: seq<Element>, kids: seq<Tree>, same: seq<Tree>)
    requires InOrder(commands, q, kids) && |same| == |kids|
    requires forall j | 0 <= j < |kids| :: same[j].element == kids[j].element && same[j].handler == kids[j].handler
    requires forall e :: Find(same, e) == Find(kids, e)
    ensures InOrder(commands, q, same)
  {
    hide Introduces, Find;
  }

  lemma {:induction false} UpdatedInOrder(
    init: seq<Command>, last: Command, q: seq<Element>, kids: seq<Tree>, k: nat, c: Tree)
    requires InOrder(init, q, kids) && k < |kids| && k == Find(kids, c.element)
    requires c.handler == kids[k].handler
    requires forall e :: q + [e] <= last.elements <==> e == c.element
    ensures InOrder(init + [last], q, kids[k := c])
  {
    hide Introduces, Find;
    var commands := init + [last];
    forall e
      ensures Introduces(commands, q, e) == if Introduces(init, q, e) < |init| || e == c.element
                                            then Introduces(init, q, e) else |init| + 1
      ensures Introduces(init, q, e) <= |init| && Find(kids[k := c], e) == Find(kids, e)
    {
      OneMoreCommand(init, last, q, e);
      FindUpdate(kids, k, c, e);
    }
    assert InOrder(commands, q, kids);
    hide InOrder;
    SameShapeInOrder(commands, q, kids, kids[k := c]);
  }

  lemma {:induction false} AppendedInOrder(init: seq<Command>, last: Command, q: seq<Element>, kids: seq<Tree>, c: Tree)
    requires InOrder(init, q, kids)
    requires c.handler.Some? ==> c.element == NO_ELEMENT
    requires c.handler.None? ==> Find(kids, c.element) == |kids|
    requires forall e :: q + [e] <= last.elements <==> c.handler.None? && e == c.element
    ensures InOrder(init + [last], q, kids + [c])
  {
    hide Introduces, Find;
    var commands, more := init + [last], kids + [c];
    forall e
      ensures Introduces(commands, q, e) == if Introduces(init, q, e) < |init| || (c.handler.None? && e == c.element)
                                            then Introduces(init, q, e) else |init| + 1
      ensures Introduces(init, q, e) <= |init|
    {
      OneMoreCommand(init, last, q, e);
    }
    forall e | Introduces(commands, q, e) < |commands| ensures Find(more, e) < |more| {
      FindAppend(kids, c, e);
    }
    assert c.handler.None? ==> Introduces(init, q, c.element) == |init|;
    assert forall j | 0 <= j < |kids| :: more[j] == kids[j];
  }

  // ---- Which lines are walked along a pattern ---------------------------------------------------------

  /** Where a command registered before the first one that shares the next element leaves the
      pattern `es`, it does so with an element that refuses the word given there. */
  predicate Unambiguous(commands: seq<Command>, tokens: seq<string>, es: seq<Element>)
    requires |tokens| == |es|
  {
    forall i | 0 <= i < |es| :: ClearAt(commands, tokens[i], es, i)
  }

  predicate ClearAt(commands: seq<Command>, token: string, es: seq<Element>, i: nat)
    requires i < |es|
  {
    forall c | 0 <= c < FirstWith(commands, es[..i + 1]) && LeavesAt(commands[c].elements, es, i) ::
      CheckElement(token, commands[c].elements[i]).Refused?
  }

  predicate LeavesAt(ds: seq<Element>, es: seq<Element>, i: nat)
    requires i < |es|
  {
    i < |ds| && ds[..i] == es[..i] && ds[i] != es[i]
  }

  predicate ClearChild(children: seq<Tree>, token: string, e: Element) {
    var k := Find(children, e);
    k < |children| && forall j | 0 <= j < k :: CheckElement(token, children[j].element).Refused?
  }

  predicate ClearLevel(t: Tree, tokens: seq<string>, es: seq<Element>, i: nat)
    requires |tokens| == |es| && i < |es|
  {
    ClearChild(Kids(t, es[..i]), tokens[i], es[i])
  }

  lemma LevelBelow(t: Tree, tokens: seq<string>, es: seq<Element>, i: nat)
    requires |tokens| == |es| && i + 1 < |es| && Find(t.children, es[0]) < |t.children|
    ensures ClearLevel(t, tokens, es, i + 1) <==>
            ClearLevel(t.children[Find(t.children, es[0])], tokens[1..], es[1..], i)
  {
    hide ClearChild, Find;
    assert es[..i + 1][1..] == es[1..][..i];
  }

  lemma {:induction false} ByLevel(t: Tree, tokens: seq<string>, es: seq<Element>)
    requires |tokens| == |es|
    ensures NoEarlierSibling(t, tokens, es) <==> forall i | 0 <= i < |es| :: ClearLevel(t, tokens, es, i)
    decreases |es|
  {
    if es != [] {
      var k := Find(t.children, es[0]);
      hide CheckElement, Find;
      assert ClearLevel(t, tokens, es, 0) <==> ClearChild(t.children, tokens[0], es[0]);
      hide ClearLevel;
      if ClearChild(t.children, tokens[0], es[0]) {
        ByLevel(t.children[k], tokens[1..], es[1..]);
        forall i | 0 <= i < |es| - 1
          ensures ClearLevel(t, tokens, es, i + 1) <==> ClearLevel(t.children[k], tokens[1..], es[1..], i)
        {
          LevelBelow(t, tokens, es, i);
        }
        assert forall i | 1 <= i < |es| :: ClearLevel(t, tokens, es, i)
                                           <==> ClearLevel(t.children[k], tokens[1..], es[1..], i - 1);
      }
    }
  }

  /** One level: the children before the one of `es[i]` are the elements introduced by the
      commands registered before it. */
  lemma {:induction false} LevelExactly(commands: seq<Command>, at: nat, token: string, i: nat)
    requires at < |commands| && RealCommands(commands) && i < |commands[at].elements|
    ensures var es := commands[at].elements;
            ClearChild(Kids(Build(commands), es[..i]), token, es[i]) <==> ClearAt(commands, token, es, i)
  {
    hide CheckElement, Find, FirstWith, Build, Kids;
    var es := commands[at].elements;
    var q := es[..i];
    var kids := Kids(Build(commands), q);
    SiblingsInOrder(commands, q);
    assert q + [es[i]] == es[..i + 1];
    var first, k := FirstWith(commands, q + [es[i]]), Find(kids, es[i]);
    assert first <= at && k < |kids|;
    if ClearAt(commands, token, es, i) {
      forall j | 0 <= j < k ensures CheckElement(token, kids[j].element).Refused? {
        EarlierChildRefuses(commands, token, es, i, kids, j);
      }
    }
    if ClearChild(kids, token, es[i]) {
      forall c | 0 <= c < first && LeavesAt(commands[c].elements, es, i)
        ensures CheckElement(token, commands[c].elements[i]).Refused?
      {
        EarlierCommandHasChild(commands, es, i, kids, c);
      }
    }
  }

  lemma BlankRefuses(token: string)
    ensures CheckElement(token, NO_ELEMENT).Refused?
  {
  }

  lemma {:induction false} EarlierChildRefuses(
    commands: seq<Command>, token: string, es: seq<Element>, i: nat, kids: seq<Tree>, j: nat)
    requires i < |es| && !es[i].kind.NoElement? && ClearAt(commands, token, es, i)
    requires InOrder(commands, es[..i], kids)
    requires j < Find(kids, es[i]) < |kids|
    ensures CheckElement(token, kids[j].element).Refused?
  {
    hide CheckElement, Find, FirstWith;
    BlankRefuses(token);
    var q, k := es[..i], Find(kids, es[i]);
    if kids[j].handler.None? {
      var c := FirstWith(commands, q + [kids[j].element]);
      var ds := commands[c].elements;
      assert q + [es[i]] == es[..i + 1];
      assert kids[k].handler.None?;
      assert c < FirstWith(commands, es[..i + 1]);
      assert ds[i] == (q + [kids[j].element])[i] && ds[..i] == (q + [kids[j].element])[..i] == q;
      assert LeavesAt(ds, es, i);
    }
  }

  lemma {:induction false} EarlierCommandHasChild(
    commands: seq<Command>, es: seq<Element>, i: nat, kids: seq<Tree>, c: nat)
    requires RealCommands(commands) && i < |es| && !es[i].kind.NoElement?
    requires InOrder(commands, es[..i], kids) && Find(kids, es[i]) < |kids|
    requires c < FirstWith(commands, es[..i + 1]) && LeavesAt(commands[c].elements, es, i)
    ensures exists j :: 0 <= j < Find(kids, es[i]) && kids[j].element == commands[c].elements[i]
  {
    hide Find, FirstWith;
    var q, k, ds := es[..i], Find(kids, es[i]), commands[c].elements;
    assert q + [ds[i]] == ds[..i + 1] && q + [es[i]] == es[..i + 1];
    assert FirstWith(commands, q + [ds[i]]) <= c;
    var j := Find(kids, ds[i]);
    assert kids[j].element == ds[i] && kids[j].handler.None? && kids[k].handler.None?;
    assert Introduces(commands, q, ds[i]) < Introduces(commands, q, es[i]);
  }

  /** No earlier sibling accepts a word exactly when the list of commands says so. */
  lemma NoEarlierExactly(commands: seq<Command>, at: nat, tokens: seq<string>)
    requires at < |commands| && RealCommands(commands) && |tokens| == |commands[at].elements|
    ensures NoEarlierSibling(Build(commands), tokens, commands[at].elements) <==>
            Unambiguous(commands, tokens, commands[at].elements)
  {
    hide ClearAt, ClearChild, NoEarlierSibling, Build, Kids;
    var es := commands[at].elements;
    ByLevel(Build(commands), tokens, es);
    forall i | 0 <= i < |es|
      ensures ClearLevel(Build(commands), tokens, es, i) <==> ClearAt(commands, tokens[i], es, i)
    {
      LevelExactly(commands, at, tokens[i], i);
    }
  }

  /** The elements of the children that the walk steps to, one for each word not skipped. */
  function Spelled(t: Tree, tokens: seq<string>): (r: Option<seq<Element>>)
    ensures r.Some? ==> |r.value| <= |tokens|
    decreases |tokens|
  {
    if tokens == [] then Some([])
    else
      match Pick(t.children, tokens[0], 0)
      case Throw => None
      case NoChild => Spelled(t, tokens[1..])
      case Child(k) =>
        match Spelled(t.children[k], tokens[1..])
        case None => None
        case Some(es) => Some([t.children[k].element] + es)
  }

  lemma {:induction false} PickExactly(children: seq<Tree>, token: string, from: nat)
    requires from <= |children|
    ensures match Pick(children, token, from)
            case Child(k) => forall j | from <= j < k :: CheckElement(token, children[j].element).Refused?
            case NoChild => forall j | from <= j < |children| :: CheckElement(token, children[j].element).Refused?
            case Throw => exists j :: from <= j < |children| && CheckElement(token, children[j].element).Raised?
                            && forall i | from <= i < j :: CheckElement(token, children[i].element).Refused?
    decreases |children| - from
  {
    hide CheckElement;
    if from < |children| && CheckElement(token, children[from].element).Refused? {
      PickExactly(children, token, from + 1);
    }
  }

  /** The walk spells `es` exactly when no earlier sibling accepts a word. */
  lemma {:induction false} SpellsExactly(t: Tree, tokens: seq<string>, es: seq<Element>)
    requires Instantiates(tokens, es)
    ensures Spelled(t, tokens) == Some(es) <==> NoEarlierSibling(t, tokens, es)
    decreases |es|
  {
    hide CheckElement;
    if es != [] {
      var k := Find(t.children, es[0]);
      PickExactly(t.children, tokens[0], 0);
      match Pick(t.children, tokens[0], 0)
      case Throw =>
      case NoChild =>
      case Child(p) =>
        if t.children[p].element == es[0] {
          assert k == p;
          SpellsExactly(t.children[p], tokens[1..], es[1..]);
          assert es == [es[0]] + es[1..];
        }
    }
  }

  /** A line of words that fit a registered command is walked along its pattern exactly when it
      is unambiguous. The walk then ends at that command's node with one stack entry per
      element, and ENTER runs its handler exactly when no other command has its pattern as a
      prefix or equal. */
  lemma Dispatch(commands: seq<Command>, at: nat, tokens: seq<string>)
    requires at < |commands| && RealCommands(commands)
    requires Instantiates(tokens, commands[at].elements)
    ensures var es, walk := commands[at].elements, Analyze(Build(commands), tokens, []);
            && (Spelled(Build(commands), tokens) == Some(es) <==> Unambiguous(commands, tokens, es))
            && (Unambiguous(commands, tokens, es) ==>
                  && walk.Arrived?
                  && walk.stack == Entries(tokens, es)
                  && (Enter(walk.node) == Some(commands[at].handler) <==> PrefixCount(commands, es) == 1))
  {
    hide CheckElement, NoEarlierSibling, Unambiguous, Analyze, Spelled, Build, NodeAt, Enter, Find, FirstWith;
    var es := commands[at].elements;
    var root := Build(commands);
    NoEarlierExactly(commands, at, tokens);
    SpellsExactly(root, tokens, es);
    if Unambiguous(commands, tokens, es) {
      WalkFollows(root, tokens, es, []);
      assert [] + Entries(tokens, es) == Entries(tokens, es);
      assert commands[at] in commands;
      EnterExactly(commands, commands[at]);
    }
  }
}
