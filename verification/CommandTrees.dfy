/** The command trie of cli/src/Command.cpp: an index over the registered commands. */
module CommandTrees {
  import opened Wrappers

  datatype ElementKind =
    | NoElement
    | FixedWord
    | AnyString
    | Name
    | IpV4Address
    | IpV4SubnetMask
    | IpV6Address
    | IpV6SubnetMask

  /** Equality of elements compares exactly these two fields. */
  datatype Element = Element(kind: ElementKind, fixedValue: string)

  const NO_ELEMENT := Element(NoElement, "")

  type Handler = nat

  datatype Command = Command(elements: seq<Element>, handler: Handler)

  /** A node; a command's handler hangs below its last element as a node without element. */
  datatype Tree = Tree(element: Element, handler: Option<Handler>, children: seq<Tree>)

  const EMPTY := Tree(NO_ELEMENT, None, [])

  predicate RealElements(es: seq<Element>) {
    forall i | 0 <= i < |es| :: !es[i].kind.NoElement?
  }

  // ---- Adding a command ---------------------------------------------------------------

  /** The first child with this element, or the number of children. */
  function Find(children: seq<Tree>, e: Element): (k: nat)
    ensures k <= |children|
    ensures k < |children| ==> children[k].element == e
    ensures forall i | 0 <= i < k :: children[i].element != e
  {
    if children == [] || children[0].element == e then 0 else 1 + Find(children[1..], e)
  }

  function HandlerNode(h: Handler): Tree {
    Tree(NO_ELEMENT, Some(h), [])
  }

  function Insert(t: Tree, es: seq<Element>, h: Handler): Tree
    decreases |es|
  {
    if es == [] then t.(children := t.children + [HandlerNode(h)])
    else
      var k := Find(t.children, es[0]);
      if k < |t.children|
      then t.(children := t.children[k := Insert(t.children[k], es[1..], h)])
      else t.(children := t.children + [Insert(Tree(es[0], None, []), es[1..], h)])
  }

  function Build(commands: seq<Command>): Tree {
    if commands == [] then EMPTY
    else
      var last := commands[|commands| - 1];
      Insert(Build(commands[..|commands| - 1]), last.elements, last.handler)
  }

  /** The node a `current_node` pointer denotes: the indices of the children on the way. */
  predicate OnPath(t: Tree, at: seq<nat>)
    decreases |at|
  {
    at == [] || (at[0] < |t.children| && OnPath(t.children[at[0]], at[1..]))
  }

  function NodeOn(t: Tree, at: seq<nat>): Tree
    requires OnPath(t, at)
    decreases |at|
  {
    if at == [] then t else NodeOn(t.children[at[0]], at[1..])
  }

  /** The tree after the pointed-to node was changed to `n`. */
  function Graft(t: Tree, at: seq<nat>, n: Tree): Tree
    requires OnPath(t, at)
    decreases |at|
  {
    if at == [] then n
    else t.(children := t.children[at[0] := Graft(t.children[at[0]], at[1..], n)])
  }

  lemma {:induction false} GraftBelow(t: Tree, at: seq<nat>, n: Tree, k: nat, c: Tree)
    requires OnPath(t, at) && k < |n.children|
    ensures OnPath(Graft(t, at, n), at + [k]) && NodeOn(Graft(t, at, n), at + [k]) == n.children[k]
    ensures Graft(Graft(t, at, n), at + [k], c) == Graft(t, at, n.(children := n.children[k := c]))
    decreases |at|
  {
    if at == [] {
      assert [k][1..] == [];
    } else {
      GraftBelow(t.children[at[0]], at[1..], n, k, c);
      assert (at + [k])[1..] == at[1..] + [k];
    }
  }

  lemma {:induction false} GraftItself(t: Tree, at: seq<nat>)
    requires OnPath(t, at)
    ensures Graft(t, at, NodeOn(t, at)) == t
    decreases |at|
  {
    if at != [] {
      GraftItself(t.children[at[0]], at[1..]);
    }
  }

  lemma {:induction false} FindIs(children: seq<Tree>, e: Element, k: nat)
    requires k <= |children| && (k < |children| ==> children[k].element == e)
    requires forall i | 0 <= i < k :: children[i].element != e
    ensures Find(children, e) == k
  {
    if k > 0 {
      FindIs(children[1..], e, k - 1);
    }
  }

  class CommandTree {
    var root: Tree

    constructor ()
      ensures root == Build([])
    {
      root := EMPTY;
    }

    /** add_command_to_tree: a pointer walks down along equal elements and grows the tree
        where there is none. */
    method AddCommand(command: Command)
      modifies this
      ensures root == Insert(old(root), command.elements, command.handler)
    {
      var es, h := command.elements, command.handler;
      var at: seq<nat> := [];
      assert es[0..] == es;
      for i := 0 to |es|
        invariant OnPath(root, at)
        invariant Insert(old(root), es, h) == Graft(root, at, Insert(NodeOn(root, at), es[i..], h))
      {
        var node := NodeOn(root, at);
        var k := 0;
        while k < |node.children| && node.children[k].element != es[i]
          invariant k <= |node.children|
          invariant forall j | 0 <= j < k :: node.children[j].element != es[i]
        {
          k := k + 1;
        }
        FindIs(node.children, es[i], k);
        assert es[i..][0] == es[i] && es[i..][1..] == es[i + 1..];
        GraftItself(root, at);
        if k == |node.children| {
          var grown := node.(children := node.children + [Tree(es[i], None, [])]);
          ghost var below := Insert(Tree(es[i], None, []), es[i + 1..], h);
          assert grown.children[k := below] == node.children + [below];
          GraftBelow(root, at, grown, k, below);
          GraftIsLast(root, at, grown, k);
          root := Graft(root, at, grown);
        } else {
          GraftBelow(root, at, node, k, Insert(node.children[k], es[i + 1..], h));
        }
        at := at + [k];
      }
      assert es[|es|..] == [];
      var node := NodeOn(root, at);
      root := Graft(root, at, node.(children := node.children + [HandlerNode(h)]));
    }
  }

  lemma GraftIsLast(t: Tree, at: seq<nat>, n: Tree, k: nat)
    requires OnPath(t, at) && k < |n.children|
    ensures OnPath(Graft(t, at, n), at + [k])
  {
    GraftBelow(t, at, n, k, n.children[k]);
  }

  /** create_command_tree: the commands are added in the order of the list. */
  method CreateCommandTree(commands: seq<Command>) returns (tree: CommandTree)
    ensures fresh(tree) && tree.root == Build(commands)
  {
    tree := new CommandTree();
    for i := 0 to |commands|
      invariant tree.root == Build(commands[..i])
    {
      assert commands[..i + 1][..i] == commands[..i];
      tree.AddCommand(commands[i]);
    }
    assert commands[..|commands|] == commands;
  }

  // ---- What the trie holds --------------------------------------------------------------

  /** With `want` = Some(h), the number of paths that spell `q` and end in handler `h`; with
      None, the number of handlers on or below the paths that spell `q`. */
  function Count(t: Tree, q: seq<Element>, want: Option<Handler>): nat
    decreases t, 1
  {
    if q == [] then Leaves(t.children, want) else Below(t.children, q, want)
  }

  function Leaves(children: seq<Tree>, want: Option<Handler>): nat
    decreases children
  {
    if children == [] then 0
    else
      var c := children[0];
      (if c.handler.Some? then (if want.None? || c.handler == want then 1 else 0)
       else if want.None? then Leaves(c.children, want)
       else 0) + Leaves(children[1..], want)
  }

  function Below(children: seq<Tree>, q: seq<Element>, want: Option<Handler>): nat
    requires q != []
    decreases children, 0
  {
    if children == [] then 0
    else
      (if children[0].handler.None? && children[0].element == q[0] then Count(children[0], q[1..], want) else 0)
      + Below(children[1..], q, want)
  }

  /** Handler nodes are blank leaves; other nodes have an element, no sibling with the same
      element, and a handler somewhere below. */
  predicate WellFormed(t: Tree)
    decreases t, 0
  {
    && (forall i | 0 <= i < |t.children| :: WellFormedChild(t.children[i]))
    && (forall i, j | 0 <= i < j < |t.children| ::
          t.children[i].handler.None? && t.children[j].handler.None? ==> t.children[i].element != t.children[j].element)
  }

  predicate WellFormedChild(c: Tree)
    decreases c, 1
  {
    if c.handler.Some? then c.element == NO_ELEMENT && c.children == []
    else !c.element.kind.NoElement? && c.children != [] && WellFormed(c)
  }

  /** What one more command adds to a count. */
  function Hit(es: seq<Element>, h: Handler, q: seq<Element>, want: Option<Handler>): nat {
    if (want.None? && q <= es) || (want == Some(h) && q == es) then 1 else 0
  }

  lemma {:induction false} LeavesAppend(a: seq<Tree>, b: seq<Tree>, want: Option<Handler>)
    ensures Leaves(a + b, want) == Leaves(a, want) + Leaves(b, want)
  {
    if a == [] {
      assert a + b == b;
    } else {
      LeavesAppend(a[1..], b, want);
      assert (a + b)[1..] == a[1..] + b;
    }
  }

  lemma {:induction false} BelowAppend(a: seq<Tree>, b: seq<Tree>, q: seq<Element>, want: Option<Handler>)
    requires q != []
    ensures Below(a + b, q, want) == Below(a, q, want) + Below(b, q, want)
  {
    if a == [] {
      assert a + b == b;
    } else {
      BelowAppend(a[1..], b, q, want);
      assert (a + b)[1..] == a[1..] + b;
    }
  }

  /** The contributions of one child. */
  lemma LeavesOne(c: Tree, want: Option<Handler>)
    ensures c.handler.None? ==> Leaves([c], want) == if want.None? then Leaves(c.children, want) else 0
    ensures c.handler.Some? ==> Leaves([c], want) == if want.None? || c.handler == want then 1 else 0
  {
    assert [c][1..] == [];
  }

  lemma BelowOne(c: Tree, q: seq<Element>, want: Option<Handler>)
    requires q != []
    ensures Below([c], q, want) == if c.handler.None? && c.element == q[0] then Count(c, q[1..], want) else 0
  {
    assert [c][1..] == [];
  }

  lemma SplitAt(children: seq<Tree>, k: nat, c: Tree)
    requires k < |children|
    ensures children == children[..k] + [children[k]] + children[k + 1..]
    ensures children[k := c] == children[..k] + [c] + children[k + 1..]
  {
  }

  /** Replacing one child changes a count by what that child contributes. */
  lemma CountUpdate(t: Tree, k: nat, c: Tree, q: seq<Element>, want: Option<Handler>)
    requires k < |t.children|
    ensures var u := t.(children := t.children[k := c]);
            if q == []
            then Count(u, q, want) + Leaves([t.children[k]], want) == Count(t, q, want) + Leaves([c], want)
            else Count(u, q, want) + Below([t.children[k]], q, want) == Count(t, q, want) + Below([c], q, want)
  {
    var a, b := t.children[..k], t.children[k + 1..];
    SplitAt(t.children, k, c);
    hide Leaves, Below;
    if q == [] {
      LeavesAppend(a + [t.children[k]], b, want);
      LeavesAppend(a, [t.children[k]], want);
      LeavesAppend(a + [c], b, want);
      LeavesAppend(a, [c], want);
    } else {
      BelowAppend(a + [t.children[k]], b, q, want);
      BelowAppend(a, [t.children[k]], q, want);
      BelowAppend(a + [c], b, q, want);
      BelowAppend(a, [c], q, want);
    }
  }

  lemma CountAppend(t: Tree, c: Tree, q: seq<Element>, want: Option<Handler>)
    ensures var u := t.(children := t.children + [c]);
            Count(u, q, want) == Count(t, q, want) + if q == [] then Leaves([c], want) else Below([c], q, want)
  {
    hide Leaves, Below;
    if q == [] {
      LeavesAppend(t.children, [c], want);
    } else {
      BelowAppend(t.children, [c], q, want);
    }
  }

  lemma FindIsNode(t: Tree, e: Element)
    requires WellFormed(t) && !e.kind.NoElement?
    ensures var k := Find(t.children, e); k < |t.children| ==> t.children[k].handler.None? && WellFormed(t.children[k])
  {
    var k := Find(t.children, e);
    if k < |t.children| {
      assert WellFormedChild(t.children[k]);
    }
  }

  lemma NewNode(e: Element, q: seq<Element>, want: Option<Handler>)
    ensures WellFormed(Tree(e, None, [])) && Count(Tree(e, None, []), q, want) == 0
  {
  }

  /** Adding a command adds its own path to the trie and takes none away. */
  lemma {:induction false} InsertCounts(t: Tree, es: seq<Element>, h: Handler, q: seq<Element>, want: Option<Handler>)
    requires WellFormed(t) && RealElements(es)
    ensures Insert(t, es, h).handler == t.handler && Insert(t, es, h).element == t.element
    ensures Count(Insert(t, es, h), q, want) == Count(t, q, want) + Hit(es, h, q, want)
    decreases |es|
  {
    hide Count, Leaves, Below, WellFormed;
    if es == [] {
      CountAppend(t, HandlerNode(h), q, want);
      LeavesOne(HandlerNode(h), want);
      if q != [] {
        BelowOne(HandlerNode(h), q, want);
      }
    } else {
      var k := Find(t.children, es[0]);
      FindIsNode(t, es[0]);
      var before := if k < |t.children| then t.children[k] else Tree(es[0], None, []);
      var after := Insert(before, es[1..], h);
      NewNode(es[0], q, want);
      InsertCounts(before, es[1..], h, if q == [] then [] else q[1..], want);
      if k < |t.children| {
        CountUpdate(t, k, after, q, want);
      } else {
        CountAppend(t, after, q, want);
      }
      LeavesOne(before, want);
      LeavesOne(after, want);
      LeavesIsCount(before, want);
      LeavesIsCount(after, want);
      if q != [] {
        NewNode(es[0], q[1..], want);
        BelowOne(before, q, want);
        BelowOne(after, q, want);
        PrefixTail(q, es);
      } else {
        NewNode(es[0], [], want);
      }
    }
  }

  lemma LeavesIsCount(t: Tree, want: Option<Handler>)
    ensures Count(t, [], want) == Leaves(t.children, want)
  {
  }

  lemma PrefixTail(q: seq<Element>, es: seq<Element>)
    requires q != [] && es != []
    ensures q <= es <==> q[0] == es[0] && q[1..] <= es[1..]
    ensures q == es <==> q[0] == es[0] && q[1..] == es[1..]
  {
    assert q == [q[0]] + q[1..] && es == [es[0]] + es[1..];
  }

  lemma {:induction false} InsertKeepsWellFormed(t: Tree, es: seq<Element>, h: Handler)
    requires WellFormed(t) && RealElements(es)
    ensures WellFormed(Insert(t, es, h)) && Insert(t, es, h).children != []
    ensures Insert(t, es, h).handler == t.handler && Insert(t, es, h).element == t.element
    decreases |es|
  {
    if es != [] {
      var k := Find(t.children, es[0]);
      FindIsNode(t, es[0]);
      var before := if k < |t.children| then t.children[k] else Tree(es[0], None, []);
      InsertKeepsWellFormed(before, es[1..], h);
    }
  }

  predicate RealCommands(commands: seq<Command>) {
    forall i | 0 <= i < |commands| :: RealElements(commands[i].elements)
  }

  function Hits(commands: seq<Command>, q: seq<Element>, want: Option<Handler>): nat {
    if commands == [] then 0
    else
      var last := commands[|commands| - 1];
      Hits(commands[..|commands| - 1], q, want) + Hit(last.elements, last.handler, q, want)
  }

  lemma {:induction false} BuildCounts(commands: seq<Command>, q: seq<Element>, want: Option<Handler>)
    requires RealCommands(commands)
    ensures WellFormed(Build(commands))
    ensures Count(Build(commands), q, want) == Hits(commands, q, want)
  {
    if commands != [] {
      var init, last := commands[..|commands| - 1], commands[|commands| - 1];
      BuildCounts(init, q, want);
      InsertCounts(Build(init), last.elements, last.handler, q, want);
      InsertKeepsWellFormed(Build(init), last.elements, last.handler);
    }
  }

  lemma {:induction false} HitsIsMultiplicity(commands: seq<Command>, es: seq<Element>, h: Handler)
    ensures Hits(commands, es, Some(h)) == multiset(commands)[Command(es, h)]
  {
    if commands != [] {
      var init, last := commands[..|commands| - 1], commands[|commands| - 1];
      HitsIsMultiplicity(init, es, h);
      assert commands == init + [last];
    }
  }

  /** The trie built from any list of commands holds exactly its commands: each pattern and
      handler has as many root-to-handler paths as occurrences in the list, and no node has
      two equal children besides handlers. */
  lemma TrieRefinesList(commands: seq<Command>, es: seq<Element>, h: Handler)
    requires RealCommands(commands)
    ensures WellFormed(Build(commands))
    ensures Count(Build(commands), es, Some(h)) == multiset(commands)[Command(es, h)]
  {
    BuildCounts(commands, es, Some(h));
    HitsIsMultiplicity(commands, es, h);
  }
}
