/** Command patterns of cli/src/Command.cpp: their parser and the registered commands. */
module CommandPatterns {
  import opened Wrappers
  import opened Words
  import opened AddressText
  import opened CommandTrees
  import opened CommandDispatch

  datatype PatternError = EmptyVariable | UnknownVariable | UnclosedVariable | ElementExpected

  /** The characters of a fixed word, and those of a variable's name. */
  predicate InRun(c: char, digits: bool) {
    IsAlpha(c) || (digits && IsDigit(c))
  }

  function RunLength(u: string, digits: bool): (n: nat)
    ensures n <= |u|
    ensures forall i | 0 <= i < n :: InRun(u[i], digits)
    ensures n < |u| ==> !InRun(u[n], digits)
  {
    if u != "" && InRun(u[0], digits) then 1 + RunLength(u[1..], digits) else 0
  }

  lemma {:induction false} RunLengthIs(u: string, n: nat, digits: bool)
    requires n <= |u| && (forall i | 0 <= i < n :: InRun(u[i], digits)) && (n < |u| ==> !InRun(u[n], digits))
    ensures RunLength(u, digits) == n
  {
    if n > 0 {
      RunLengthIs(u[1..], n - 1, digits);
    }
  }

  /** The map from names to element kinds. */
  function KindOf(name: string): Option<ElementKind> {
    if name == "string" then Some(AnyString)
    else if name == "name" then Some(Name)
    else if name == "IPv4Address" then Some(IpV4Address)
    else if name == "IPv4SubnetMask" then Some(IpV4SubnetMask)
    else if name == "IPv6Address" then Some(IpV6Address)
    else if name == "IPv6SubnetMask" then Some(IpV6SubnetMask)
    else None
  }

  function NameOf(kind: ElementKind): string
    requires !kind.NoElement? && !kind.FixedWord?
  {
    match kind
    case AnyString => "string"
    case Name => "name"
    case IpV4Address => "IPv4Address"
    case IpV4SubnetMask => "IPv4SubnetMask"
    case IpV6Address => "IPv6Address"
    case IpV6SubnetMask => "IPv6SubnetMask"
  }

  /** The variable element after its opening bracket. */
  function Variable(w: string): Result<Element, PatternError> {
    var n := RunLength(w, true);
    if n == 0 then Err(EmptyVariable)
    else if KindOf(w[..n]).None? then Err(UnknownVariable)
    else if First(w[n..]) != '>' then Err(UnclosedVariable)
    else Ok(Element(KindOf(w[..n]).value, ""))
  }

  function Pattern(u: string): Result<seq<Element>, PatternError>
    decreases |u|
  {
    if First(u) == EOT then Ok([])
    else
      SkipSpacesShortens(u);
      var v := SkipSpaces(u);
      if IsAlpha(First(v)) then
        var n := RunLength(v, false);
        var rest :- Pattern(v[n..]);
        Ok([Element(FixedWord, v[..n])] + rest)
      else if First(v) == '<' then
        var w := Tail(v);
        var e :- Variable(w);
        var rest :- Pattern(Tail(w[RunLength(w, true)..]));
        Ok([e] + rest)
      else Err(ElementExpected)
  }

  lemma {:induction false} SkipSpacesShortens(u: string)
    ensures |SkipSpaces(u)| <= |u|
    ensures SkipSpaces(u) != "" ==> !IsSpace(SkipSpaces(u)[0])
  {
    if u != "" && IsSpace(u[0]) {
      SkipSpacesShortens(u[1..]);
    }
  }

  method ParseRun(wrap: Cursor, digits: bool) returns (word: string)
    requires wrap.Valid()
    modifies wrap
    ensures wrap.Valid()
    ensures var u := old(wrap.Rest());
            word == u[..RunLength(u, digits)] && wrap.Rest() == u[RunLength(u, digits)..]
  {
    ghost var u := wrap.Rest();
    word := "";
    while InRun(wrap.ch, digits)
      invariant wrap.Valid() && |word| <= |u| && word == u[..|word|] && wrap.Rest() == u[|word|..]
      invariant forall i | 0 <= i < |word| :: InRun(u[i], digits)
      decreases |u| - |word|
    {
      word := word + [wrap.ch];
      wrap.GetNext();
    }
    RunLengthIs(u, |word|, digits);
  }

  method ParseVariableElement(wrap: Cursor) returns (r: Result<Element, PatternError>)
    requires wrap.Valid() && First(wrap.Rest()) == '<'
    modifies wrap
    ensures wrap.Valid()
    ensures var w := Tail(old(wrap.Rest()));
            r == Variable(w) && (r.Ok? ==> wrap.Rest() == Tail(w[RunLength(w, true)..]))
  {
    wrap.GetNext();
    var name := ParseRun(wrap, true);
    if name == "" {
      return Err(EmptyVariable);
    }
    var kind := KindOf(name);
    if kind.None? {
      return Err(UnknownVariable);
    }
    if wrap.ch != '>' {
      return Err(UnclosedVariable);
    }
    wrap.GetNext();
    return Ok(Element(kind.value, ""));
  }

  /** What the pattern reader does with the next element. */
  lemma PatternStep(u: string)
    requires First(u) != EOT
    ensures |SkipSpaces(u)| <= |u|
    ensures var v := SkipSpaces(u);
            var w, n := Tail(v), RunLength(v, false);
            if IsAlpha(First(v)) then Pattern(u) == Prepend([Element(FixedWord, v[..n])], Pattern(v[n..]))
            else if First(v) != '<' then Pattern(u) == Err(ElementExpected)
            else if Variable(w).Err? then Pattern(u) == Err(Variable(w).error)
            else Pattern(u) == Prepend([Variable(w).value], Pattern(Tail(w[RunLength(w, true)..])))
  {
    hide RunLength, Variable, SkipSpaces, KindOf, IsAlpha;
    SkipSpacesShortens(u);
  }

  lemma PatternEnds(u: string)
    ensures First(u) == EOT ==> Pattern(u) == Ok([])
  {
  }

  /** parse_pattern: elements are appended until the cursor is at the end. */
  method ParsePattern(pattern: string) returns (r: Result<seq<Element>, PatternError>)
    ensures r == Pattern(pattern)
  {
    hide RunLength, Variable, SkipSpaces, KindOf, IsAlpha, Pattern, Prepend;
    var wrap := new Cursor(pattern);
    var elements: seq<Element> := [];
    PrependNothing([], Pattern(pattern));
    var end := wrap.IsEnd();
    while !end
      invariant wrap.Valid() && fresh(wrap)
      invariant end <==> First(wrap.Rest()) == EOT
      invariant Pattern(pattern) == Prepend(elements, Pattern(wrap.Rest()))
      decreases |wrap.Rest()|
    {
      PatternStep(wrap.Rest());
      ghost var u := wrap.Rest();
      wrap.SkipWhitespaces();
      var e: Element;
      if IsAlpha(wrap.ch) {
        var word := ParseRun(wrap, false);
        e := Element(FixedWord, word);
      } else if wrap.ch == '<' {
        var parsed := ParseVariableElement(wrap);
        if parsed.Err? {
          PrependNothing(elements, Pattern(u));
          return Err(parsed.error);
        }
        e := parsed.value;
      } else {
        PrependNothing(elements, Pattern(u));
        return Err(ElementExpected);
      }
      PrependOne(elements, e, Pattern(wrap.Rest()));
      elements := elements + [e];
      end := wrap.IsEnd();
    }
    PatternEnds(wrap.Rest());
    PrependNothing(elements, Pattern(wrap.Rest()));
    return Ok(elements);
  }

  // ---- Patterns as text ------------------------------------------------------------------

  predicate IsWord(w: string) {
    w != "" && forall i | 0 <= i < |w| :: IsAlpha(w[i])
  }

  /** The elements a pattern can denote. */
  predicate Expressible(e: Element) {
    if e.kind.FixedWord? then IsWord(e.fixedValue) else !e.kind.NoElement? && e.fixedValue == ""
  }

  predicate AllExpressible(es: seq<Element>) {
    forall i | 0 <= i < |es| :: Expressible(es[i])
  }

  function Show(e: Element): string
    requires Expressible(e)
  {
    if e.kind.FixedWord? then e.fixedValue else "<" + NameOf(e.kind) + ">"
  }

  function ShowAll(es: seq<Element>): string
    requires AllExpressible(es)
  {
    if es == [] then ""
    else if |es| == 1 then Show(es[0])
    else Show(es[0]) + " " + ShowAll(es[1..])
  }

  lemma NamesAreWords(kind: ElementKind)
    requires !kind.NoElement? && !kind.FixedWord?
    ensures KindOf(NameOf(kind)) == Some(kind) && NameOf(kind) != ""
    ensures forall i | 0 <= i < |NameOf(kind)| :: InRun(NameOf(kind)[i], true)
  {
  }

  lemma VariableHead(kind: ElementKind, rest: string)
    requires !kind.NoElement? && !kind.FixedWord?
    ensures var w := NameOf(kind) + ">" + rest;
            Variable(w) == Ok(Element(kind, "")) && Tail(w[RunLength(w, true)..]) == rest
  {
    hide NameOf, KindOf;
    var name := NameOf(kind);
    NamesAreWords(kind);
    var w := name + ">" + rest;
    RunLengthIs(w, |name|, true);
    assert w[..|name|] == name && w[|name|..] == ">" + rest && Tail(w[|name|..]) == rest;
  }

  lemma WordHead(word: string, rest: string)
    requires IsWord(word) && (rest == "" || !IsAlpha(rest[0]))
    ensures Pattern(word + rest) == Prepend([Element(FixedWord, word)], Pattern(rest))
  {
    hide KindOf, NameOf, Variable;
    var u := word + rest;
    assert SkipSpaces(u) == u;
    RunLengthIs(u, |word|, false);
    assert u[..|word|] == word && u[|word|..] == rest;
  }

  lemma BracketHead(kind: ElementKind, rest: string)
    requires !kind.NoElement? && !kind.FixedWord?
    ensures Pattern("<" + NameOf(kind) + ">" + rest) == Prepend([Element(kind, "")], Pattern(rest))
  {
    hide KindOf, NameOf, Variable, RunLength, IsWord;
    var u := "<" + NameOf(kind) + ">" + rest;
    assert SkipSpaces(u) == u;
    VariableHead(kind, rest);
    assert Tail(u) == NameOf(kind) + ">" + rest;
  }

  /** One element at the head of a text; a word must not go on. */
  lemma PatternHead(e: Element, rest: string)
    requires Expressible(e) && (e.kind.FixedWord? && rest != "" ==> !IsAlpha(rest[0]))
    ensures Pattern(Show(e) + rest) == Prepend([e], Pattern(rest))
  {
    hide Pattern, NameOf, IsWord;
    if e.kind.FixedWord? {
      WordHead(e.fixedValue, rest);
    } else {
      BracketHead(e.kind, rest);
    }
  }

  /** A leading space is skipped, but not at the end of the pattern. */
  lemma PatternSpace(u: string)
    requires First(u) != EOT
    ensures Pattern(" " + u) == Pattern(u)
  {
    assert (" " + u)[1..] == u;
  }

  /** Writing any list of expressible elements as a pattern and parsing it gives it back. */
  lemma {:induction false} PatternRoundTrip(es: seq<Element>)
    requires AllExpressible(es)
    ensures Pattern(ShowAll(es)) == Ok(es)
    ensures es != [] ==> ShowAll(es) != "" && First(ShowAll(es)) != EOT
  {
    hide Pattern;
    if es == [] {
      PatternEnd();
    } else {
      var rest := if |es| == 1 then "" else " " + ShowAll(es[1..]);
      PatternRoundTrip(es[1..]);
      PatternHead(es[0], rest);
      ShownStart(es[0]);
      assert ShowAll(es) == Show(es[0]) + rest;
      if |es| == 1 {
        assert es == [es[0]];
        PatternEnd();
      } else {
        PatternSpace(ShowAll(es[1..]));
      }
      assert es == [es[0]] + es[1..];
    }
  }

  lemma PatternEnd()
    ensures Pattern("") == Ok([])
  {
  }

  lemma ShownStart(e: Element)
    requires Expressible(e)
    ensures Show(e) != "" && (IsAlpha(Show(e)[0]) || Show(e)[0] == '<')
  {
  }

  /** A parsed pattern holds nothing but expressible elements; in particular no blank one,
      which the trie would take for a handler node. */
  lemma {:induction false} ParsedIsExpressible(u: string)
    requires Pattern(u).Ok?
    ensures AllExpressible(Pattern(u).value) && RealElements(Pattern(u).value)
    decreases |u|
  {
    if First(u) != EOT {
      SkipSpacesShortens(u);
      var v := SkipSpaces(u);
      if IsAlpha(First(v)) {
        ParsedIsExpressible(v[RunLength(v, false)..]);
      } else {
        var w := Tail(v);
        ParsedIsExpressible(Tail(w[RunLength(w, true)..]));
      }
    }
  }
}
