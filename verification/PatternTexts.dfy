/** Exactly which texts are command patterns, and of which elements. */
module PatternTexts {
  import opened Wrappers
  import opened AddressText
  import opened CommandTrees
  import opened CommandDispatch
  import opened CommandPatterns

  /** White space: the space and the characters 9 to 13. */
  predicate Blanks(b: string) {
    forall i | 0 <= i < |b| :: b[i] == ' ' || 9 <= b[i] as int <= 13
  }

  /** The elements one after the other, each with the white space before it. */
  function Spaced(blanks: seq<string>, es: seq<Element>): string
    requires |blanks| == |es| && AllExpressible(es)
  {
    if es == [] then "" else blanks[0] + Show(es[0]) + Spaced(blanks[1..], es[1..])
  }

  /** White space is needed between two words only. */
  predicate Separated(blanks: seq<string>, es: seq<Element>) {
    && |blanks| == |es|
    && (forall i | 0 <= i < |es| :: Blanks(blanks[i]))
    && (forall i | 1 <= i < |es| && es[i - 1].kind.FixedWord? && es[i].kind.FixedWord? :: blanks[i] != "")
  }

  /** The end of the text, or the character 3. */
  predicate Ends(tail: string) {
    tail == "" || tail[0] as int == 3
  }

  lemma {:induction false} BlanksAreSkipped(b: string, u: string)
    requires Blanks(b) && u != "" && !IsSpace(u[0])
    ensures SkipSpaces(b + u) == u
  {
    if b == "" {
      assert b + u == u;
    } else {
      BlanksAreSkipped(b[1..], u);
      assert (b + u)[1..] == b[1..] + u;
    }
  }

  lemma BlanksBefore(b: string, u: string)
    requires Blanks(b) && u != "" && !IsSpace(u[0]) && First(u) != EOT
    ensures Pattern(b + u) == Pattern(u)
  {
    hide Variable, RunLength, SkipSpaces, IsAlpha;
    BlanksAreSkipped(b, u);
    BlanksAreSkipped("", u);
    assert "" + u == u;
    if b != "" {
      assert (b + u)[0] == b[0];
    } else {
      assert b + u == u;
    }
  }

  lemma SpacedFirst(blanks: seq<string>, es: seq<Element>)
    requires es != [] && |blanks| == |es| && AllExpressible(es)
    ensures AllExpressible(es[1..])
    ensures Spaced(blanks, es) == blanks[0] + Show(es[0]) + Spaced(blanks[1..], es[1..])
  {
    hide Show, Expressible;
  }

  lemma SeparatedRest(blanks: seq<string>, es: seq<Element>)
    requires es != [] && Separated(blanks, es)
    ensures Blanks(blanks[0]) && Separated(blanks[1..], es[1..])
  {
    hide Blanks;
  }

  lemma OneMoreElement(b: string, e: Element, rest: string, es: seq<Element>)
    requires Blanks(b) && Expressible(e) && (e.kind.FixedWord? && rest != "" ==> !IsAlpha(rest[0]))
    requires Pattern(rest) == Ok(es)
    ensures Pattern(b + Show(e) + rest) == Ok([e] + es)
  {
    hide *;
    ShownStart(e);
    StartsVisibly(Show(e), rest);
    PatternHead(e, rest);
    BlanksBefore(b, Show(e) + rest);
    Regroup(b, Show(e), rest);
    PrependedTo(e, es);
  }

  lemma PrependedTo(e: Element, es: seq<Element>)
    ensures Prepend([e], Result<seq<Element>, PatternError>.Ok(es)) == Ok([e] + es)
  {
  }

  lemma {:induction false} SpacedParses(blanks: seq<string>, es: seq<Element>, tail: string)
    requires AllExpressible(es) && Separated(blanks, es) && Ends(tail)
    ensures Pattern(Spaced(blanks, es) + tail) == Ok(es)
    decreases |es|
  {
    if es == [] {
      assert Spaced(blanks, es) + tail == tail;
      PatternEnds(tail);
    } else {
      hide *;
      SpacedFirst(blanks, es);
      SeparatedRest(blanks, es);
      var e, others := es[0], Spaced(blanks[1..], es[1..]);
      SpacedParses(blanks[1..], es[1..], tail);
      if e.kind.FixedWord? {
        NoLetterFollows(blanks, es, tail);
      }
      OneMoreElement(blanks[0], e, others + tail, es[1..]);
      Regroup(blanks[0] + Show(e), others, tail);
      HeadAndRest(es);
    }
  }

  lemma Regroup(a: string, b: string, c: string)
    ensures a + b + c == a + (b + c)
  {
  }

  lemma HeadAndRest(es: seq<Element>)
    requires es != []
    ensures [es[0]] + es[1..] == es
  {
  }

  lemma StartsVisibly(u: string, rest: string)
    requires u != "" && (IsAlpha(u[0]) || u[0] == '<')
    ensures u + rest != "" && !IsSpace((u + rest)[0]) && First(u + rest) != EOT
  {
  }

  lemma NoLetterFollows(blanks: seq<string>, es: seq<Element>, tail: string)
    requires es != [] && es[0].kind.FixedWord? && AllExpressible(es) && Separated(blanks, es) && Ends(tail)
    ensures var rest := Spaced(blanks[1..], es[1..]) + tail; rest != "" ==> !IsAlpha(rest[0])
  {
    if |es| > 1 {
      ShownStart(es[1]);
      var rest := blanks[1] + (Show(es[1]) + (Spaced(blanks[2..], es[2..]) + tail));
      assert Spaced(blanks[1..], es[1..]) + tail == rest;
      if blanks[1] != "" {
        assert rest[0] == blanks[1][0];
      } else {
        assert rest[0] == Show(es[1])[0] == '<';
      }
    } else {
      assert Spaced(blanks[1..], es[1..]) + tail == tail;
    }
  }

  lemma {:induction false} SkippedBlanks(u: string) returns (b: string)
    ensures Blanks(b) && u == b + SkipSpaces(u)
  {
    b := "";
    if u != "" && IsSpace(u[0]) {
      var c := SkippedBlanks(u[1..]);
      b := [u[0]] + c;
      assert u == [u[0]] + u[1..];
    }
  }

  lemma NameIsShown(name: string)
    requires KindOf(name).Some?
    ensures var k := KindOf(name).value; !k.NoElement? && !k.FixedWord? && NameOf(k) == name
  {
  }

  lemma FirstWordText(v: string) returns (rest: string)
    requires v != "" && IsAlpha(v[0])
    ensures var n := RunLength(v, false); 0 < n && rest == v[n..] && v == v[..n] + rest
    ensures var e := Element(FixedWord, v[..RunLength(v, false)]);
            Expressible(e) && v == Show(e) + rest && (rest != "" ==> !IsAlpha(rest[0]))
  {
    var n := RunLength(v, false);
    rest := v[n..];
    assert n > 0;
  }

  lemma FirstVariableText(w: string) returns (rest: string)
    requires Variable(w).Ok?
    ensures rest == Tail(w[RunLength(w, true)..]) && |rest| < |w|
    ensures var e := Variable(w).value; Expressible(e) && !e.kind.FixedWord? && "<" + w == Show(e) + rest
  {
    hide KindOf, NameOf, RunLength;
    var n := RunLength(w, true);
    rest := Tail(w[n..]);
    var name := w[..n];
    NameIsShown(name);
    assert Variable(w).value == Element(KindOf(name).value, "") && First(w[n..]) == '>';
    hide Variable;
    assert w == name + ">" + rest;
    assert "<" + w == "<" + name + ">" + rest;
  }

  lemma PrependedTail(e: Element, r: Result<seq<Element>, PatternError>)
    requires Prepend([e], r).Ok?
    ensures r.Ok?
    ensures var es := Prepend([e], r).value; es != [] && es[0] == e && es[1..] == r.value
  {
  }

  /** The first element of a pattern that was read, and the text it was read from. */
  lemma FirstElement(u: string) returns (b: string, rest: string)
    requires First(u) != EOT && Pattern(u).Ok?
    ensures |rest| < |u| && Pattern(rest).Ok? && Blanks(b)
    ensures var es := Pattern(u).value;
            && es != [] && es[1..] == Pattern(rest).value && Expressible(es[0])
            && u == b + Show(es[0]) + rest
            && (es[0].kind.FixedWord? && rest != "" ==> !IsAlpha(rest[0]))
  {
    hide Pattern, Prepend, RunLength, Variable, SkipSpaces, Show, Expressible;
    b := SkippedBlanks(u);
    PatternStep(u);
    PatternEnds(u);
    var v := SkipSpaces(u);
    if IsAlpha(First(v)) {
      rest := FirstWordText(v);
      PrependedTail(Element(FixedWord, v[..RunLength(v, false)]), Pattern(rest));
    } else {
      var w := Tail(v);
      assert v == "<" + w;
      rest := FirstVariableText(w);
      PrependedTail(Variable(w).value, Pattern(rest));
    }
  }

  lemma {:induction false} ParsedText(u: string) returns (blanks: seq<string>, tail: string)
    requires Pattern(u).Ok?
    ensures var es := Pattern(u).value;
            && AllExpressible(es) && Separated(blanks, es) && Ends(tail) && u == Spaced(blanks, es) + tail
    decreases |u|
  {
    hide Show, Expressible;
    if First(u) == EOT {
      blanks, tail := [], u;
      assert u == Spaced(blanks, []) + tail;
    } else {
      var b, rest := FirstElement(u);
      var more;
      more, tail := ParsedText(rest);
      hide Pattern;
      blanks := [b] + more;
      var es := Pattern(u).value;
      assert blanks[1..] == more;
      JoinedText(b, more, es, rest, tail);
      assert forall i | 1 <= i < |es| :: es[i] == es[1..][i - 1];
    }
  }

  lemma JoinedText(b: string, more: seq<string>, es: seq<Element>, rest: string, tail: string)
    requires es != [] && Expressible(es[0]) && Blanks(b)
    requires AllExpressible(es[1..]) && Separated(more, es[1..]) && rest == Spaced(more, es[1..]) + tail
    requires es[0].kind.FixedWord? && rest != "" ==> !IsAlpha(rest[0])
    ensures AllExpressible(es) && Separated([b] + more, es)
    ensures Spaced([b] + more, es) + tail == b + Show(es[0]) + rest
  {
    hide Show, Expressible, Blanks, IsAlpha, Spaced;
    if |es| > 1 && es[1].kind.FixedWord? {
      assert es[1..][0] == es[1];
      WordComesFirst(more, es[1..], tail);
    }
    JoinedSeparated(b, more, es);
    JoinedSpaced(b, more, es);
  }

  lemma JoinedSeparated(b: string, more: seq<string>, es: seq<Element>)
    requires es != [] && Expressible(es[0]) && Blanks(b) && AllExpressible(es[1..]) && Separated(more, es[1..])
    requires |es| > 1 && es[0].kind.FixedWord? && es[1].kind.FixedWord? ==> more[0] != ""
    ensures AllExpressible(es) && Separated([b] + more, es)
  {
    hide Expressible, Blanks;
    assert forall i | 1 <= i < |es| :: es[i] == es[1..][i - 1] && ([b] + more)[i] == more[i - 1];
  }

  lemma JoinedSpaced(b: string, more: seq<string>, es: seq<Element>)
    requires es != [] && |es| == 1 + |more| && AllExpressible(es) && AllExpressible(es[1..])
    ensures Spaced([b] + more, es) == b + Show(es[0]) + Spaced(more, es[1..])
  {
    hide Expressible, Show;
    assert ([b] + more)[1..] == more;
  }

  lemma WordComesFirst(blanks: seq<string>, es: seq<Element>, tail: string)
    requires AllExpressible(es) && |blanks| == |es| && es != [] && es[0].kind.FixedWord?
    ensures var u := Spaced(blanks, es) + tail; blanks[0] == "" ==> u != "" && IsAlpha(u[0])
  {
    WordStarts(es[0]);
    var first, others := Show(es[0]), Spaced(blanks[1..], es[1..]);
    assert Spaced(blanks, es) == blanks[0] + first + others;
    hide Spaced, Show, Expressible;
    if blanks[0] == "" {
      assert (blanks[0] + first + others + tail)[0] == first[0];
    }
  }

  lemma WordStarts(e: Element)
    requires Expressible(e) && e.kind.FixedWord?
    ensures Show(e) != "" && IsAlpha(Show(e)[0])
  {
  }

  /** A text is the pattern of these elements exactly when it spells them one after the other,
      with any white space before each and some between two words, up to the end or the
      character 3; there is no white space after the last. */
  lemma PatternExactly(u: string, es: seq<Element>)
    ensures Pattern(u) == Ok(es) <==>
            exists blanks, tail ::
              AllExpressible(es) && Separated(blanks, es) && Ends(tail) && u == Spaced(blanks, es) + tail
  {
    hide Pattern, AllExpressible, Ends, Spaced;
    if Pattern(u) == Ok(es) {
      var blanks, tail := ParsedText(u);
    }
    forall blanks, tail | AllExpressible(es) && Separated(blanks, es) && Ends(tail) && u == Spaced(blanks, es) + tail
      ensures Pattern(u) == Ok(es)
    {
      SpacedParses(blanks, es, tail);
    }
  }

  /** What a fixed word is and how the variables are written. */
  lemma ElementTexts(e: Element)
    ensures Expressible(e) <==>
              if e.kind.FixedWord?
              then e.fixedValue != "" && forall i | 0 <= i < |e.fixedValue| ::
                                           'a' <= e.fixedValue[i] <= 'z' || 'A' <= e.fixedValue[i] <= 'Z'
              else !e.kind.NoElement? && e.fixedValue == ""
    ensures Expressible(e) ==>
              Show(e) == match e.kind
                         case FixedWord => e.fixedValue
                         case AnyString => "<string>"
                         case Name => "<name>"
                         case IpV4Address => "<IPv4Address>"
                         case IpV4SubnetMask => "<IPv4SubnetMask>"
                         case IpV6Address => "<IPv6Address>"
                         case IpV6SubnetMask => "<IPv6SubnetMask>"
                         case NoElement => ""
  {
    assert "<" + "string" + ">" == "<string>" && "<" + "name" + ">" == "<name>";
    assert "<" + "IPv4Address" + ">" == "<IPv4Address>" && "<" + "IPv4SubnetMask" + ">" == "<IPv4SubnetMask>";
    assert "<" + "IPv6Address" + ">" == "<IPv6Address>" && "<" + "IPv6SubnetMask" + ">" == "<IPv6SubnetMask>";
  }
}
