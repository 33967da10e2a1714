/** What the renderer refuses, said of the elements themselves: exactly what the notation cannot
    write. */
module Refusal {
  import opened Text
  import opened Ir
  import opened Spelling
  import opened Render
  import opened Validate
  import opened RoundTrip

  /** An element that denotes nothing and is written as nothing. */
  predicate Blank(el: Element) { el.Term? && el.literal == "" }

  /** An ASCII letter, or a character without case. */
  predicate Foldable(cased: char -> bool, c: char) { 'a' <= c <= 'z' || 'A' <= c <= 'Z' || !cased(c) }

  /** What the notation can write of one element, its inner elements aside. */
  predicate Writable(cased: char -> bool, el: Element) {
    match el
    case Term(literal, caseSensitive) => caseSensitive || forall i :: 0 <= i < |literal| ==> Foldable(cased, literal[i])
    case Ref(name) => LegalName(name)
    case Regex(pattern, _) => pattern == ANY_PATTERN || ReadClassPattern(pattern).Some?
    case Group(_) => true
    case TokTerm(_, _) => false
    case TokenRef(_) => false
    case Prose(_) => false
    case _ => !Blank(el.inner)
  }

  lemma UnfoldedExact(cased: char -> bool, literal: string, rule: string)
    ensures InsensitiveFragments(cased, literal, rule).Ok? <==> forall i :: 0 <= i < |literal| ==> Foldable(cased, literal[i])
    ensures InsensitiveFragments(cased, literal, rule).Ok? && literal != "" ==> InsensitiveFragments(cased, literal, rule).value != []
  {
    if literal != "" { PiecesSome(literal, ""); }
  }

  lemma {:induction false} PiecesSome(literal: string, chunk: string)
    requires literal != "" || chunk != ""
    ensures Pieces(literal, chunk) != []
    decreases |literal|
  {
    if literal != "" && !IsLetter(literal[0]) { PiecesSome(literal[1..], chunk + [literal[0]]); }
  }

  /** An element renders exactly when everything in it can be written; and to nothing only if it is
      blank. */
  lemma {:induction false} ElementRefused(cased: char -> bool, el: Element, rule: string)
    ensures RenderElement(cased, el, rule).Ok? <==> forall x :: Within(x, el) ==> Writable(cased, x)
    ensures RenderElement(cased, el, rule).Ok? ==> (RenderElement(cased, el, rule).value.None? <==> Blank(el))
    decreases el, 0
  {
    hide ReadClassPattern, InsensitiveFragments, LegalName, Join, WithinAlts, RenderAltTexts;
    match el
    case Term(literal, caseSensitive) =>
      UnfoldedExact(cased, literal, rule);
      LeafWithin(cased, el);
    case Ref(_) => LeafWithin(cased, el);
    case Regex(_, _) => LeafWithin(cased, el);
    case TokTerm(_, _) => LeafWithin(cased, el);
    case TokenRef(_) => LeafWithin(cased, el);
    case Prose(_) => LeafWithin(cased, el);
    case Group(alts) =>
      AltsRefused(cased, alts, rule);
      assert forall x :: Within(x, el) <==> x == el || WithinAlts(x, alts);
    case _ =>
      ElementRefused(cased, el.inner, rule);
      InnerRefused(cased, el, rule);
  }

  lemma LeafWithin(cased: char -> bool, el: Element)
    requires !el.Group? && !el.Opt? && !el.Star? && !el.Plus? && !el.Rep?
    ensures (forall x :: Within(x, el) ==> Writable(cased, x)) <==> Writable(cased, el)
  {
    assert Within(el, el);
  }

  lemma InnerRefused(cased: char -> bool, el: Element, rule: string)
    requires el.Opt? || el.Star? || el.Plus? || el.Rep?
    requires RenderElement(cased, el.inner, rule).Ok? ==> (RenderElement(cased, el.inner, rule).value.None? <==> Blank(el.inner))
    ensures RenderElement(cased, el, rule).Ok? <==> RenderElement(cased, el.inner, rule).Ok? && Writable(cased, el)
    ensures RenderElement(cased, el, rule).Ok? ==> RenderElement(cased, el, rule).value.Some?
    ensures forall x :: Within(x, el) <==> x == el || Within(x, el.inner)
  {
  }

  lemma {:induction false} PartsRefused(cased: char -> bool, els: seq<Element>, rule: string)
    ensures RenderParts(cased, els, rule).Ok? <==> forall x :: WithinSeq(x, els) ==> Writable(cased, x)
    decreases els, 1
  {
    hide RenderElement, Within, Writable;
    if els != [] {
      ElementRefused(cased, els[0], rule);
      PartsRefused(cased, els[1..], rule);
      forall x ensures WithinSeq(x, els) <==> Within(x, els[0]) || WithinSeq(x, els[1..]) { }
    }
  }

  lemma {:induction false} AltsRefused(cased: char -> bool, alts: seq<Sequence>, rule: string)
    ensures RenderAltTexts(cased, alts, rule).Ok? <==> forall x :: WithinAlts(x, alts) ==> Writable(cased, x)
    decreases alts, 2
  {
    hide RenderParts, WithinSeq, Writable, Join;
    if alts != [] {
      PartsRefused(cased, alts[0].els, rule);
      AltsRefused(cased, alts[1..], rule);
      forall x ensures WithinAlts(x, alts) <==> WithinSeq(x, alts[0].els) || WithinAlts(x, alts[1..]) { }
    }
  }

  lemma {:induction false} LinesRefused(cased: char -> bool, ps: seq<Production>)
    ensures RenderLines(cased, ps).Ok? <==> forall x :: WithinProds(x, ps) ==> Writable(cased, x)
  {
    hide RenderAltTexts, WithinAlts, Writable, Join;
    if ps != [] {
      AltsRefused(cased, ps[0].alts, ps[0].name);
      LinesRefused(cased, ps[1..]);
      forall x ensures WithinProds(x, ps) <==> WithinAlts(x, ps[0].alts) || WithinProds(x, ps[1..]) { }
    }
  }

  /** The renderer answers exactly for a grammar with productions, legal and distinct names, a root
      or a defined start rule, and nothing at any depth that the notation cannot write. */
  lemma RefusesExactly(cased: char -> bool, ps: seq<Production>, start: Option<string>)
    ensures RenderGbnf(cased, ps, start).Ok? <==>
            && ps != []
            && (forall i :: 0 <= i < |ps| ==> LegalName(ps[i].name))
            && Distinct(Names(ps))
            && (ROOT in Names(ps) || StartOf(ps, start) in Names(ps))
            && forall x :: WithinProds(x, ps) ==> Writable(cased, x)
  {
    hide RenderLines, WithinProds, Writable, LegalName, Join, Distinct, CheckNames;
    NamesPass(Names(ps), {});
    LinesRefused(cased, ps);
  }

  // ---- what a refusal names

  /** The element stands for what the refusal says of its rule. */
  predicate Causes(cased: char -> bool, x: Element, rule: string, e: RenderError) {
    match e
    case BadRef(r, name) => r == rule && x == Ref(name) && !LegalName(name)
    case NotAClass(r, pattern) => r == rule && x.Regex? && x.pattern == pattern && pattern != ANY_PATTERN && ReadClassPattern(pattern).None?
    case NoFold(r, c) => r == rule && x.Term? && !x.caseSensitive && c in x.literal && !Foldable(cased, c)
    case RepeatsNothing(r) => r == rule && (x.Opt? || x.Star? || x.Plus? || x.Rep?) && Blank(x.inner)
    case NotGbnf(r) => r == rule && (x.TokTerm? || x.TokenRef? || x.Prose?)
    case _ => false
  }

  lemma {:induction false} ElementCause(cased: char -> bool, el: Element, rule: string) returns (x: Element)
    requires RenderElement(cased, el, rule).Err?
    ensures Within(x, el) && Causes(cased, x, rule, RenderElement(cased, el, rule).error)
    decreases el, 0
  {
    hide ReadClassPattern, LegalName, Join, WithinAlts, RenderAltTexts, QuoteLiteral;
    x := el;
    match el
    case Term(literal, _) =>
      assert literal[Unfolded(cased, literal)] in literal;
    case Ref(_) =>
    case Regex(_, _) =>
    case TokTerm(_, _) =>
    case TokenRef(_) =>
    case Prose(_) =>
    case Group(alts) => x := AltsCause(cased, alts, rule);
    case _ =>
      ElementRefused(cased, el.inner, rule);
      if RenderElement(cased, el.inner, rule).Err? { x := ElementCause(cased, el.inner, rule); }
  }

  lemma {:induction false} PartsCause(cased: char -> bool, els: seq<Element>, rule: string) returns (x: Element)
    requires RenderParts(cased, els, rule).Err?
    ensures WithinSeq(x, els) && Causes(cased, x, rule, RenderParts(cased, els, rule).error)
    decreases els, 1
  {
    hide RenderElement, Within, Causes;
    if RenderElement(cased, els[0], rule).Err? {
      x := ElementCause(cased, els[0], rule);
    } else {
      x := PartsCause(cased, els[1..], rule);
    }
  }

  lemma {:induction false} AltsCause(cased: char -> bool, alts: seq<Sequence>, rule: string) returns (x: Element)
    requires RenderAltTexts(cased, alts, rule).Err?
    ensures WithinAlts(x, alts) && Causes(cased, x, rule, RenderAltTexts(cased, alts, rule).error)
    decreases alts, 2
  {
    hide RenderParts, WithinSeq, Causes, Join;
    if RenderParts(cased, alts[0].els, rule).Err? {
      x := PartsCause(cased, alts[0].els, rule);
    } else {
      x := AltsCause(cased, alts[1..], rule);
    }
  }

  /** Some rule holds the cause. */
  ghost predicate CausedIn(cased: char -> bool, ps: seq<Production>, e: RenderError) {
    exists i, x :: 0 <= i < |ps| && WithinAlts(x, ps[i].alts) && Causes(cased, x, ps[i].name, e)
  }

  lemma {:induction false} LinesCause(cased: char -> bool, ps: seq<Production>)
    requires RenderLines(cased, ps).Err?
    ensures CausedIn(cased, ps, RenderLines(cased, ps).error)
  {
    hide RenderAltTexts, WithinAlts, Causes, Join;
    if RenderAltTexts(cased, ps[0].alts, ps[0].name).Err? {
      var x := AltsCause(cased, ps[0].alts, ps[0].name);
      assert WithinAlts(x, ps[0].alts) && Causes(cased, x, ps[0].name, RenderLines(cased, ps).error);
    } else {
      LinesCause(cased, ps[1..]);
      var i, x :| 0 <= i < |ps| - 1 && WithinAlts(x, ps[1..][i].alts) && Causes(cased, x, ps[1..][i].name, RenderLines(cased, ps).error);
      assert ps[1..][i] == ps[i + 1];
    }
  }

  predicate Twice(names: seq<string>, n: string) { exists i, j :: 0 <= i < j < |names| && names[i] == n && names[j] == n }

  lemma {:induction false} NameCause(names: seq<string>, seen: set<string>)
    requires CheckNames(names, seen).Some?
    ensures match CheckNames(names, seen).value
            case BadName(n) => n in names && !LegalName(n)
            case DuplicateName(n) => n in names && (n in seen || Twice(names, n))
            case _ => false
  {
    hide LegalName;
    if LegalName(names[0]) && names[0] !in seen {
      var rest := names[1..];
      NameCause(rest, seen + {names[0]});
      assert forall n :: n in rest ==> n in names;
      if CheckNames(names, seen).value.DuplicateName? {
        var n := CheckNames(names, seen).value.name;
        var i :| 0 <= i < |rest| && rest[i] == n;
        assert names[i + 1] == n;
        if Twice(rest, n) {
          var j, k :| 0 <= j < k < |rest| && rest[j] == n && rest[k] == n;
          assert names[j + 1] == n && names[k + 1] == n;
        } else if n !in seen {
          assert names[0] == n;
        }
      }
    }
  }

  /** A refusal names something that is there: no productions, a name that is not legal or not the
      only one, a start rule that is missing, or an element of the rule it names. */
  lemma RefusalNames(cased: char -> bool, ps: seq<Production>, start: Option<string>)
    requires RenderGbnf(cased, ps, start).Err?
    ensures match RenderGbnf(cased, ps, start).error
            case NoProductions => ps == []
            case BadName(n) => n in Names(ps) && !LegalName(n)
            case DuplicateName(n) => Twice(Names(ps), n)
            case NoStart(s) => ps != [] && ROOT !in Names(ps) && s == StartOf(ps, start) && s !in Names(ps)
            case e => CausedIn(cased, ps, e)
  {
    hide RenderLines, LegalName, Join, Twice, CheckNames, CausedIn;
    if ps != [] {
      if CheckNames(Names(ps), {}).Some? { NameCause(Names(ps), {}); }
      else if RootLine(ps, start).Ok? { LinesCause(cased, ps); CausesElement(cased, ps, RenderLines(cased, ps).error); }
    }
  }

  lemma CausesElement(cased: char -> bool, ps: seq<Production>, e: RenderError)
    requires CausedIn(cased, ps, e)
    ensures !e.NoProductions? && !e.BadName? && !e.DuplicateName? && !e.NoStart?
  {
    hide WithinAlts;
  }
}
