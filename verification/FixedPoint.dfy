/** Parsing what was rendered from a parsed grammar: the same grammar, but for ranges with equal
    ends, which are written as one member. */
module FixedPoint {
  import opened Text
  import opened Ir
  import opened Terminals
  import opened Spelling
  import opened Postfix
  import opened Render
  import opened Validate
  import opened FrontEnd
  import opened Reading
  import opened Normal
  import opened RoundTrip
  import opened Image

  // ---- a grammar with its ranges tightened

  function TightOf(el: Element): (t: Element)
    decreases el, 0
  {
    match el
    case Regex(pattern, flags) =>
      (match ReadClassPattern(pattern)
       case None => el
       case Some(c) => Regex(EmitClass(TightClass(c)), flags))
    case Group(alts) => Group(TightAlts(alts))
    case Opt(inner) => Opt(TightOf(inner))
    case Star(inner) => Star(TightOf(inner))
    case Plus(inner) => Plus(TightOf(inner))
    case Rep(min, max, inner) => Rep(min, max, TightOf(inner))
    case _ => el
  }

  function TightSeq(els: seq<Element>): (ts: seq<Element>)
    decreases els, 1
  {
    if els == [] then [] else [TightOf(els[0])] + TightSeq(els[1..])
  }

  function TightAlts(alts: seq<Sequence>): (ts: seq<Sequence>)
    ensures |ts| == |alts|
    decreases alts, 2
  {
    if alts == [] then [] else [Sequence(TightSeq(alts[0].els))] + TightAlts(alts[1..])
  }

  function TightProds(ps: seq<Production>): (ts: seq<Production>)
    ensures |ts| == |ps|
  {
    if ps == [] then [] else [Production(ps[0].name, TightAlts(ps[0].alts))] + TightProds(ps[1..])
  }

  /** A class with a range from a character to itself. */
  predicate LoneRange(el: Element) {
    el.Regex? && ReadClassPattern(el.pattern).Some? &&
    exists it <- ReadClassPattern(el.pattern).value.items :: it.Range? && it.lo == it.hi
  }

  predicate Doubled(ps: seq<Production>) { FindProds(ps, LoneRange).Some? }

  lemma TightItemsSame(its: seq<Item>)
    ensures TightItems(its) == its <==> !exists it <- its :: it.Range? && it.lo == it.hi
  {
    if TightItems(its) == its {
      forall i | 0 <= i < |its| ensures !(its[i].Range? && its[i].lo == its[i].hi) { assert Tight(its[i]) == its[i]; }
    } else {
      var i :| 0 <= i < |its| && Tight(its[i]) != its[i];
      assert its[i] in its;
    }
  }

  lemma TightRegex(pattern: string, flags: string)
    requires EmittedClass(pattern, flags)
    ensures TightOf(Regex(pattern, flags)) == Regex(pattern, flags) <==> !LoneRange(Regex(pattern, flags))
  {
    hide ReadClassPattern, EmitClass;
    var c := ReadClassPattern(pattern).value;
    TightItemsSame(c.items);
    EmittedReadsBack(TightClass(c));
    if EmitClass(TightClass(c)) == pattern { assert TightClass(c) == c; }
  }

  lemma AnyTight()
    ensures !LoneRange(Regex(ANY_PATTERN, "u")) && TightOf(Regex(ANY_PATTERN, "u")) == Regex(ANY_PATTERN, "u")
  {
    AnyIsNoClass();
  }

  /** A canonical element is tight exactly when it holds no range with equal ends. */
  lemma {:induction false} TightSame(el: Element)
    requires Canonical(el)
    ensures TightOf(el) == el <==> Find(el, LoneRange).None?
    decreases el, 0
  {
    hide LoneRange, EmittedClass, ReadClassPattern, EmitClass;
    match el
    case Regex(pattern, flags) =>
      if pattern == ANY_PATTERN && flags == "u" { AnyTight(); } else { TightRegex(pattern, flags); }
    case Group(alts) =>
      TightAltsSame(alts);
      NotARange(el);
    case Opt(inner) => TightSame(inner); NotARange(el);
    case Star(inner) => TightSame(inner); NotARange(el);
    case Plus(inner) => TightSame(inner); NotARange(el);
    case Rep(_, _, inner) => TightSame(inner); NotARange(el);
    case _ => NotARange(el);
  }

  lemma NotARange(el: Element)
    requires !el.Regex?
    ensures !LoneRange(el)
  {
  }

  lemma {:induction false} TightSeqSame(els: seq<Element>)
    requires CanonicalSeq(els)
    ensures TightSeq(els) == els <==> FindSeq(els, LoneRange).None?
    decreases els, 1
  {
    hide LoneRange, Canonical, TightOf, Find;
    if els != [] {
      TightSame(els[0]);
      TightSeqSame(els[1..]);
      assert els == [els[0]] + els[1..];
    }
  }

  lemma {:induction false} TightAltsSame(alts: seq<Sequence>)
    requires CanonicalAlts(alts)
    ensures TightAlts(alts) == alts <==> FindAlts(alts, LoneRange).None?
    decreases alts, 2
  {
    hide LoneRange, CanonicalSeq, TightSeq, FindSeq;
    TightSeqSame(alts[0].els);
    assert alts == [Sequence(alts[0].els)] + alts[1..];
    if |alts| > 1 {
      TightAltsSame(alts[1..]);
    } else {
      assert alts[1..] == [] && TightAlts([]) == [];
    }
  }

  lemma {:induction false} TightProdsSame(ps: seq<Production>)
    requires CanonicalProds(ps)
    ensures TightProds(ps) == ps <==> !Doubled(ps)
  {
    hide LoneRange, CanonicalAlts, TightAlts, FindAlts, LegalName;
    if ps != [] {
      TightAltsSame(ps[0].alts);
      TightProdsSame(ps[1..]);
      assert ps == [Production(ps[0].name, ps[0].alts)] + ps[1..];
    }
  }

  // ---- the normal form of a canonical grammar is that grammar, tightened

  lemma AstralTight(its: seq<Item>)
    ensures Astral(TightItems(its)) <==> Astral(its)
  {
    var ts := TightItems(its);
    assert forall i :: 0 <= i < |its| ==> Lo(ts[i]) == Lo(its[i]) && Hi(ts[i]) == Hi(its[i]);
  }

  lemma RegexNorm(pattern: string, flags: string)
    requires EmittedClass(pattern, flags)
    ensures NormOf(Regex(pattern, flags)) == [TightOf(Regex(pattern, flags))]
  {
    hide ReadClassPattern, EmitClass, Astral;
    AnyIsNoClass();
    AstralTight(ReadClassPattern(pattern).value.items);
  }

  lemma AnyNorm()
    ensures NormOf(Regex(ANY_PATTERN, "u")) == [TightOf(Regex(ANY_PATTERN, "u"))]
  {
    AnyTight();
  }

  lemma OpNorm(el: Element, inner: Element)
    requires el.Opt? || el.Star? || el.Plus? || (el.Rep? && !Below(el.max, el.min) && !Collapses(el.min, el.max))
    ensures ApplyOp(inner, OperatorOf(el)) == Some(el.(inner := inner))
  {
  }

  lemma {:induction false} CanonicalNorm(el: Element)
    requires Canonical(el)
    ensures NormOf(el) == [TightOf(el)]
    decreases el, 0
  {
    hide EmittedClass, ReadClassPattern, EmitClass, ApplyOp;
    match el
    case Term(_, _) =>
    case Ref(_) =>
    case TokTerm(_, _) =>
    case TokenRef(_) =>
    case Prose(_) =>
    case Regex(pattern, flags) =>
      if pattern == ANY_PATTERN && flags == "u" { AnyNorm(); } else { RegexNorm(pattern, flags); }
    case Group(alts) => CanonicalAltsNorm(alts);
    case _ =>
      CanonicalNorm(el.inner);
      assert Whole([TightOf(el.inner)]) == TightOf(el.inner);
      OpNorm(el, TightOf(el.inner));
  }

  lemma {:induction false} CanonicalSeqNorm(els: seq<Element>)
    requires CanonicalSeq(els)
    ensures NormSeq(els) == TightSeq(els)
    decreases els, 1
  {
    hide Canonical, NormOf, TightOf;
    if els != [] {
      CanonicalNorm(els[0]);
      CanonicalSeqNorm(els[1..]);
    }
  }

  lemma {:induction false} CanonicalAltsNorm(alts: seq<Sequence>)
    requires CanonicalAlts(alts)
    ensures NormAlts(alts) == TightAlts(alts)
    decreases alts, 2
  {
    hide CanonicalSeq, NormSeq, TightSeq;
    CanonicalSeqNorm(alts[0].els);
    if |alts| > 1 {
      CanonicalAltsNorm(alts[1..]);
    } else {
      assert alts[1..] == [] && TightAlts([]) == [] && NormAlts([]) == [];
    }
  }

  lemma {:induction false} CanonicalProdsNorm(ps: seq<Production>)
    requires CanonicalProds(ps)
    ensures NormProds(ps) == TightProds(ps)
  {
    hide CanonicalAlts, NormAlts, TightAlts, LegalName;
    if ps != [] {
      CanonicalAltsNorm(ps[0].alts);
      CanonicalProdsNorm(ps[1..]);
    }
  }

  // ---- a parsed grammar renders

  lemma {:induction false} CanonicalRenders(cased: char -> bool, el: Element, rule: string)
    requires Canonical(el) && Find(el, (x: Element) => x.TokTerm?).None?
    ensures RenderElement(cased, el, rule).Ok? && RenderElement(cased, el, rule).value.Some?
    decreases el, 0
  {
    hide QuoteLiteral, ReadClassPattern, EmitClass, ClassText, OpText, Join, LegalName;
    match el
    case Group(alts) => CanonicalAltsRender(cased, alts, rule);
    case Opt(inner) => CanonicalRenders(cased, inner, rule);
    case Star(inner) => CanonicalRenders(cased, inner, rule);
    case Plus(inner) => CanonicalRenders(cased, inner, rule);
    case Rep(_, _, inner) => CanonicalRenders(cased, inner, rule);
    case _ =>
  }

  lemma {:induction false} CanonicalPartsRender(cased: char -> bool, els: seq<Element>, rule: string)
    requires CanonicalSeq(els) && FindSeq(els, (x: Element) => x.TokTerm?).None?
    ensures RenderParts(cased, els, rule).Ok?
    decreases els, 1
  {
    hide Canonical, RenderElement, Find;
    if els != [] {
      CanonicalRenders(cased, els[0], rule);
      CanonicalPartsRender(cased, els[1..], rule);
    }
  }

  lemma {:induction false} CanonicalAltsRender(cased: char -> bool, alts: seq<Sequence>, rule: string)
    requires CanonicalAlts(alts) && FindAlts(alts, (x: Element) => x.TokTerm?).None?
    ensures RenderAltTexts(cased, alts, rule).Ok?
    decreases alts, 2
  {
    hide CanonicalSeq, RenderParts, FindSeq, Join;
    CanonicalPartsRender(cased, alts[0].els, rule);
    if |alts| > 1 {
      CanonicalAltsRender(cased, alts[1..], rule);
    } else {
      assert alts[1..] == [] && RenderAltTexts(cased, [], rule) == Ok([]);
    }
  }

  lemma {:induction false} CanonicalLinesRender(cased: char -> bool, ps: seq<Production>)
    requires CanonicalProds(ps) && FindProds(ps, (x: Element) => x.TokTerm?).None?
    ensures RenderLines(cased, ps).Ok?
  {
    hide CanonicalAlts, RenderAltTexts, FindAlts, Join, LegalName;
    if ps != [] {
      CanonicalAltsRender(cased, ps[0].alts, ps[0].name);
      CanonicalLinesRender(cased, ps[1..]);
    }
  }

  /** What validation passed: no tokenizer terminal, a root, and references that name rules. */
  lemma CheckPassed(ps: seq<Production>)
    requires Check(ps).None?
    ensures FindProds(ps, (el: Element) => el.TokTerm?).None? && ROOT in Names(ps) && Resolved(ps)
  {
    FindProdsExact(ps, (el: Element) => el.TokTerm?);
    FindProdsExact(ps, (el: Element) => Dangles(Names(ps), el));
    hide FindProds;
  }

  lemma ParsedRenders(cased: char -> bool, ps: seq<Production>, start: Option<string>)
    requires Validated(ps)
    ensures RenderGbnf(cased, ps, start).Ok? && Rooted(ps, start) == ps
  {
    hide RenderLines, Check, CanonicalAlts, LegalName, FindProds;
    CheckPassed(ps);
    NamesPass(Names(ps), {});
    CanonicalLinesRender(cased, ps);
  }

  lemma TightEmitted(pattern: string, flags: string)
    requires EmittedClass(pattern, flags)
    ensures TightOf(Regex(pattern, flags)).Regex?
    ensures EmittedClass(TightOf(Regex(pattern, flags)).pattern, flags)
  {
    hide ReadClassPattern, EmitClass, Astral;
    var c := ReadClassPattern(pattern).value;
    AstralTight(c.items);
    EmittedReadsBack(TightClass(c));
  }

  lemma {:induction false} TightCanonical(el: Element)
    requires Canonical(el)
    ensures Canonical(TightOf(el))
    decreases el, 0
  {
    hide EmittedClass, ReadClassPattern, EmitClass, LegalName;
    match el
    case Regex(pattern, flags) =>
      if pattern == ANY_PATTERN && flags == "u" { AnyTight(); } else { TightEmitted(pattern, flags); }
    case Group(alts) => TightAltsCanonical(alts);
    case Opt(inner) => TightCanonical(inner);
    case Star(inner) => TightCanonical(inner);
    case Plus(inner) => TightCanonical(inner);
    case Rep(_, _, inner) => TightCanonical(inner);
    case _ =>
  }

  lemma {:induction false} TightSeqCanonical(els: seq<Element>)
    requires CanonicalSeq(els)
    ensures CanonicalSeq(TightSeq(els))
    decreases els, 1
  {
    hide Canonical, TightOf;
    if els != [] {
      TightCanonical(els[0]);
      TightSeqCanonical(els[1..]);
      assert TightSeq(els)[1..] == TightSeq(els[1..]);
    }
  }

  lemma {:induction false} TightAltsCanonical(alts: seq<Sequence>)
    requires CanonicalAlts(alts)
    ensures CanonicalAlts(TightAlts(alts))
    decreases alts, 2
  {
    hide CanonicalSeq, TightSeq;
    TightSeqCanonical(alts[0].els);
    assert TightAlts(alts)[1..] == TightAlts(alts[1..]);
    if |alts| > 1 { TightAltsCanonical(alts[1..]); }
  }

  lemma {:induction false} TightProdsCanonical(ps: seq<Production>)
    requires CanonicalProds(ps)
    ensures CanonicalProds(TightProds(ps))
  {
    hide CanonicalAlts, TightAlts, LegalName;
    if ps != [] {
      TightAltsCanonical(ps[0].alts);
      TightProdsCanonical(ps[1..]);
    }
  }

  lemma ParsedCarried(ps: seq<Production>)
    requires Validated(ps)
    ensures Carried(ps)
  {
    hide CanonicalProds, Check;
    CheckPassed(ps);
    CanonicalProdsNorm(ps);
    TightProdsCanonical(ps);
    NormProdsSane(ps);
  }

  // ---- the fixed point

  /** A parsed grammar is rendered, never refused, and its text parses to the same grammar with
      its ranges tightened: to the grammar itself exactly when no range has equal ends. */
  lemma Reproduces(cased: char -> bool, caps: bool, src: string, start: Option<string>)
    requires ParseGbnf(caps, src).Ok?
    ensures var g := ParseGbnf(caps, src).value; var text := RenderGbnf(cased, g, start);
            && text.Ok?
            && ParseGbnf(false, text.value) == Ok(TightProds(g))
            && (ParseGbnf(false, text.value) == Ok(g) <==> !Doubled(g))
  {
    hide ParseGbnf, RenderGbnf, Validated, TightProds, Doubled, CanonicalProds;
    var g := ParseGbnf(caps, src).value;
    ParsesCanonical(caps, src);
    ParsedFixed(cased, g, start);
  }

  lemma ParsedFixed(cased: char -> bool, g: seq<Production>, start: Option<string>)
    requires Validated(g)
    ensures var text := RenderGbnf(cased, g, start);
            && text.Ok?
            && ParseGbnf(false, text.value) == Ok(TightProds(g))
            && (ParseGbnf(false, text.value) == Ok(g) <==> !Doubled(g))
  {
    hide ParseGbnf, RenderGbnf, TightProds, Doubled, CanonicalProds, Check;
    ParsedRenders(cased, g, start);
    ParsedCarried(g);
    RoundTripExact(cased, g, start);
    CanonicalProdsNorm(g);
    TightProdsSame(g);
  }

  /** Rendering and parsing is the identity on exactly the grammars parsing produces without a
      range with equal ends. */
  lemma FixedExactly(cased: char -> bool, g: seq<Production>, start: Option<string>)
    requires RenderGbnf(cased, g, start).Ok?
    ensures ParseGbnf(false, RenderGbnf(cased, g, start).value) == Ok(g) <==> Validated(g) && !Doubled(g)
  {
    hide ParseGbnf, RenderGbnf, Validated, TightProds, Doubled;
    var text := RenderGbnf(cased, g, start).value;
    if ParseGbnf(false, text) == Ok(g) { ParsesCanonical(false, text); }
    if Validated(g) { ParsedFixed(cased, g, start); }
  }
}
