/** Rendering, parsing and rendering again: the text is the same exactly when no repetition has a
    shorter spelling and no class is read as one with another text. */
module Stable {
  import opened Text
  import opened Ir
  import opened Terminals
  import opened Spelling
  import opened Postfix
  import opened Lexer
  import opened Derivation
  import opened Build
  import opened Render
  import opened Spelled
  import opened Validate
  import opened FrontEnd
  import opened Plan
  import opened Reading
  import opened Normal
  import opened RoundTrip
  import opened Image
  import opened FixedPoint

  /** A repetition that reads back as another element: `{1}`, `{0,1}`, `{0,}` or `{1,}`. */
  predicate Loose(el: Element) { el.Rep? && Collapses(el.min, el.max) }

  /** The text of a class that has this text when it is read and rendered again. */
  predicate Steady(src: string) {
    match DecodeClass(src)
    case None => false
    case Some(c) => ClassText(c) == src
  }

  /** A class whose text is not that of the class it is read as: surrogates leave no trace in it but
      their hyphens. */
  predicate Shifts(el: Element) {
    el.Regex? && el.pattern != ANY_PATTERN && ReadClassPattern(el.pattern).Some? &&
    !Steady(ClassText(ReadClassPattern(el.pattern).value))
  }

  /** An element whose own text changes when it is read and rendered again. */
  predicate Unsettled(el: Element) { Loose(el) || Shifts(el) }

  // ---- the plan of a grammar shows what is unsettled in it

  predicate LooseOp(op: Op) { op.RepOp? && Collapses(op.min, op.max) }

  predicate TautOps(ops: seq<Op>) { forall i :: 0 <= i < |ops| ==> !LooseOp(ops[i]) }

  predicate TautElem(e: ElemTree)
    decreases e, 0
  {
    (match e.atom
     case Leaf(tok) => tok.CC? ==> Steady(tok.src)
     case Paren(alts, _) => TautAlts(alts)) &&
    (e.post.Some? ==> TautOps(Ops(e.post.value)))
  }

  predicate TautSeq(els: seq<ElemTree>)
    decreases els, 1
  {
    els == [] || (TautElem(els[0]) && TautSeq(els[1..]))
  }

  predicate TautAlts(alts: seq<SeqTree>)
    decreases alts, 2
  {
    alts == [] || (TautSeq(alts[0].els) && TautAlts(alts[1..]))
  }

  predicate TautProds(ps: seq<ProdTree>) {
    ps == [] || (TautAlts(ps[0].alts) && TautProds(ps[1..]))
  }

  lemma TautOne(e: ElemTree)
    ensures TautSeq([e]) <==> TautElem(e)
  {
    hide TautElem;
    assert [e][1..] == [];
  }

  lemma {:induction false} TautConcat(a: seq<ElemTree>, b: seq<ElemTree>)
    ensures TautSeq(a + b) <==> TautSeq(a) && TautSeq(b)
  {
    hide TautElem;
    if a == [] {
      assert a + b == b;
    } else {
      assert (a + b)[1..] == a[1..] + b;
      TautConcat(a[1..], b);
    }
  }

  lemma TautAppend(ops: seq<Op>, op: Op)
    ensures TautOps(ops + [op]) <==> TautOps(ops) && !LooseOp(op)
  {
    hide LooseOp;
    var all := ops + [op];
    assert all[|ops|] == op;
    assert forall i :: 0 <= i < |ops| ==> all[i] == ops[i];
  }

  lemma BareTaut(tok: Token)
    ensures TautSeq([Bare(tok)]) <==> (tok.CC? ==> Steady(tok.src))
  {
    hide Steady;
    TautOne(Bare(tok));
  }

  /** A class of characters has a steady text. */
  lemma ScalarSteady(c: Class)
    requires ScalarClass(c)
    ensures Steady(ClassText(c))
  {
    hide ClassText, DecodeClass;
    RenderedClassDecodes(c);
    ClassTextTight(c);
  }

  lemma {:induction false} PiecesTaut(ps: seq<Piece>)
    requires AllLetters(ps)
    ensures TautSeq(PieceTrees(ps))
  {
    hide Steady, PieceText, LetterClass, ClassText;
    if ps != [] {
      PiecesTaut(ps[1..]);
      assert PieceTrees(ps)[1..] == PieceTrees(ps[1..]);
      if ps[0].Letter? {
        LetterText(ps[0].c);
        ScalarSteady(LetterClass(ps[0].c));
      }
    }
  }

  lemma PostTaut(plan: seq<ElemTree>, op: Op)
    requires SpeltSeq(plan)
    ensures TautSeq([PostTree(plan, op)]) <==> TautSeq(plan) && !LooseOp(op)
  {
    hide TautOps, LooseOp, Ops, OpText, SpeltRun, TautAlts, SpeltAlts, Steady;
    var t := PostTree(plan, op);
    TautOne(t);
    if |plan| == 1 {
      var run := if plan[0].post.Some? then plan[0].post.value else "";
      assert plan == [plan[0]];
      TautOne(plan[0]);
      RunAppend(run, op);
      TautAppend(Ops(run), op);
      if plan[0].post.None? { NoOps(); NoneLoose(); }
    } else {
      RunAppend("", op);
      NoOps();
      TautAppend([], op);
      NoneLoose();
      assert "" + OpText(op) == OpText(op) && [] + [op] == [op];
      AltsOfOne(plan);
    }
  }

  lemma NoneLoose()
    ensures TautOps([])
  {
  }

  lemma AltsOfOne(plan: seq<ElemTree>)
    ensures TautAlts([SeqTree(plan)]) <==> TautSeq(plan)
  {
    hide TautSeq;
    var alts := [SeqTree(plan)];
    assert alts[1..] == [] && TautAlts([]);
  }

  lemma ReadsSpelt(plan: seq<ElemTree>, legible: bool, els: seq<Element>)
    requires Reads(plan, legible, els)
    ensures SpeltSeq(plan)
  {
  }

  lemma OperatorUnsettled(el: Element)
    requires el.Opt? || el.Star? || el.Plus? || el.Rep?
    ensures Unsettled(el) <==> LooseOp(OperatorOf(el))
  {
  }

  lemma RegexTaut(pattern: string, flags: string)
    requires pattern == ANY_PATTERN || ReadClassPattern(pattern).Some?
    ensures TautSeq(PlanOf(Regex(pattern, flags))) <==> !Unsettled(Regex(pattern, flags))
  {
    hide ReadClassPattern, ClassText, Steady, TautSeq;
    BareTaut(PlanOf(Regex(pattern, flags))[0].atom.tok);
  }

  lemma PlainSettled(el: Element)
    ensures !el.Regex? && !el.Rep? ==> !Unsettled(el)
  {
  }

  lemma {:induction false} PlanTaut(cased: char -> bool, el: Element, rule: string)
    requires RenderElement(cased, el, rule).Ok?
    ensures TautSeq(PlanOf(el)) <==> Find(el, Unsettled).None?
    decreases el, 0
  {
    hide TautSeq, ReadClassPattern, QuoteLiteral, ClassText, PostTree, Reads, SpeltSeq, OpText, Join, InsensitiveFragments,
      Unsettled;
    PlainSettled(el);
    match el
    case Term(literal, caseSensitive) =>
      NothingTaut();
      if !caseSensitive { PiecesTaut(Pieces(literal, "")); } else { BareTaut(GS(QuoteLiteral(literal))); }
    case Ref(name) => BareTaut(NM(name));
    case Regex(pattern, flags) => RegexTaut(pattern, flags);
    case Group(alts) =>
      PlanAltsTaut(cased, alts, rule);
      TautOne(PlanOf(el)[0]);
    case TokTerm(_, _) =>
    case TokenRef(_) =>
    case Prose(_) =>
    case _ =>
      PlanTaut(cased, el.inner, rule);
      ElementReads(cased, el.inner, rule);
      ReadsSpelt(PlanOf(el.inner), Find(el.inner, Illegible).None?, ReadOf(el.inner));
      PostTaut(PlanOf(el.inner), OperatorOf(el));
      OperatorUnsettled(el);
  }

  lemma NothingTaut()
    ensures TautSeq([])
  {
  }

  lemma {:induction false} PlanSeqTaut(cased: char -> bool, els: seq<Element>, rule: string)
    requires RenderParts(cased, els, rule).Ok?
    ensures TautSeq(PlanSeq(els)) <==> FindSeq(els, Unsettled).None?
    decreases els, 1
  {
    hide TautSeq, RenderElement, PlanOf, Find, Unsettled;
    if els == [] {
      NothingTaut();
    } else {
      PlanTaut(cased, els[0], rule);
      PlanSeqTaut(cased, els[1..], rule);
      TautConcat(PlanOf(els[0]), PlanSeq(els[1..]));
    }
  }

  lemma {:induction false} PlanAltsTaut(cased: char -> bool, alts: seq<Sequence>, rule: string)
    requires RenderAltTexts(cased, alts, rule).Ok?
    ensures TautAlts(PlanAlts(alts)) <==> FindAlts(alts, Unsettled).None?
    decreases alts, 2
  {
    hide TautSeq, RenderParts, PlanSeq, FindSeq, Join, Unsettled;
    NothingTaut();
    if alts == [] {
      assert PlanAlts(alts)[1..] == [];
    } else {
      PlanSeqTaut(cased, alts[0].els, rule);
      if |alts| > 1 {
        assert PlanAlts(alts)[1..] == PlanAlts(alts[1..]);
        PlanAltsTaut(cased, alts[1..], rule);
      } else {
        assert alts[1..] == [] && PlanAlts(alts)[1..] == [];
      }
    }
  }

  lemma {:induction false} PlanProdsTaut(cased: char -> bool, ps: seq<Production>)
    requires RenderLines(cased, ps).Ok?
    ensures TautProds(PlanProds(ps)) <==> FindProds(ps, Unsettled).None?
  {
    hide TautAlts, RenderAltTexts, PlanAlts, FindAlts, Join, Unsettled;
    if ps != [] {
      PlanAltsTaut(cased, ps[0].alts, ps[0].name);
      PlanProdsTaut(cased, ps[1..]);
      assert PlanProds(ps)[1..] == PlanProds(ps[1..]);
    }
  }

  // ---- where nothing is unsettled, what is read has the same plan

  lemma {:induction false} ItemsTextTight(its: seq<Item>)
    requires AllNamed(its)
    ensures ItemsText(TightItems(its)) == ItemsText(its)
  {
    hide ClassChar;
    if its != [] {
      ItemsTextTight(its[1..]);
      assert TightItems(its)[1..] == TightItems(its[1..]);
    }
  }

  lemma ClassTextTight(c: Class)
    requires AllNamed(c.items)
    ensures ClassText(TightClass(c)) == ClassText(c)
  {
    ItemsTextTight(c.items);
  }

  lemma ClassPlan(c: Class, flags: string)
    requires ScalarClass(c)
    ensures PlanOf(Regex(EmitClass(c), flags)) == [Bare(CC(ClassText(c)))]
  {
    hide EmitClass, ReadClassPattern, ClassText;
    EmittedReadsBack(c);
    AnyIsNoClass();
  }

  lemma {:induction false} PlanConcat(a: seq<Element>, b: seq<Element>)
    ensures PlanSeq(a + b) == PlanSeq(a) + PlanSeq(b)
  {
    hide PlanOf;
    if a == [] {
      assert a + b == b;
    } else {
      assert (a + b)[1..] == a[1..] + b;
      PlanConcat(a[1..], b);
      Assoc(PlanOf(a[0]), PlanSeq(a[1..]), PlanSeq(b));
    }
  }

  lemma PlanOne(el: Element)
    ensures PlanSeq([el]) == PlanOf(el)
  {
    hide PlanOf;
    assert [el][1..] == [] && PlanSeq([]) == [];
  }

  lemma {:induction false} PiecesPlan(ps: seq<Piece>)
    requires AllLetters(ps) && forall i :: 0 <= i < |ps| ==> (ps[i].Chunk? ==> ps[i].text != "")
    ensures PlanSeq(PieceElements(ps)) == PieceTrees(ps)
  {
    hide PlanOf, PieceText, EmitClass, ClassText, LetterClass;
    if ps != [] {
      var p := ps[0];
      PiecesPlan(ps[1..]);
      assert PieceElements(ps)[1..] == PieceElements(ps[1..]);
      assert PieceTrees(ps) == [PieceTree(p)] + PieceTrees(ps[1..]);
      if p.Letter? {
        ClassPlan(LetterClass(p.c), "");
        LetterText(p.c);
      } else {
        ChunkPlan(p.text);
      }
    }
  }

  lemma ChunkPlan(text: string)
    requires text != ""
    ensures PlanOf(Term(text, true)) == [PieceTree(Chunk(text))]
  {
  }

  lemma AppliedPlan(el: Element, whole: Element)
    requires (el.Opt? || el.Star? || el.Plus? || el.Rep?) && !Illegible(el) && !Unsettled(el)
    ensures ApplyOp(whole, OperatorOf(el)).Some?
    ensures PlanOf(ApplyOp(whole, OperatorOf(el)).value) == [PostTree(PlanOf(whole), OperatorOf(el))]
  {
    hide PostTree, PlanAlts, ReadClassPattern, ClassText, DecodeClass, Pieces;
  }

  lemma WholePlan(els: seq<Element>, op: Op)
    requires |PlanSeq(els)| == |els|
    ensures PostTree(PlanOf(Whole(els)), op) == PostTree(PlanSeq(els), op)
  {
    hide OpText;
    if |els| == 1 {
      assert els == [els[0]];
      PlanOne(els[0]);
    } else {
      var alts := [Sequence(els)];
      assert alts[1..] == [];
      assert PlanAlts(alts) == [SeqTree(PlanSeq(els))];
      assert PlanOf(Group(alts)) == [ElemTree(Paren([SeqTree(PlanSeq(els))], true), None)];
      assert "" + OpText(op) == OpText(op);
    }
  }

  lemma RegexPlan(pattern: string, flags: string)
    requires pattern == ANY_PATTERN || ReadClassPattern(pattern).Some?
    requires !Unsettled(Regex(pattern, flags))
    ensures PlanSeq(ReadOf(Regex(pattern, flags))) == PlanOf(Regex(pattern, flags))
  {
    hide ReadClassPattern, ClassText, DecodeClass, EmitClass, FlagsFor;
    PlanOne(ReadOf(Regex(pattern, flags))[0]);
    if pattern != ANY_PATTERN {
      var d := DecodeClass(ClassText(ReadClassPattern(pattern).value)).value;
      ClassPlan(d, FlagsFor(d));
    }
  }

  lemma {:induction false} ReadPlan(cased: char -> bool, el: Element, rule: string)
    requires RenderElement(cased, el, rule).Ok? && Find(el, Illegible).None? && Find(el, Unsettled).None?
    ensures PlanSeq(ReadOf(el)) == PlanOf(el)
    decreases el, 0
  {
    hide ReadClassPattern, QuoteLiteral, ClassText, EmitClass, PostTree, Worth, OpText, Join, InsensitiveFragments,
      ApplyOp, PlanSeq, ReadRegex, Illegible, Unsettled;
    match el
    case Term(literal, caseSensitive) =>
      if literal == "" { EmptyPlan(); }
      else if caseSensitive { PlanOne(el); }
      else { PiecesPlan(Pieces(literal, "")); }
    case Ref(name) => PlanOne(el);
    case Regex(pattern, flags) => RegexPlan(pattern, flags);
    case Group(alts) =>
      ReadAltsPlan(cased, alts, rule);
      PlanOne(Group(ReadAlts(alts)));
    case TokTerm(_, _) =>
    case TokenRef(_) =>
    case Prose(_) =>
    case _ =>
      ReadPlan(cased, el.inner, rule);
      ElementReads(cased, el.inner, rule);
      WorthLength(PlanOf(el.inner), ReadOf(el.inner));
      var whole := Whole(ReadOf(el.inner));
      AppliedPlan(el, whole);
      WholePlan(ReadOf(el.inner), OperatorOf(el));
      PlanOne(ApplyOp(whole, OperatorOf(el)).value);
  }

  lemma EmptyPlan()
    ensures PlanSeq([]) == []
  {
  }

  lemma {:induction false} ReadSeqPlan(cased: char -> bool, els: seq<Element>, rule: string)
    requires RenderParts(cased, els, rule).Ok? && FindSeq(els, Illegible).None? && FindSeq(els, Unsettled).None?
    ensures PlanSeq(ReadSeq(els)) == PlanSeq(els)
    decreases els, 1
  {
    hide RenderElement, PlanOf, ReadOf, Find, Illegible, Unsettled;
    if els != [] {
      ReadPlan(cased, els[0], rule);
      ReadSeqPlan(cased, els[1..], rule);
      PlanConcat(ReadOf(els[0]), ReadSeq(els[1..]));
    }
  }

  lemma {:induction false} ReadAltsPlan(cased: char -> bool, alts: seq<Sequence>, rule: string)
    requires RenderAltTexts(cased, alts, rule).Ok? && FindAlts(alts, Illegible).None? && FindAlts(alts, Unsettled).None?
    ensures PlanAlts(ReadAlts(alts)) == PlanAlts(alts)
    decreases alts, 2
  {
    hide RenderParts, PlanSeq, ReadSeq, FindSeq, Join, Illegible, Unsettled;
    EmptyPlan();
    if alts != [] {
      ReadSeqPlan(cased, alts[0].els, rule);
      if |alts| > 1 {
        ReadAltsPlan(cased, alts[1..], rule);
        assert ReadAlts(alts)[1..] == ReadAlts(alts[1..]);
      }
    }
  }

  lemma {:induction false} ReadProdsPlan(cased: char -> bool, ps: seq<Production>)
    requires RenderLines(cased, ps).Ok? && FindProds(ps, Illegible).None? && FindProds(ps, Unsettled).None?
    ensures PlanProds(ReadProds(ps)) == PlanProds(ps)
  {
    hide RenderAltTexts, PlanAlts, ReadAlts, FindAlts, Join, Illegible, Unsettled;
    if ps != [] {
      ReadAltsPlan(cased, ps[0].alts, ps[0].name);
      ReadProdsPlan(cased, ps[1..]);
      assert ReadProds(ps)[1..] == ReadProds(ps[1..]);
    }
  }

  // ---- what is parsed is settled

  lemma EmittedSettled(pattern: string, flags: string)
    requires EmittedClass(pattern, flags) || (pattern == ANY_PATTERN && flags == "u")
    ensures !Unsettled(Regex(pattern, flags))
  {
    hide ReadClassPattern, EmitClass, Steady, ClassText;
    if pattern != ANY_PATTERN { ScalarSteady(ReadClassPattern(pattern).value); }
  }

  lemma {:induction false} CanonicalTaut(el: Element)
    requires Canonical(el)
    ensures Find(el, Unsettled).None?
    decreases el, 0
  {
    hide EmittedClass, LegalName, Unsettled;
    PlainSettled(el);
    match el
    case Regex(pattern, flags) => EmittedSettled(pattern, flags);
    case Group(alts) => CanonicalAltsTaut(alts);
    case Opt(inner) => CanonicalTaut(inner);
    case Star(inner) => CanonicalTaut(inner);
    case Plus(inner) => CanonicalTaut(inner);
    case Rep(_, _, inner) =>
      OperatorUnsettled(el);
      CanonicalTaut(inner);
    case _ =>
  }

  lemma {:induction false} CanonicalSeqTaut(els: seq<Element>)
    requires CanonicalSeq(els)
    ensures FindSeq(els, Unsettled).None?
    decreases els, 1
  {
    hide Canonical, Find, Unsettled;
    if els != [] {
      CanonicalTaut(els[0]);
      CanonicalSeqTaut(els[1..]);
    }
  }

  lemma {:induction false} CanonicalAltsTaut(alts: seq<Sequence>)
    requires CanonicalAlts(alts)
    ensures FindAlts(alts, Unsettled).None?
    decreases alts, 2
  {
    hide CanonicalSeq, FindSeq, Unsettled;
    CanonicalSeqTaut(alts[0].els);
    if |alts| > 1 {
      CanonicalAltsTaut(alts[1..]);
    } else {
      assert alts[1..] == [] && FindAlts([], Unsettled) == None;
    }
  }

  lemma {:induction false} CanonicalProdsTaut(ps: seq<Production>)
    requires CanonicalProds(ps)
    ensures FindProds(ps, Unsettled).None?
  {
    hide CanonicalAlts, FindAlts, LegalName, Unsettled;
    if ps != [] {
      CanonicalAltsTaut(ps[0].alts);
      CanonicalProdsTaut(ps[1..]);
    }
  }

  // ---- the second text

  lemma PlanLexes(cased: char -> bool, ps: seq<Production>, start: Option<string>)
    requires RenderGbnf(cased, ps, start).Ok?
    ensures var plan := PlanProds(Rooted(ps, start));
            RenderGbnf(cased, ps, start).value == ProdsText(plan) && Lex(ProdsText(plan)) == Some(YieldProds(plan)) && PlacedProds(plan)
  {
    hide RenderGbnf, RenderLines, PlanProds, ReadProds, SpeltProds, StrictProds, BuildProds, Lex, FindProds,
      ProdsText, YieldProds, PlacedProds, LegalName;
    var g := Rooted(ps, start);
    RenderedLines(cased, ps, start);
    RenderedText(cased, ps, start);
    ProdsRead(cased, g);
    ProdsLexes(PlanProds(g));
    StrictPlaced(PlanProds(g));
  }

  /** Text that is read back renders to itself, exactly when the grammar holds no repetition with a
      shorter spelling and no class that is read as one with another text. */
  lemma TextStable(cased: char -> bool, ps: seq<Production>, start: Option<string>, again: Option<string>)
    requires RenderGbnf(cased, ps, start).Ok? && ParseGbnf(false, RenderGbnf(cased, ps, start).value).Ok?
    ensures var text := RenderGbnf(cased, ps, start).value; var back := ParseGbnf(false, text).value;
            && RenderGbnf(cased, back, again).Ok?
            && (RenderGbnf(cased, back, again).value == text <==> FindProds(Rooted(ps, start), Unsettled).None?)
  {
    hide ParseGbnf, RenderGbnf, ReadProds, CanonicalProds, Resolved, RenderLines, PlanProds, FindProds, ProdsText,
      YieldProds, PlacedProds, TautProds, Lex, Check, LegalName;
    var g := Rooted(ps, start);
    var n := ReadProds(g);
    ReadsExactly(cased, ps, start);
    ParsesCanonical(false, RenderGbnf(cased, ps, start).value);
    ParsedRenders(cased, n, again);
    PlanLexes(cased, ps, start);
    PlanLexes(cased, n, again);
    RenderedLines(cased, ps, start);
    RenderedLines(cased, n, again);
    CanonicalProdsTaut(n);
    PlanProdsTaut(cased, g);
    PlanProdsTaut(cased, n);
    if FindProds(g, Unsettled).None? { ReadProdsPlan(cased, g); }
    if ProdsText(PlanProds(n)) == ProdsText(PlanProds(g)) { Unambiguous(PlanProds(n), PlanProds(g)); }
  }
}
