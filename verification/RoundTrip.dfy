/** Rendering, then parsing: the grammar comes back in its normal form, exactly when the notation
    can carry it. */
module RoundTrip {
  import opened Text
  import opened Ir
  import opened Terminals
  import opened Spelling
  import opened Postfix
  import opened Lexer
  import opened Derivation
  import opened Table
  import opened Build
  import opened Render
  import opened Spelled
  import opened Validate
  import opened FrontEnd
  import opened Plan
  import opened Reading
  import opened Normal

  // ---- the grammar that is written: `root` added where it is missing

  function StartOf(ps: seq<Production>, start: Option<string>): (s: string)
    requires ps != []
  {
    if start.Some? then start.value else ps[0].name
  }

  function RootFor(start: string): (p: Production) { Production(ROOT, [Sequence([Ref(start)])]) }

  function Rooted(ps: seq<Production>, start: Option<string>): (r: seq<Production>) {
    if ps == [] || ROOT in Names(ps) then ps else [RootFor(StartOf(ps, start))] + ps
  }

  lemma RootLines(cased: char -> bool, start: string)
    requires LegalName(start)
    ensures RenderAltTexts(cased, [Sequence([Ref(start)])], ROOT) == Ok([start])
  {
    var els := [Ref(start)];
    assert els[1..] == [];
    assert RenderParts(cased, [], ROOT) == Ok([]);
    assert RenderElement(cased, els[0], ROOT) == Ok(Some(Fragment(start, AtomForm)));
    assert [start] + [] == [start];
    assert RenderParts(cased, els, ROOT) == Ok([start]);
    var alts := [Sequence(els)];
    assert alts[1..] == [];
    assert RenderAltTexts(cased, [], ROOT) == Ok([]);
    assert Join([start], " ") == start;
  }

  /** The renderer writes the lines of the rooted grammar. */
  lemma RenderedLines(cased: char -> bool, ps: seq<Production>, start: Option<string>)
    requires RenderGbnf(cased, ps, start).Ok?
    ensures var g := Rooted(ps, start);
            && Distinct(Names(g)) && (forall i :: 0 <= i < |g| ==> LegalName(g[i].name)) && ROOT in Names(g)
            && RenderLines(cased, g).Ok?
            && RenderGbnf(cased, ps, start).value == Join(RenderLines(cased, g).value, "\n") + "\n"
  {
    hide RenderAltTexts, Join, LegalName;
    NamesPass(Names(ps), {});
    var g := Rooted(ps, start);
    if ROOT in Names(ps) {
      assert [] + RenderLines(cased, ps).value == RenderLines(cased, ps).value;
    } else {
      var s := StartOf(ps, start);
      assert LegalName(s);
      RootLines(cased, s);
      JoinOne(s, " | ");
      assert g[1..] == ps;
      assert Names(g)[0] == ROOT;
      assert forall i :: 0 < i < |g| ==> g[i] == ps[i - 1] && Names(g)[i] == Names(ps)[i - 1];
      RootLegal();
    }
  }

  lemma JoinOne(s: string, sep: string)
    ensures Join([s], sep) == s
  {
  }

  lemma RootLegal()
    ensures LegalName(ROOT)
  {
  }

  /** The rendered text is the spelling of the rooted grammar's plan. */
  lemma RenderedText(cased: char -> bool, ps: seq<Production>, start: Option<string>)
    requires RenderGbnf(cased, ps, start).Ok?
    ensures RenderGbnf(cased, ps, start).value == ProdsText(PlanProds(Rooted(ps, start)))
  {
    hide RenderLines, Join, RenderGbnf, ProdsText, PlanProds, LegalName, Distinct;
    RenderedLines(cased, ps, start);
    LinesSpell(cased, Rooted(ps, start));
  }

  // ---- references and tokenizer terminals survive normalisation, or their absence does

  ghost predicate Marks(p: Element -> bool) {
    forall x :: p(x) ==> x.Ref? || x.TokTerm?
  }

  lemma {:induction false} FindSeqConcat(a: seq<Element>, b: seq<Element>, p: Element -> bool)
    ensures FindSeq(a + b, p).None? <==> FindSeq(a, p).None? && FindSeq(b, p).None?
  {
    if a == [] {
      assert a + b == b;
    } else {
      assert (a + b)[1..] == a[1..] + b;
      FindSeqConcat(a[1..], b, p);
    }
  }

  lemma FindSeqOne(el: Element, p: Element -> bool)
    ensures FindSeq([el], p) == Find(el, p)
  {
    assert [el][1..] == [];
    assert FindSeq([], p) == None;
  }

  lemma {:induction false} FindPieces(ps: seq<Piece>, p: Element -> bool)
    requires AllLetters(ps) && Marks(p)
    ensures FindSeq(PieceElements(ps), p).None?
  {
    if ps != [] {
      FindPieces(ps[1..], p);
      assert PieceElements(ps)[1..] == PieceElements(ps[1..]);
    }
  }

  lemma FindWhole(els: seq<Element>, p: Element -> bool)
    requires Marks(p)
    ensures Find(Whole(els), p).None? <==> FindSeq(els, p).None?
  {
    if |els| == 1 {
      assert els == [els[0]];
      FindSeqOne(els[0], p);
    } else {
      var alts := [Sequence(els)];
      assert alts[1..] == [] && FindAlts([], p) == None;
      assert FindAlts(alts, p) == FindSeq(els, p);
    }
  }

  lemma FindApplied(el: Element, op: Op, p: Element -> bool)
    requires Marks(p) && ApplyOp(el, op).Some?
    ensures Find(ApplyOp(el, op).value, p).None? <==> Find(el, p).None?
  {
  }

  lemma {:induction false} FindRead(el: Element, p: Element -> bool)
    requires Marks(p)
    ensures FindSeq(ReadOf(el), p).None? <==> Find(el, p).None?
    decreases el, 0
  {
    hide ApplyOp, ReadClassPattern, EmitClass, FlagsFor, Decoded;
    match el
    case Term(literal, caseSensitive) =>
      if literal != "" && !caseSensitive { FindPieces(Pieces(literal, ""), p); }
      else if literal != "" { FindSeqOne(el, p); }
    case Ref(_) => FindSeqOne(el, p);
    case Regex(_, _) => FindSeqOne(ReadOf(el)[0], p);
    case Group(alts) =>
      FindReadAlts(alts, p);
      FindSeqOne(Group(ReadAlts(alts)), p);
    case TokTerm(_, _) => FindSeqOne(el, p);
    case TokenRef(_) => FindSeqOne(el, p);
    case Prose(_) => FindSeqOne(el, p);
    case _ =>
      FindRead(el.inner, p);
      FindWhole(ReadOf(el.inner), p);
      var whole := Whole(ReadOf(el.inner));
      if ApplyOp(whole, OperatorOf(el)).Some? {
        FindApplied(whole, OperatorOf(el), p);
        FindSeqOne(ApplyOp(whole, OperatorOf(el)).value, p);
      } else {
        FindSeqOne(el, p);
      }
  }

  lemma {:induction false} FindReadSeq(els: seq<Element>, p: Element -> bool)
    requires Marks(p)
    ensures FindSeq(ReadSeq(els), p).None? <==> FindSeq(els, p).None?
    decreases els, 1
  {
    hide Find, ReadOf;
    if els != [] {
      FindRead(els[0], p);
      FindReadSeq(els[1..], p);
      FindSeqConcat(ReadOf(els[0]), ReadSeq(els[1..]), p);
    }
  }

  lemma {:induction false} FindReadAlts(alts: seq<Sequence>, p: Element -> bool)
    requires Marks(p)
    ensures FindAlts(ReadAlts(alts), p).None? <==> FindAlts(alts, p).None?
    decreases alts, 2
  {
    hide FindSeq, ReadSeq;
    NothingFound(p);
    if alts == [] {
      assert ReadAlts(alts)[1..] == [];
    } else {
      FindReadSeq(alts[0].els, p);
      if |alts| > 1 {
        FindReadAlts(alts[1..], p);
        assert ReadAlts(alts)[1..] == ReadAlts(alts[1..]);
      } else {
        assert alts[1..] == [] && ReadAlts(alts)[1..] == [];
      }
    }
  }

  lemma NothingFound(p: Element -> bool)
    ensures FindSeq([], p).None? && FindAlts([], p).None?
  {
  }

  lemma {:induction false} FindReadProds(ps: seq<Production>, p: Element -> bool)
    requires Marks(p)
    ensures FindProds(ReadProds(ps), p).None? <==> FindProds(ps, p).None?
  {
    hide FindAlts, ReadAlts;
    if ps != [] {
      FindReadAlts(ps[0].alts, p);
      FindReadProds(ps[1..], p);
      assert ReadProds(ps)[1..] == ReadProds(ps[1..]);
    }
  }

  lemma {:induction false} NoTokRendered(cased: char -> bool, el: Element, rule: string)
    requires RenderElement(cased, el, rule).Ok?
    ensures Find(el, (el: Element) => el.TokTerm?).None?
    decreases el, 0
  {
    hide ReadClassPattern, QuoteLiteral, OpText, Join, InsensitiveFragments, RenderClass, LegalName;
    match el
    case Group(alts) => NoTokAlts(cased, alts, rule);
    case Opt(inner) => NoTokRendered(cased, inner, rule);
    case Star(inner) => NoTokRendered(cased, inner, rule);
    case Plus(inner) => NoTokRendered(cased, inner, rule);
    case Rep(_, _, inner) => NoTokRendered(cased, inner, rule);
    case _ =>
  }

  lemma {:induction false} NoTokParts(cased: char -> bool, els: seq<Element>, rule: string)
    requires RenderParts(cased, els, rule).Ok?
    ensures FindSeq(els, (el: Element) => el.TokTerm?).None?
    decreases els, 1
  {
    hide RenderElement, Find;
    if els != [] {
      NoTokRendered(cased, els[0], rule);
      NoTokParts(cased, els[1..], rule);
    }
  }

  lemma {:induction false} NoTokAlts(cased: char -> bool, alts: seq<Sequence>, rule: string)
    requires RenderAltTexts(cased, alts, rule).Ok?
    ensures FindAlts(alts, (el: Element) => el.TokTerm?).None?
    decreases alts, 2
  {
    hide RenderParts, FindSeq, Join;
    if alts != [] {
      NoTokParts(cased, alts[0].els, rule);
      NoTokAlts(cased, alts[1..], rule);
    }
  }

  lemma {:induction false} NoTokLines(cased: char -> bool, ps: seq<Production>)
    requires RenderLines(cased, ps).Ok?
    ensures FindProds(ps, (el: Element) => el.TokTerm?).None?
  {
    hide RenderAltTexts, FindAlts, Join;
    if ps != [] {
      NoTokAlts(cased, ps[0].alts, ps[0].name);
      NoTokLines(cased, ps[1..]);
    }
  }

  // ---- the round trip

  /** Every reference names a production. */
  predicate Resolved(ps: seq<Production>) {
    FindProds(ps, (el: Element) => Dangles(Names(ps), el)).None?
  }

  /** What a grammar needs to be carried by its own text. */
  predicate Carried(ps: seq<Production>) { SaneProds(ps) && Resolved(ps) }

  lemma CheckUnfolds(ps: seq<Production>, tok: Element -> bool, ref: Element -> bool)
    requires tok == ((el: Element) => el.TokTerm?) && ref == ((el: Element) => Dangles(Names(ps), el))
    requires FindProds(ps, tok).None? && ROOT in Names(ps)
    ensures Check(ps).None? <==> FindProds(ps, ref).None?
  {
    FindProdsExact(ps, ref);
    hide FindProds;
  }

  lemma ReadChecks(cased: char -> bool, g: seq<Production>)
    requires RenderLines(cased, g).Ok? && ROOT in Names(g)
    ensures Check(ReadProds(g)).None? <==> Resolved(g)
  {
    hide RenderLines, FindProds, ReadProds;
    NoTokLines(cased, g);
    var n := ReadProds(g);
    var tok := (el: Element) => el.TokTerm?;
    var ref := (el: Element) => Dangles(Names(g), el);
    FindReadProds(g, tok);
    FindReadProds(g, ref);
    FindProdsExact(n, ref);
    assert Names(n) == Names(g);
    CheckUnfolds(n, tok, ref);
  }

  /** A grammar whose text can be read: no class text and no count in it is refused. */
  predicate Legible(ps: seq<Production>) { FindProds(ps, Illegible).None? }

  /** Reading back is exact for every grammar the renderer answers: its text is read if and only if
      it is legible and its references resolve, and `ReadProds` is what it is read as. */
  lemma ReadsExactly(cased: char -> bool, ps: seq<Production>, start: Option<string>)
    requires RenderGbnf(cased, ps, start).Ok?
    ensures var g := Rooted(ps, start); var back := ParseGbnf(false, RenderGbnf(cased, ps, start).value);
            && (back.Ok? <==> Legible(g) && Resolved(g))
            && (back.Ok? ==> back == Ok(ReadProds(g)))
  {
    hide RenderLines, Lex, ParseTokens, ProdsText, PlanProds, BuildProds, SpeltProds, StrictProds, ReadProds, Check, Dedupe,
      FindProds, Resolved, LegalName, Join, RenderGbnf;
    var g := Rooted(ps, start);
    RenderedLines(cased, ps, start);
    RenderedText(cased, ps, start);
    ProdsRead(cased, g);
    if Legible(g) {
      SpelledParses(PlanProds(g), ReadProds(g));
      DedupeDistinct(ReadProds(g));
      ReadChecks(cased, g);
      assert ReadProds(g) != [];
    } else {
      SpelledRefused(false, PlanProds(g));
    }
  }

  /** Rendering and reading back a grammar the notation can carry gives its normal form. */
  lemma RendersAndReads(cased: char -> bool, ps: seq<Production>, start: Option<string>)
    requires RenderGbnf(cased, ps, start).Ok? && Carried(Rooted(ps, start))
    ensures ParseGbnf(false, RenderGbnf(cased, ps, start).value) == Ok(NormProds(Rooted(ps, start)))
  {
    hide ParseGbnf, RenderGbnf, ReadProds, NormProds, SaneProds, Resolved, FindProds;
    ReadsExactly(cased, ps, start);
    SaneProdsRead(Rooted(ps, start));
  }
}
