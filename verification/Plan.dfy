/** The tree the renderer's text is the spelling of, and what that tree is worth: the bridge
    between rendering and reading. */
module Plan {
  import opened Text
  import opened Ir
  import opened Terminals
  import opened Spelling
  import opened Postfix
  import opened Lexer
  import opened Derivation
  import opened TableProof
  import opened Build
  import opened Render
  import opened Spelled

  /** A terminal without an operator. */
  function Bare(tok: Token): (e: ElemTree) { ElemTree(Leaf(tok), None) }

  function PieceTree(p: Piece): (e: ElemTree)
    requires p.Letter? ==> IsLetter(p.c)
  {
    Bare(if p.Letter? then CC(PieceText(p)) else GS(PieceText(p)))
  }

  function PieceTrees(ps: seq<Piece>): (es: seq<ElemTree>)
    requires AllLetters(ps)
    ensures |es| == |ps| && forall i :: 0 <= i < |ps| ==> es[i] == PieceTree(ps[i])
  {
    seq(|ps|, i requires 0 <= i < |ps| => PieceTree(ps[i]))
  }

  /** An operator after what it repeats: added to a lone element's run, or after parentheses. */
  function PostTree(inner: seq<ElemTree>, op: Op): (e: ElemTree) {
    if |inner| == 1 then
      ElemTree(inner[0].atom, Some((if inner[0].post.Some? then inner[0].post.value else "") + OpText(op)))
    else ElemTree(Paren([SeqTree(inner)], true), Some(OpText(op)))
  }

  /** The elements an IR element is written as. */
  function PlanOf(el: Element): (es: seq<ElemTree>)
    decreases el, 0
  {
    match el
    case Term(literal, caseSensitive) =>
      if literal == "" then []
      else if caseSensitive then [Bare(GS(QuoteLiteral(literal)))]
      else PieceTrees(Pieces(literal, ""))
    case Ref(name) => [Bare(NM(name))]
    case Regex(pattern, _) =>
      if pattern == ANY_PATTERN then [Bare(DOT)]
      else (match ReadClassPattern(pattern)
        case None => []
        case Some(c) => [Bare(CC(ClassText(c)))])
    case Group(alts) => [ElemTree(Paren(PlanAlts(alts), true), None)]
    case TokTerm(_, _) => []
    case TokenRef(_) => []
    case Prose(_) => []
    case _ => [PostTree(PlanOf(el.inner), OperatorOf(el))]
  }

  function PlanSeq(els: seq<Element>): (es: seq<ElemTree>)
    decreases els, 1
  {
    if els == [] then [] else PlanOf(els[0]) + PlanSeq(els[1..])
  }

  /** No alternatives are written as one empty alternative is. */
  function PlanAlts(alts: seq<Sequence>): (trees: seq<SeqTree>)
    ensures trees != []
    decreases alts, 2
  {
    if alts == [] then [SeqTree([])]
    else [SeqTree(PlanSeq(alts[0].els))] + if |alts| == 1 then [] else PlanAlts(alts[1..])
  }

  function PlanProds(ps: seq<Production>): (ts: seq<ProdTree>) {
    if ps == [] then [] else [ProdTree(ps[0].name, PlanAlts(ps[0].alts))] + PlanProds(ps[1..])
  }

  // ---- the renderer spells its plan

  lemma SeqTextOne(e: ElemTree)
    ensures SeqText([e]) == ElemText(e)
  {
  }

  lemma {:induction false} SeqTextConcat(a: seq<ElemTree>, b: seq<ElemTree>)
    requires a != [] && b != []
    ensures SeqText(a + b) == SeqText(a) + " " + SeqText(b)
  {
    hide ElemText;
    var all := a + b;
    if |a| == 1 {
      assert all[1..] == b;
    } else {
      assert all[1..] == a[1..] + b;
      SeqTextConcat(a[1..], b);
      assert all[0] == a[0];
      var h := ElemText(a[0]);
      assert h + (" " + (SeqText(a[1..]) + " " + SeqText(b))) == (h + (" " + SeqText(a[1..]))) + " " + SeqText(b);
    }
  }

  lemma {:induction false} PiecesJoin(ps: seq<Piece>)
    requires AllLetters(ps)
    ensures Join(PieceTexts(ps), " ") == SeqText(PieceTrees(ps))
  {
    hide PieceText;
    if ps != [] {
      PiecesJoin(ps[1..]);
      assert PieceTexts(ps)[1..] == PieceTexts(ps[1..]);
      assert PieceTrees(ps)[1..] == PieceTrees(ps[1..]);
      assert ElemText(PieceTree(ps[0])) == PieceText(ps[0]) + "" == PieceText(ps[0]);
      if |ps| > 1 {
        var h, t := PieceText(ps[0]), SeqText(PieceTrees(ps[1..]));
        assert h + " " + t == h + (" " + t);
      }
    }
  }

  /** What a rendered fragment says of the plan: the same text, and one element or several. */
  predicate Spells(frag: Option<Fragment>, plan: seq<ElemTree>) {
    match frag
    case None => plan == []
    case Some(f) => plan != [] && f.text == SeqText(plan) && (f.form.SeqForm? <==> |plan| > 1)
  }

  lemma GroupText(inner: seq<ElemTree>)
    ensures AltsText([SeqTree(inner)]) == SeqText(inner)
  {
    hide SeqText;
    assert SeqText(inner) + "" == SeqText(inner);
  }

  lemma PostTreeText(inner: seq<ElemTree>, op: Op)
    requires inner != []
    ensures SeqText([PostTree(inner, op)]) ==
            (if |inner| > 1 then "(" + SeqText(inner) + ")" else SeqText(inner)) + OpText(op)
  {
    hide OpText, SeqText, ElemText;
    SeqTextOne(PostTree(inner, op));
    if |inner| == 1 {
      assert inner == [inner[0]];
      LoneText(inner[0], op);
    } else {
      GroupedText(inner, op);
    }
  }

  lemma GroupedText(inner: seq<ElemTree>, op: Op)
    ensures ElemText(ElemTree(Paren([SeqTree(inner)], true), Some(OpText(op)))) == "(" + SeqText(inner) + ")" + OpText(op)
  {
    hide OpText, SeqText, AltsText, AtomText;
    GroupText(inner);
    ParenText([SeqTree(inner)]);
  }

  lemma LoneText(e: ElemTree, op: Op)
    ensures ElemText(PostTree([e], op)) == SeqText([e]) + OpText(op)
  {
    hide OpText, SeqText, AtomText;
    SeqTextOne(e);
    Assoc(AtomText(e.atom), if e.post.Some? then e.post.value else "", OpText(op));
  }

  lemma ParenText(alts: seq<SeqTree>)
    ensures AtomText(Paren(alts, true)) == "(" + AltsText(alts) + ")"
  {
  }

  lemma {:induction false} ElementSpells(cased: char -> bool, el: Element, rule: string)
    requires RenderElement(cased, el, rule).Ok?
    ensures Spells(RenderElement(cased, el, rule).value, PlanOf(el))
    decreases el, 0
  {
    hide SeqText, AltsText, ReadClassPattern, OpText, QuoteLiteral, ClassText;
    match el
    case Term(literal, caseSensitive) =>
      if literal != "" {
        if caseSensitive {
          SeqTextOne(Bare(GS(QuoteLiteral(literal))));
          assert QuoteLiteral(literal) + "" == QuoteLiteral(literal);
        } else {
          var ps := Pieces(literal, "");
          PiecesJoin(ps);
          if |ps| == 1 { assert PieceTexts(ps) == [PieceText(ps[0])]; }
        }
      }
    case Ref(name) =>
      SeqTextOne(Bare(NM(name)));
      assert name + "" == name;
    case Regex(pattern, _) =>
      SeqTextOne(PlanOf(el)[0]);
      assert ElemText(PlanOf(el)[0]) == TokenText(PlanOf(el)[0].atom.tok) + "";
    case Group(alts) =>
      AltsSpell(cased, alts, rule);
      SeqTextOne(PlanOf(el)[0]);
      assert ElemText(PlanOf(el)[0]) == "(" + AltsText(PlanAlts(alts)) + ")" + "";
    case TokTerm(_, _) =>
    case TokenRef(_) =>
    case Prose(_) =>
    case _ =>
      ElementSpells(cased, el.inner, rule);
      PostTreeText(PlanOf(el.inner), OperatorOf(el));
  }

  lemma {:induction false} PartsSpell(cased: char -> bool, els: seq<Element>, rule: string)
    requires RenderParts(cased, els, rule).Ok?
    ensures var parts := RenderParts(cased, els, rule).value;
            Join(parts, " ") == SeqText(PlanSeq(els)) && (parts == [] <==> PlanSeq(els) == [])
    decreases els, 1
  {
    hide RenderElement, PlanOf;
    if els != [] {
      ElementSpells(cased, els[0], rule);
      PartsSpell(cased, els[1..], rule);
      var frag := RenderElement(cased, els[0], rule).value;
      var parts := RenderParts(cased, els[1..], rule).value;
      var plan, rest := PlanOf(els[0]), PlanSeq(els[1..]);
      if frag.None? {
        assert [] + parts == parts && plan + rest == rest;
      } else if parts == [] {
        assert [frag.value.text] + parts == [frag.value.text] && plan + rest == plan;
      } else {
        assert ([frag.value.text] + parts)[1..] == parts;
        SeqTextConcat(plan, rest);
      }
    }
  }

  lemma NothingSpelt()
    ensures AltsText([SeqTree([])]) == ""
  {
  }

  lemma {:induction false} AltsSpell(cased: char -> bool, alts: seq<Sequence>, rule: string)
    requires RenderAltTexts(cased, alts, rule).Ok?
    ensures var texts := RenderAltTexts(cased, alts, rule).value;
            Join(texts, " | ") == AltsText(PlanAlts(alts)) && |texts| == |alts|
    decreases alts, 2
  {
    hide RenderParts, PlanSeq, SeqText;
    if alts == [] {
      NothingSpelt();
    } else {
      PartsSpell(cased, alts[0].els, rule);
      AltsSpell(cased, alts[1..], rule);
      var parts := RenderParts(cased, alts[0].els, rule).value;
      var texts := RenderAltTexts(cased, alts[1..], rule).value;
      var h := SeqText(PlanSeq(alts[0].els));
      assert ([Join(parts, " ")] + texts)[1..] == texts;
      if |alts| > 1 {
        assert PlanAlts(alts)[1..] == PlanAlts(alts[1..]);
        assert h + " | " + AltsText(PlanAlts(alts[1..])) == h + (" | " + AltsText(PlanAlts(alts[1..])));
      } else {
        assert alts[1..] == [];
        GroupText(PlanSeq(alts[0].els));
      }
    }
  }

  lemma {:induction false} LinesSpell(cased: char -> bool, ps: seq<Production>)
    requires RenderLines(cased, ps).Ok?
    ensures var lines := RenderLines(cased, ps).value;
            |lines| == |ps| && (ps != [] ==> Join(lines, "\n") + "\n" == ProdsText(PlanProds(ps)))
  {
    hide RenderAltTexts, PlanAlts, AltsText;
    if ps != [] {
      AltsSpell(cased, ps[0].alts, ps[0].name);
      LinesSpell(cased, ps[1..]);
      var texts := RenderAltTexts(cased, ps[0].alts, ps[0].name).value;
      var line, rest := Line(ps[0].name, Join(texts, " | ")), RenderLines(cased, ps[1..]).value;
      assert ([line] + rest)[1..] == rest;
      assert ([ProdTree(ps[0].name, PlanAlts(ps[0].alts))] + PlanProds(ps[1..]))[1..] == PlanProds(ps[1..]);
      if |ps| == 1 {
        assert PlanProds(ps[1..]) == [];
        assert line + "\n" + "" == line + "\n";
      } else {
        assert line + "\n" + Join(rest, "\n") + "\n" == line + "\n" + (Join(rest, "\n") + "\n");
      }
    }
  }
}
