/** Inputs on which a documented property fails, one for each condition the theorems carry. */
module Findings {
  import opened Text
  import opened Ir
  import opened Terminals
  import opened Spelling
  import opened Postfix
  import opened Lexer
  import opened Derivation
  import opened Table
  import opened TableProof
  import opened Build
  import opened Render
  import opened Spelled
  import opened Validate
  import opened FrontEnd
  import opened Plan
  import opened Reading
  import opened Normal
  import opened RoundTrip
  import opened Image
  import opened FixedPoint
  import opened Stable
  import opened Language

  /** `root ::= ` and one element. */
  function RootOf(el: Element): (ps: seq<Production>) { [Production(ROOT, [Sequence([el])])] }

  function RootTree(es: seq<ElemTree>): (ts: seq<ProdTree>) { [ProdTree(ROOT, [SeqTree(es)])] }

  // ---- reading a source whose derivation is known

  lemma OneTree(es: seq<ElemTree>, tail: bool)
    requires PlacedSeq(es, true)
    ensures PlacedProds(RootTree(es)) && YieldProds(RootTree(es)) == [NM(ROOT), DEF] + YieldSeq(es)
    ensures BuildProds(RootTree(es)) ==
            match BuildSeq(es) case None => None case Some(els) => Some([Production(ROOT, [Sequence(els)])])
  {
    hide PlacedSeq, YieldSeq, BuildSeq;
    var ts, alts := RootTree(es), [SeqTree(es)];
    assert ts[1..] == [] && alts[1..] == [];
    assert YieldProds([]) == [] && PlacedProds([]) && BuildProds([]) == Some([]) && BuildAlts([]) == Some([]);
    assert YieldAlts(alts) == YieldSeq(es) + [];
    if BuildSeq(es).Some? {
      assert BuildAlts(alts) == Prepend([Sequence(BuildSeq(es).value)], BuildAlts([]));
      assert BuildProds(ts) == Prepend([Production(ROOT, BuildAlts(alts).value)], BuildProds([]));
      var v := [Sequence(BuildSeq(es).value)];
      assert v + [] == v && [Production(ROOT, v)] + [] == [Production(ROOT, v)];
    }
  }

  /** A source of one rule, with a derivation of its tokens. */
  lemma ReadsAs(src: string, es: seq<ElemTree>)
    requires Lex(src) == Some([NM(ROOT), DEF] + YieldSeq(es)) && PlacedSeq(es, true)
    ensures BuildSeq(es).Some? && Check([Production(ROOT, [Sequence(BuildSeq(es).value)])]).None? ==>
              ParseGbnf(false, src) == Ok([Production(ROOT, [Sequence(BuildSeq(es).value)])])
    ensures BuildSeq(es).None? ==> ParseGbnf(false, src).Err?
  {
    hide Lex, ParseTokens, PlacedProds, YieldProds, BuildProds, PlacedSeq, YieldSeq, BuildSeq, Check, Dedupe;
    var ts := Lex(src).value;
    OneTree(es, true);
    if BuildSeq(es).Some? {
      var v := [Production(ROOT, [Sequence(BuildSeq(es).value)])];
      TableBuilds(false, ts, |src|, v);
      DedupeDistinct(v);
    } else if ParseTokens(false, ts, |src|).Ok? {
      var v := ParseTokens(false, ts, |src|).value;
      TableBuilds(false, ts, |src|, v);
      var ps :| PlacedProds(ps) && YieldProds(ps) == ts && BuildProds(ps) == Some(v);
      Unambiguous(ps, RootTree(es));
    }
  }

  // ---- an unclosed parenthesis

  /** Whatever stands in a parenthesis that is never closed builds nothing. */
  lemma UnclosedBuildsNothing(inner: seq<ElemTree>, els: seq<Element>)
    requires PlacedSeq(inner, true) && BuildSeq(inner) == Some(els)
    ensures var es := [ElemTree(Paren([SeqTree(inner)], false), None)];
            PlacedSeq(es, true) && YieldSeq(es) == [LP] + YieldSeq(inner) && BuildSeq(es) == Some([])
  {
    hide PlacedSeq, YieldSeq, BuildSeq;
    var alts := [SeqTree(inner)];
    assert alts[1..] == [] && BuildAlts([]) == Some([]);
    assert PlacedAlts(alts, true) && YieldAlts(alts) == YieldSeq(inner) + [];
    assert BuildAlts(alts) == Prepend([Sequence(els)], BuildAlts([]));
    OpenSeq(ElemTree(Paren(alts, false), None));
  }

  lemma OpenSeq(e: ElemTree)
    requires PlacedElem(e, true) && BuildElem(e) == Some(None)
    ensures PlacedSeq([e], true) && YieldSeq([e]) == YieldElem(e) && BuildSeq([e]) == Some([])
  {
    hide PlacedElem, YieldElem, BuildElem;
    var one := [e];
    assert one[0] == e && one[1..] == [] && YieldSeq([]) == [] && BuildSeq([]) == Some([]) && PlacedSeq([], true);
    assert YieldElem(e) + [] == YieldElem(e);
    var none: seq<Element> := ItemSeq(None);
    assert BuildSeq(one) == Prepend(none, BuildSeq([])) && none + [] == [];
  }

  lemma LexesOne(body: string, toks: seq<Token>)
    requires Lex(body) == Some(toks)
    ensures Lex("root ::= " + body) == Some([NM(ROOT), DEF] + toks)
  {
    hide Lex;
    RootLegal();
    LexDef(ROOT, body);
    assert "root ::= " + body == ROOT + (" ::= " + body);
  }

  lemma BareYield(tok: Token)
    ensures YieldSeq([Bare(tok)]) == [tok]
  {
    var one := [Bare(tok)];
    assert one[0] == Bare(tok) && one[1..] == [] && YieldSeq([]) == [];
    assert YieldElem(Bare(tok)) == [tok] + [];
  }

  /** A parenthesis left open at the end of the source is accepted, and takes what it holds with it. */
  lemma UnclosedParenthesis()
    ensures ParseGbnf(false, "root ::= (\"a\"") == Ok([Production(ROOT, [Sequence([])])])
  {
    hide Lex, ParseGbnf, PlacedSeq, YieldSeq, BuildSeq, Check, QuoteLiteral, Worth;
    var lit := QuoteLiteral("a");
    QuotedA();
    LexQuoted("a", "");
    LexNothing();
    LexFixed("(", lit, LP);
    assert lit + "" == lit && "(" + lit == "(\"a\"";
    assert [LP] + ([GS(lit)] + []) == [LP] + [GS(lit)];
    LexesOne("(" + lit, [LP] + [GS(lit)]);
    assert "root ::= " + ("(" + lit) == "root ::= (\"a\"";
    var inner := [Bare(GS(lit))];
    BareYield(GS(lit));
    LiteralWorth("a");
    WorthPlaced(inner, [Term("a", true)]);
    UnclosedBuildsNothing(inner, [Term("a", true)]);
    EmptyRoot();
    ReadsAs("root ::= (\"a\"", [ElemTree(Paren([SeqTree(inner)], false), None)]);
  }

  lemma QuotedA()
    ensures QuoteLiteral("a") == "\"a\""
  {
    assert "a"[1..] == "";
  }

  lemma WorthPlaced(plan: seq<ElemTree>, els: seq<Element>)
    requires Worth(plan, els)
    ensures PlacedSeq(plan, true) && BuildSeq(plan) == Some(els)
  {
    SeqMore(plan);
  }

  lemma EmptyRoot()
    ensures Check([Production(ROOT, [Sequence([])])]).None?
  {
    var ps := [Production(ROOT, [Sequence([])])];
    assert ps[1..] == [] && ps[0].alts[1..] == [];
    NothingInside(ps, (el: Element) => el.TokTerm?);
    NothingInside(ps, (el: Element) => Dangles(Names(ps), el));
    hide FindProds;
    assert Names(ps)[0] == ROOT;
  }

  lemma NothingInside(ps: seq<Production>, p: Element -> bool)
    requires ps == [Production(ROOT, [Sequence([])])]
    ensures FindProds(ps, p).None?
  {
    assert ps[1..] == [] && ps[0].alts[1..] == [];
    assert FindAlts([], p).None? && FindSeq([], p).None? && FindProds([], p).None?;
    assert FindAlts(ps[0].alts, p).None?;
  }

  // ---- one-element grammars

  lemma {:induction false} RootFind(el: Element, p: Element -> bool)
    ensures FindProds(RootOf(el), p).None? <==> Find(el, p).None?
  {
    hide Find;
    var els := [el];
    var alts := [Sequence(els)];
    var ps := RootOf(el);
    assert ps[1..] == [] && alts[1..] == [];
    FindSeqOne(el, p);
    assert FindAlts([], p).None? && FindProds([], p).None?;
    assert FindAlts(alts, p) == FindSeq(els, p);
  }

  lemma RootChecks(el: Element)
    requires Find(el, (x: Element) => x.TokTerm?).None? && Find(el, (x: Element) => x.Ref?).None?
    ensures Check(RootOf(el)).None?
  {
    var ps := RootOf(el);
    var tok, ref := (x: Element) => x.TokTerm?, (x: Element) => Dangles(Names(ps), x);
    RootFind(el, tok);
    RootFind(el, (x: Element) => x.Ref?);
    FewerFound(ps, (x: Element) => x.Ref?, ref);
    assert Names(ps)[0] == ROOT;
    CheckUnfolds(ps, tok, ref);
  }

  lemma LeafSeq(tok: Token, el: Element)
    requires IsLeaf(tok) && BuildLeaf(tok) == Some(Some(el))
    ensures PlacedSeq([Bare(tok)], true) && BuildSeq([Bare(tok)]) == Some([el])
  {
    hide BuildLeaf;
    var one := [Bare(tok)];
    assert one[0] == Bare(tok) && one[1..] == [] && BuildSeq([]) == Some([]) && PlacedSeq([], true);
    assert BuildElem(Bare(tok)) == Some(Some(el));
    assert BuildSeq(one) == Prepend(ItemSeq(Some(el)), BuildSeq([])) && ItemSeq(Some(el)) + [] == [el];
  }

  /** A source of one rule holding one class. */
  lemma ClassSource(body: string, c: Class)
    requires (forall i :: 0 <= i < |body| ==> body[i] != '\\' && body[i] != ']')
    requires DecodeClass("[" + body + "]") == Some(c) && ScalarClass(c)
    ensures ParseGbnf(false, "root ::= " + ("[" + body + "]")) == Ok(RootOf(Regex(EmitClass(c), FlagsFor(c))))
  {
    hide Lex, LexToken, Skipped, ParseGbnf, PlacedSeq, YieldSeq, BuildSeq, Check, DecodeClass, EmitClass, FlagsFor, Find;
    var raw := "[" + body + "]";
    var el := Regex(EmitClass(c), FlagsFor(c));
    PlainBalanced(body, ']');
    LexDelimited('[', body, ']', "");
    assert raw == ['['] + (body + [']']);
    LexStep(raw, "", CC(raw));
    LexNothing();
    assert raw + "" == raw && [CC(raw)] + [] == [CC(raw)];
    LexesOne(raw, [CC(raw)]);
    BareYield(CC(raw));
    LeafSeq(CC(raw), el);
    ClassFind(el);
    RootChecks(el);
    ReadsAs("root ::= " + raw, [Bare(CC(raw))]);
  }

  lemma ClassFind(el: Element)
    requires el.Regex?
    ensures Find(el, (x: Element) => x.TokTerm?).None? && Find(el, (x: Element) => x.Ref?).None?
  {
  }

  // ---- a range with equal ends

  lemma DecodesDoubled()
    ensures DecodeClass("[a-a]") == Some(Class(false, [Range(97, 97)]))
  {
    var t := "[a-a]"[1..];
    assert t == "a-a]";
    assert ReadChar(t) == Some(Read(97, 1));
    assert t[2..] == "a]" && ReadChar(t[2..]) == Some(Read(97, 1));
    assert ReadItem(t) == Some((Range(97, 97), 3));
    assert DecodeItems(t[3..]) == Some([]);
    assert DecodeItems(t) == Prepend([Range(97, 97)], DecodeItems(t[3..]));
    assert [Range(97, 97)] + [] == [Range(97, 97)];
  }

  /** `[a-a]` is read, and rendered as `[a]`: what is read back is not the grammar that was read. */
  lemma DoubledRange(cased: char -> bool, start: Option<string>)
    ensures var src := "root ::= [a-a]";
            && ParseGbnf(false, src).Ok?
            && RenderGbnf(cased, ParseGbnf(false, src).value, start).Ok?
            && ParseGbnf(false, RenderGbnf(cased, ParseGbnf(false, src).value, start).value) != ParseGbnf(false, src)
  {
    hide ParseGbnf, RenderGbnf, DecodeClass, EmitClass, ReadClassPattern, FindProds;
    var src, c := "root ::= [a-a]", Class(false, [Range(97, 97)]);
    var el := Regex(EmitClass(c), FlagsFor(c));
    DecodesDoubled();
    assert "[" + "a-a" + "]" == "[a-a]" && "root ::= " + "[a-a]" == src;
    ClassSource("a-a", c);
    EmittedReadsBack(c);
    assert c.items[0] in c.items && c.items[0].Range?;
    assert LoneRange(el);
    RootFind(el, LoneRange);
    Reproduces(cased, false, src, start);
  }

  // ---- bounds that cross

  /** A repetition whose upper bound is below its lower one is rendered, and its text is refused. */
  lemma CrossedBounds(cased: char -> bool)
    ensures var g := RootOf(Rep(2, Finite(1), Term("a", true)));
            RenderGbnf(cased, g, None).Ok? && ParseGbnf(false, RenderGbnf(cased, g, None).value).Err?
  {
    hide RenderGbnf, ParseGbnf, QuoteLiteral, OpText, FindProds;
    var el := Rep(2, Finite(1), Term("a", true));
    RootRenders(cased, el);
    RootFind(el, Illegible);
    assert Illegible(el);
    ReadsExactly(cased, RootOf(el), None);
  }

  lemma RootRenders(cased: char -> bool, el: Element)
    requires RenderElement(cased, el, ROOT).Ok?
    ensures RenderGbnf(cased, RootOf(el), None).Ok? && Rooted(RootOf(el), None) == RootOf(el)
    ensures RenderLines(cased, RootOf(el)).Ok?
  {
    hide RenderElement, Join, LegalName;
    var els := [el];
    var alts, ps := [Sequence(els)], RootOf(el);
    assert els[1..] == [] && alts[1..] == [] && ps[1..] == [];
    assert RenderParts(cased, [], ROOT) == Ok([]) && RenderAltTexts(cased, [], ROOT) == Ok([]) && RenderLines(cased, []) == Ok([]);
    assert RenderParts(cased, els, ROOT).Ok? && RenderAltTexts(cased, alts, ROOT).Ok?;
    assert Names(ps)[0] == ROOT;
    RootLegal();
    NamesPass(Names(ps), {});
  }

  lemma RootPlan(el: Element)
    ensures PlanProds(RootOf(el)) == RootTree(PlanOf(el))
  {
    hide PlanOf;
    var els := [el];
    var alts, ps := [Sequence(els)], RootOf(el);
    assert alts[1..] == [] && ps[1..] == [] && PlanProds([]) == [];
    PlanOne(el);
    assert PlanAlts(alts) == [SeqTree(PlanSeq(els))];
  }

  // ---- a class of surrogates

  lemma SurrogatesSpelled()
    ensures ClassText(Class(false, [Range(0xD800, 0xDFFF)])) == "[-]"
    ensures DecodeClass("[-]") == Some(Class(false, [One(45)]))
  {
    var its := [Range(0xD800, 0xDFFF)];
    assert its[1..] == [] && ItemsText([]) == "";
    assert ClassChar(0xD800) == "" && ClassChar(0xDFFF) == "";
    assert ItemText(its[0]) == "" + "-" + "" == "-";
    assert ItemsText(its) == ItemText(its[0]) + "" == "-";
    var t := "[-]"[1..];
    assert t == "-]";
    assert ReadItem(t) == Some((One(45), 1));
    assert DecodeItems(t[1..]) == Some([]);
    assert [One(45)] + [] == [One(45)];
  }

  /** The class of all surrogates is rendered as the class of a hyphen. */
  lemma SurrogateClass(cased: char -> bool)
    ensures var g := RootOf(Regex(EmitClass(Class(false, [Range(0xD800, 0xDFFF)])), ""));
            && RenderGbnf(cased, g, None) == Ok("root ::= [-]\n")
            && ParseGbnf(false, "root ::= [-]") == Ok(RootOf(Regex(EmitClass(Class(false, [One(45)])), "")))
  {
    hide EmitClass, ReadClassPattern, ParseGbnf, DecodeClass, ClassText;
    var c := Class(false, [Range(0xD800, 0xDFFF)]);
    var el := Regex(EmitClass(c), "");
    var g := RootOf(el);
    SurrogatesSpelled();
    assert Readable(c.items[0]);
    EmittedReadsBack(c);
    AnyIsNoClass();
    assert RenderElement(cased, el, ROOT) == Ok(Some(Fragment("[-]", AtomForm)));
    RootRenders(cased, el);
    RenderedText(cased, g, None);
    RootPlan(el);
    assert PlanOf(el) == [Bare(CC("[-]"))];
    SeqTextOne(Bare(CC("[-]")));
    assert "[-]" + "" == "[-]";
    RootText(PlanOf(el));
    assert "root ::= " + "[-]" + "\n" == "root ::= [-]\n";
    assert "[" + "-" + "]" == "[-]" && "root ::= " + "[-]" == "root ::= [-]";
    assert !Astral([One(45)]);
    ClassSource("-", Class(false, [One(45)]));
  }

  lemma RootText(es: seq<ElemTree>)
    ensures ProdsText(RootTree(es)) == "root ::= " + SeqText(es) + "\n"
  {
    hide SeqText;
    var ts, alts := RootTree(es), [SeqTree(es)];
    assert ts[1..] == [] && alts[1..] == [] && ProdsText([]) == "";
    assert AltsText(alts) == SeqText(es) + "" == SeqText(es);
    assert ROOT + " ::= " == "root ::= ";
    assert ROOT + " ::= " + SeqText(es) + "\n" + "" == "root ::= " + SeqText(es) + "\n";
  }

  lemma SurrogatesShift()
    ensures var el := Regex(EmitClass(Class(false, [Range(0xD800, 0xDFFF)])), "");
            Unsettled(el) && RenderClass(el.pattern, ROOT) == Ok(Fragment("[-]", AtomForm))
  {
    hide EmitClass, ReadClassPattern, DecodeClass, ClassText;
    var c := Class(false, [Range(0xD800, 0xDFFF)]);
    SurrogatesSpelled();
    assert Readable(c.items[0]);
    EmittedReadsBack(c);
    AnyIsNoClass();
    HyphenText();
    assert "[\\u002D]"[1] != "[-]"[1];
  }

  lemma HyphenText()
    ensures ClassText(Class(false, [One(45)])) == "[\\u002D]"
  {
    var its := [One(45)];
    assert its[1..] == [] && ItemsText([]) == "";
    assert ItemsText(its) == ClassChar(45) + "" == "\\u002D";
    assert "[" + "" + "\\u002D" + "]" == "[\\u002D]";
  }

  /** What is read from that text is rendered as another text. */
  lemma SurrogateTextChanges(cased: char -> bool)
    ensures var g := RootOf(Regex(EmitClass(Class(false, [Range(0xD800, 0xDFFF)])), ""));
            var text := RenderGbnf(cased, g, None);
            && text.Ok? && ParseGbnf(false, text.value).Ok?
            && RenderGbnf(cased, ParseGbnf(false, text.value).value, None) != text
  {
    hide EmitClass, ParseGbnf, RenderGbnf, Unsettled, Illegible, FindProds, Resolved, RenderClass;
    var el := Regex(EmitClass(Class(false, [Range(0xD800, 0xDFFF)])), "");
    SurrogatesShift();
    SurrogatesLegible();
    RootRenders(cased, el);
    RootFind(el, Unsettled);
    RootFind(el, Illegible);
    ClassFind(el);
    RootResolved(el);
    ReadsExactly(cased, RootOf(el), None);
    TextStable(cased, RootOf(el), None, None);
  }

  lemma SurrogatesLegible()
    ensures !Illegible(Regex(EmitClass(Class(false, [Range(0xD800, 0xDFFF)])), ""))
  {
    hide EmitClass, ReadClassPattern, DecodeClass, ClassText;
    var c := Class(false, [Range(0xD800, 0xDFFF)]);
    SurrogatesSpelled();
    assert Readable(c.items[0]);
    EmittedReadsBack(c);
  }

  lemma RootResolved(el: Element)
    requires Find(el, (x: Element) => x.Ref?).None?
    ensures Resolved(RootOf(el))
  {
    hide Find, FindProds;
    RootFind(el, (x: Element) => x.Ref?);
    FewerFound(RootOf(el), (x: Element) => x.Ref?, (x: Element) => Dangles(Names(RootOf(el)), x));
  }

  // ---- a class whose flags are not those it is read with

  const ALL_BUT_A: Class := Class(true, [One(97)])

  lemma AllButARead(flags: string)
    ensures var el := Regex(EmitClass(ALL_BUT_A), flags);
            && ReadClassPattern(el.pattern) == Some(ALL_BUT_A) && el.pattern != ANY_PATTERN
            && Sane(el) && NormOf(el) == [Regex(EmitClass(ALL_BUT_A), "u")]
  {
    hide EmitClass, ReadClassPattern;
    EmittedReadsBack(ALL_BUT_A);
    AnyIsNoClass();
    assert TightClass(ALL_BUT_A) == ALL_BUT_A;
  }

  /** `[^a]` without the `u` flag matches nothing past U+FFFF; rendered as `[^a]` it is read with the
      flag, and matches every such character. */
  lemma FlagsLost(cased: char -> bool, ch: char)
    requires 0xFFFF < ch as int
    ensures var g := RootOf(Regex(EmitClass(ALL_BUT_A), "")); var text := RenderGbnf(cased, g, None);
            && text.Ok? && ParseGbnf(false, text.value).Ok?
            && !Accepts(g, ROOT, [ch]) && Accepts(ParseGbnf(false, text.value).value, ROOT, [ch])
  {
    hide ParseGbnf, RenderGbnf, EmitClass, ReadClassPattern, Holds, Resolved, FindProds, ReadProds, In, NormOf, Sane;
    var el, back := Regex(EmitClass(ALL_BUT_A), ""), Regex(EmitClass(ALL_BUT_A), "u");
    var g, h := RootOf(el), RootOf(back);
    AllButARead("");
    assert RenderElement(cased, el, ROOT).Ok?;
    RootRenders(cased, el);
    ClassFind(el);
    RootResolved(el);
    SaneReads(el);
    RootRead(el, back);
    RootFind(el, Illegible);
    ReadsExactly(cased, g, None);
    AllButAMatches(ch);
    forall n: nat ensures !In(n, g, Ref(ROOT), [ch]) {
      RootMatches(n, g, el, [ch]);
      if n > 0 { OneCharacter(n - 1, g, EmitClass(ALL_BUT_A), "", ch); }
    }
    RootMatches(1, h, back, [ch]);
    OneCharacter(0, h, EmitClass(ALL_BUT_A), "u", ch);
  }

  lemma OneCharacter(n: nat, g: seq<Production>, pattern: string, flags: string, ch: char)
    ensures In(n, g, Regex(pattern, flags), [ch]) <==> Holds(pattern, flags, ch)
  {
    hide Holds;
  }

  lemma AllButAMatches(ch: char)
    requires 0xFFFF < ch as int
    ensures !Holds(EmitClass(ALL_BUT_A), "", ch) && Holds(EmitClass(ALL_BUT_A), "u", ch)
  {
    hide EmitClass, Holds;
    SameMode(EmitClass(ALL_BUT_A), "");
    assert 'u' !in "" && "u"[0] == 'u';
    EmittedHolds(ALL_BUT_A, ch);
  }

  // ---- a group without alternatives

  /** A group without alternatives accepts nothing; it is rendered as `()`, which accepts the
      empty string. */
  lemma EmptyGroup(cased: char -> bool, s: string)
    ensures var g := RootOf(Group([])); var text := RenderGbnf(cased, g, None);
            && text.Ok? && ParseGbnf(false, text.value).Ok?
            && !Accepts(g, ROOT, s) && Accepts(ParseGbnf(false, text.value).value, ROOT, "")
  {
    hide ParseGbnf, RenderGbnf, FindProds, ReadProds, Resolved;
    var el, back := Group([]), Group([Sequence([])]);
    var g := RootOf(el);
    assert Join([], " | ") == "" && RenderAltTexts(cased, [], ROOT) == Ok([]);
    RootRenders(cased, el);
    NothingFound(Illegible);
    NothingFound((x: Element) => x.Ref?);
    RootFind(el, Illegible);
    RootResolved(el);
    ReadsExactly(cased, g, None);
    RootRead(el, back);
    forall n: nat ensures !In(n, g, Ref(ROOT), s) { RootMatches(n, g, el, s); }
    RootMatches(1, RootOf(back), back, "");
  }

  lemma RootRead(el: Element, back: Element)
    requires ReadOf(el) == [back]
    ensures ReadProds(RootOf(el)) == RootOf(back)
  {
    hide ReadOf;
    var els := [el];
    var alts, ps := [Sequence(els)], RootOf(el);
    assert els[1..] == [] && ps[1..] == [] && ReadSeq([]) == [] && ReadProds([]) == [];
    assert ReadSeq(els) == [back] + [] == [back];
    assert ReadAlts(alts) == [Sequence([back])] + [] == [Sequence([back])];
  }

  /** `root` of a one-element grammar matches what the element matches. */
  lemma RootMatches(n: nat, g: seq<Production>, el: Element, s: string)
    requires g == RootOf(el)
    ensures In(n, g, Ref(ROOT), s) <==> n > 0 && In(n - 1, g, el, s)
  {
    hide InSeq;
    if n > 0 {
      var alts := [Sequence([el])];
      assert alts[1..] == [] && !InAlts(n - 1, g, [], s);
      assert InAlts(n - 1, g, alts, s) <==> InSeq(n - 1, g, alts[0].els, s);
      InSeqOne(n - 1, g, el, s);
    }
  }

  // ---- a dangling reference to `root`

  const KNOT: seq<Production> :=
    [Production("a", [Sequence([Ref(ROOT), Term("y", true)]), Sequence([Term("x", true)])])]

  const TIED: seq<Production> := [RootFor("a")] + KNOT

  /** A reference to `root` where there is none is rendered, and `root` is added as the start rule:
      the reference now means the start rule, and more strings are accepted. */
  lemma DanglingRoot(cased: char -> bool)
    ensures Captures(KNOT) && Carried(Rooted(KNOT, None))
    ensures var text := RenderGbnf(cased, KNOT, None);
            && text.Ok? && ParseGbnf(false, text.value) == Ok(TIED)
            && Accepts(TIED, ROOT, "xy") && !Accepts(KNOT, EntryOf(KNOT, None), "xy")
  {
    hide ParseGbnf, RenderGbnf, In, Resolved, SaneProds, NormProds;
    KnotRenders(cased);
    KnotCarried();
    KnotCaptures();
    RoundTripExact(cased, KNOT, None);
    forall n: nat ensures !In(n, KNOT, Ref("a"), "xy") { KnotRefuses(n); }
    TiedAccepts();
  }

  lemma KnotCaptures()
    ensures Captures(KNOT)
  {
    var p := KNOT[0];
    assert Names(KNOT) == ["a"];
    assert p.alts[0].els[0] == Ref(ROOT) && Captured(Ref(ROOT));
    assert Find(Ref(ROOT), Captured).Some?;
    assert FindSeq(p.alts[0].els, Captured).Some?;
    assert FindAlts(p.alts, Captured).Some?;
  }

  lemma KnotRenders(cased: char -> bool)
    ensures RenderGbnf(cased, KNOT, None).Ok? && Rooted(KNOT, None) == TIED
  {
    hide QuoteLiteral, Join, RenderLines;
    RootLegal();
    assert !(ROOT in Names(KNOT)) by { assert Names(KNOT)[0] == "a"; }
    assert Names(KNOT) == ["a"];
    NamesPass(Names(KNOT), {});
    KnotLines(cased);
  }

  lemma KnotElements(cased: char -> bool)
    ensures RenderElement(cased, Ref(ROOT), "a").Ok? && RenderElement(cased, Term("y", true), "a").Ok?
    ensures RenderElement(cased, Term("x", true), "a").Ok?
  {
    RootLegal();
  }

  lemma KnotLines(cased: char -> bool)
    ensures RenderLines(cased, KNOT).Ok?
  {
    hide RenderElement, Join;
    KnotElements(cased);
    var p := KNOT[0];
    var one, two := p.alts[0].els, p.alts[1].els;
    assert KNOT[1..] == [] && p.alts[1..] == [p.alts[1]] && p.alts[1..][1..] == [];
    assert one == [Ref(ROOT), Term("y", true)] && two == [Term("x", true)];
    assert one[1..] == [Term("y", true)] && one[1..][1..] == [] && two[1..] == [];
    assert RenderParts(cased, [], "a") == Ok([]);
    assert RenderParts(cased, one[1..], "a").Ok?;
    assert RenderParts(cased, one, "a").Ok? && RenderParts(cased, two, "a").Ok?;
    assert RenderAltTexts(cased, [], "a") == Ok([]);
    assert RenderAltTexts(cased, p.alts[1..], "a").Ok?;
    assert RenderAltTexts(cased, p.alts, "a").Ok?;
    assert RenderLines(cased, []) == Ok([]);
  }

  lemma KnotCarried()
    ensures Carried(TIED) && NormProds(TIED) == TIED
  {
    KnotCanonical();
    hide CanonicalAlts, NormAlts, TightAlts;
    KnotResolved();
    CanonicalProdsNorm(TIED);
    TightProdsSame(TIED);
    NormProdsSane(TIED);
  }

  lemma KnotResolved()
    ensures Resolved(TIED) && !Doubled(TIED)
  {
    var names := Names(TIED);
    assert names[0] == ROOT && names[1] == "a";
    KnotFind((el: Element) => Dangles(names, el));
    KnotFind(LoneRange);
  }

  lemma KnotFind(p: Element -> bool)
    requires !p(Ref(ROOT)) && !p(Ref("a")) && !p(Term("y", true)) && !p(Term("x", true))
    ensures FindProds(TIED, p).None?
  {
    var root, a := TIED[0], TIED[1];
    assert TIED[1..] == [a] && TIED[1..][1..] == [];
    var els := root.alts[0].els;
    assert root.alts[1..] == [] && els[1..] == [];
    var one, two := a.alts[0].els, a.alts[1].els;
    assert a.alts[1..] == [a.alts[1]] && a.alts[1..][1..] == [];
    assert one[1..] == [one[1]] && one[1..][1..] == [] && two[1..] == [];
    assert FindSeq([], p) == None && FindAlts([], p) == None && FindProds([], p) == None;
    assert FindSeq(els, p) == None && FindSeq(one[1..], p) == None && FindSeq(one, p) == None && FindSeq(two, p) == None;
    assert FindAlts(root.alts, p) == None && FindAlts(a.alts[1..], p) == None && FindAlts(a.alts, p) == None;
    assert FindProds(TIED[1..], p) == None;
  }

  lemma KnotCanonical()
    ensures CanonicalProds(TIED)
  {
    RootLegal();
    var root, a := TIED[0], TIED[1];
    var els := root.alts[0].els;
    assert root.alts[1..] == [] && els[1..] == [];
    var one, two := a.alts[0].els, a.alts[1].els;
    assert a.alts[1..] == [a.alts[1]] && a.alts[1..][1..] == [];
    assert one[1..] == [one[1]] && one[1..][1..] == [] && two[1..] == [];
    assert CanonicalSeq(els) && CanonicalSeq(one[1..]) && CanonicalSeq(one) && CanonicalSeq(two);
    assert CanonicalAlts(root.alts) && CanonicalAlts(a.alts[1..]) && CanonicalAlts(a.alts);
  }

  lemma KnotBodies()
    ensures Body(KNOT, ROOT) == [] && Body(KNOT, "a") == KNOT[0].alts
  {
    var g := KNOT;
    assert g[1..] == [] && g[0].name == "a" && "a" != ROOT;
    assert Body([], ROOT) == [];
    assert Body(g, "a") == g[0].alts;
  }

  lemma KnotRefuses(n: nat)
    ensures !In(n, KNOT, Ref("a"), "xy")
  {
    if n > 0 {
      var a := KNOT[0];
      var one, two := a.alts[0].els, a.alts[1].els;
      var m: nat := n - 1;
      KnotBodies();
      assert a.alts[1..] == [a.alts[1]] && a.alts[1..][1..] == [];
      forall s ensures !In(m, KNOT, Ref(ROOT), s) { }
      assert !InSeq(m, KNOT, one, "xy");
      InSeqOne(m, KNOT, Term("x", true), "xy");
      assert two == [Term("x", true)];
      assert !InAlts(m, KNOT, [], "xy") && !InAlts(m, KNOT, a.alts[1..], "xy");
    }
  }

  lemma TiedStep(n: nat, s: string)
    requires In(n, TIED, Ref("a"), s)
    ensures In(n + 1, TIED, Ref(ROOT), s)
  {
    hide In;
    RootIn(n + 1, TIED, "a", s);
  }

  lemma TiedAccepts()
    ensures Accepts(TIED, ROOT, "xy")
  {
    var a := TIED[1];
    var one, two := a.alts[0].els, a.alts[1].els;
    assert TIED[1..] == KNOT && Body(TIED, "a") == a.alts;
    assert a.alts[1..] == [a.alts[1]];
    InSeqOne(0, TIED, Term("x", true), "x");
    assert two == [Term("x", true)];
    assert InAlts(0, TIED, a.alts[1..], "x") && InAlts(0, TIED, a.alts, "x");
    assert In(1, TIED, Ref("a"), "x");
    TiedStep(1, "x");
    var s := "xy";
    assert s[..1] == "x" && s[1..] == "y";
    InSeqOne(2, TIED, Term("y", true), "y");
    assert one[1..] == [Term("y", true)];
    assert InAlts(2, TIED, a.alts, s);
    assert In(3, TIED, Ref("a"), s);
    TiedStep(3, s);
  }

  // ---- a rule defined twice

  /** One rule whose body is one literal. */
  function LiteralRule(text: string): (t: ProdTree) { ProdTree(ROOT, [SeqTree([Bare(GS(QuoteLiteral(text)))])]) }

  function LiteralRoot(text: string): (p: Production) { Production(ROOT, [Sequence([Term(text, true)])]) }

  lemma LiteralRuleWorth(text: string)
    requires text != ""
    ensures var alts := LiteralRule(text).alts;
            SpeltAlts(alts) && PlacedAlts(alts, false) && BuildAlts(alts) == Some(LiteralRoot(text).alts)
    ensures AltsText(LiteralRule(text).alts) == QuoteLiteral(text)
  {
    hide QuoteLiteral, SpeltAlts, PlacedAlts, BuildAlts, SeqText;
    var plan := [Bare(GS(QuoteLiteral(text)))];
    LiteralWorth(text);
    SeqAsAlts(plan, [Term(text, true)]);
    SeqTextOne(plan[0]);
    GroupText(plan);
    assert QuoteLiteral(text) + "" == QuoteLiteral(text);
  }

  /** A name defined twice is accepted: the last definition stands in the place of the first. */
  lemma RepeatedRule(a: string, b: string)
    requires a != "" && b != ""
    ensures ParseGbnf(false, "root ::= " + QuoteLiteral(a) + "\n" + ("root ::= " + QuoteLiteral(b) + "\n")) == Ok([LiteralRoot(b)])
  {
    hide Lex, ParseTokens, QuoteLiteral, SpeltAlts, PlacedAlts, BuildAlts, YieldAlts, AltsText, YieldProds, Dedupe, Check, LegalName;
    var trees := [LiteralRule(a), LiteralRule(b)];
    var raw := [LiteralRoot(a), LiteralRoot(b)];
    LiteralRuleWorth(a);
    LiteralRuleWorth(b);
    RootLegal();
    assert trees[1..] == [LiteralRule(b)] && trees[1..][1..] == [];
    assert BuildProds([]) == Some([]) && [LiteralRoot(b)] + [] == [LiteralRoot(b)];
    assert BuildProds(trees[1..]) == Prepend([LiteralRoot(b)], Some([])) == Some([LiteralRoot(b)]);
    assert [LiteralRoot(a)] + [LiteralRoot(b)] == raw;
    assert BuildProds(trees) == Prepend([LiteralRoot(a)], Some([LiteralRoot(b)])) == Some(raw);
    assert SpeltProds([]) && SpeltProds(trees[1..]) && SpeltProds(trees);
    assert StrictProds([]) && StrictProds(trees[1..]) && StrictProds(trees);
    assert ProdsText([]) == "" && ProdsText(trees[1..]) == ROOT + " ::= " + QuoteLiteral(b) + "\n" + "";
    assert ROOT + " ::= " == "root ::= ";
    assert ProdsText(trees) == "root ::= " + QuoteLiteral(a) + "\n" + ("root ::= " + QuoteLiteral(b) + "\n");
    SpelledParses(trees, raw);
    LastOfTwo(raw);
    DedupeExact(raw, [LiteralRoot(b)]);
    ClassFindTerm(Term(b, true));
    RootChecks(Term(b, true));
  }

  lemma ClassFindTerm(el: Element)
    requires el.Term?
    ensures Find(el, (x: Element) => x.TokTerm?).None? && Find(el, (x: Element) => x.Ref?).None?
  {
  }

  lemma LastOfTwo(raw: seq<Production>)
    requires |raw| == 2 && raw[0].name == raw[1].name
    ensures LastInPlace(raw, [raw[1]])
  {
    assert LastAt(raw, raw[1], 1);
    var r := [raw[1]];
    assert r[0].name == raw[0].name;
  }
}
