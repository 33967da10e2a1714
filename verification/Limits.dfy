/** The Rust front-end's two limits, read off the grammar alone: what it hands on can be rendered
    and read again. */
module Limits {
  import opened Text
  import opened Ir
  import opened Terminals
  import opened Spelling
  import opened Postfix
  import opened Lexer
  import opened Derivation
  import opened Table
  import opened TableProof
  import opened Build
  import opened Runs
  import opened Render
  import opened Spelled
  import opened Validate
  import opened FrontEnd
  import opened Plan
  import opened Reading
  import opened Normal
  import opened RoundTrip
  import opened Image
  import opened FixedPoint

  // ---- how far groups nest in an element

  function Nest(el: Element): (d: nat)
    decreases el, 0
  {
    match el
    case Group(alts) => 1 + NestAlts(alts)
    case Opt(inner) => Nest(inner)
    case Star(inner) => Nest(inner)
    case Plus(inner) => Nest(inner)
    case Rep(_, _, inner) => Nest(inner)
    case _ => 0
  }

  function NestSeq(els: seq<Element>): (d: nat)
    decreases els, 1
  {
    if els == [] then 0 else Max(Nest(els[0]), NestSeq(els[1..]))
  }

  function NestAlts(alts: seq<Sequence>): (d: nat)
    decreases alts, 2
  {
    if alts == [] then 0 else Max(NestSeq(alts[0].els), NestAlts(alts[1..]))
  }

  function NestProds(ps: seq<Production>): (d: nat) {
    if ps == [] then 0 else Max(NestAlts(ps[0].alts), NestProds(ps[1..]))
  }

  /** Groups at most 127 deep, and elements at most 130 deep. */
  predicate WithinLimits(ps: seq<Production>) { NestProds(ps) <= 127 && ProdsDepth(ps) <= MAX_NEST_DEPTH }

  lemma {:induction false} NestConcat(a: seq<Element>, b: seq<Element>)
    ensures NestSeq(a + b) == Max(NestSeq(a), NestSeq(b))
  {
    hide Nest;
    if a == [] {
      assert a + b == b;
    } else {
      assert (a + b)[1..] == a[1..] + b;
      NestConcat(a[1..], b);
    }
  }

  lemma NestOne(item: Option<Element>)
    ensures NestSeq(ItemSeq(item)) == if item.Some? then Nest(item.value) else 0
  {
    if item.Some? { assert [item.value][1..] == []; }
  }

  lemma {:induction false} LowerNest(item: Element, ops: seq<Op>)
    requires Lower(item, ops).Some?
    ensures Nest(Lower(item, ops).value) == Nest(item)
    decreases |ops|
  {
    if ops != [] { LowerNest(ApplyOp(item, ops[0]).value, ops[1..]); }
  }

  // ---- a derivation's parentheses are its value's groups, all of them when none is abandoned

  lemma {:induction false} ElemNest(e: ElemTree)
    requires BuildElem(e).Some?
    ensures NestSeq(ItemSeq(BuildElem(e).value)) <= ElemParens(e)
    ensures PlacedElem(e, false) ==> NestSeq(ItemSeq(BuildElem(e).value)) == ElemParens(e)
    decreases e, 1
  {
    hide BuildAlts, PlacedAlts, AltsParens, BuildLeaf, NestAlts, NestSeq, Ops;
    NestOne(BuildElem(e).value);
    match e.atom
    case Leaf(tok) =>
      LeafNest(tok);
      var item := BuildLeaf(tok).value;
      if item.Some? && e.post.Some? { LowerNest(item.value, Ops(e.post.value)); }
    case Paren(alts, closed) =>
      AltsNest(alts);
      if closed && e.post.Some? { LowerNest(Group(BuildAlts(alts).value), Ops(e.post.value)); }
  }

  lemma LeafNest(tok: Token)
    requires BuildLeaf(tok).Some?
    ensures BuildLeaf(tok).value.Some? ==> Nest(BuildLeaf(tok).value.value) == 0
  {
    hide DecodeString, DecodeClass, EmitClass, FlagsFor;
  }

  lemma {:induction false} SeqNest(els: seq<ElemTree>)
    requires BuildSeq(els).Some?
    ensures NestSeq(BuildSeq(els).value) <= SeqParens(els)
    ensures PlacedSeq(els, false) ==> NestSeq(BuildSeq(els).value) == SeqParens(els)
    decreases els, 2
  {
    hide BuildElem, PlacedElem, ElemParens, Nest;
    if els != [] {
      ElemNest(els[0]);
      SeqNest(els[1..]);
      NestConcat(ItemSeq(BuildElem(els[0]).value), BuildSeq(els[1..]).value);
    }
  }

  lemma {:induction false} AltsNest(alts: seq<SeqTree>)
    requires BuildAlts(alts).Some?
    ensures NestAlts(BuildAlts(alts).value) <= AltsParens(alts)
    ensures PlacedAlts(alts, false) ==> NestAlts(BuildAlts(alts).value) == AltsParens(alts)
    decreases alts, 3
  {
    hide BuildSeq, PlacedSeq, SeqParens, NestSeq;
    if alts != [] {
      SeqNest(alts[0].els);
      AltsNest(alts[1..]);
      var head, rest := [Sequence(BuildSeq(alts[0].els).value)], BuildAlts(alts[1..]).value;
      assert (head + rest)[1..] == rest;
      if |alts| == 1 { assert alts[1..] == []; }
    }
  }

  lemma {:induction false} ProdsNest(ps: seq<ProdTree>)
    requires BuildProds(ps).Some? && StrictProds(ps)
    ensures NestProds(BuildProds(ps).value) == ProdsParens(ps)
  {
    hide BuildAlts, PlacedAlts, AltsParens, NestAlts;
    if ps != [] {
      AltsNest(ps[0].alts);
      ProdsNest(ps[1..]);
      var head, rest := [Production(ps[0].name, BuildAlts(ps[0].alts).value)], BuildProds(ps[1..]).value;
      assert (head + rest)[1..] == rest;
    }
  }

  // ---- whatever the Rust table hands on is within the limits

  lemma {:induction false} ElemFits(n: nat, e: ElemTree)
    requires ShallowElem(n, e) && BuildElem(e).Some? && n <= 127
    ensures n + ElemParens(e) <= 127 && SeqDepth(ItemSeq(BuildElem(e).value)) <= MAX_NEST_DEPTH
    decreases e, 1
  {
    hide BuildAlts, AltsParens, ElementDepth, BuildLeaf, Ops;
    ItemSeqDepth(BuildElem(e).value);
    if e.atom.Paren? { AltsFit(n + 1, e.atom.alts); }
  }

  lemma {:induction false} SeqFits(n: nat, els: seq<ElemTree>)
    requires ShallowSeq(n, els) && BuildSeq(els).Some? && n <= 127
    ensures n + SeqParens(els) <= 127 && SeqDepth(BuildSeq(els).value) <= MAX_NEST_DEPTH
    decreases els, 2
  {
    hide BuildElem, ShallowElem, ElemParens, ElementDepth;
    if els != [] {
      ElemFits(n, els[0]);
      SeqFits(n, els[1..]);
      SeqDepthConcat(ItemSeq(BuildElem(els[0]).value), BuildSeq(els[1..]).value);
    }
  }

  lemma {:induction false} AltsFit(n: nat, alts: seq<SeqTree>)
    requires ShallowAlts(n, alts) && BuildAlts(alts).Some? && n <= 127
    ensures n + AltsParens(alts) <= 127 && AltsDepth(BuildAlts(alts).value) <= MAX_NEST_DEPTH
    decreases alts, 3
  {
    hide BuildSeq, ShallowSeq, SeqParens, SeqDepth;
    if alts != [] {
      SeqFits(n, alts[0].els);
      AltsFit(n, alts[1..]);
      var head, rest := [Sequence(BuildSeq(alts[0].els).value)], BuildAlts(alts[1..]).value;
      assert (head + rest)[1..] == rest;
    }
  }

  predicate AltsWithin(alts: seq<Sequence>) { NestAlts(alts) <= 127 && AltsDepth(alts) <= MAX_NEST_DEPTH }

  predicate EachWithin(ps: seq<Production>) { forall i :: 0 <= i < |ps| ==> AltsWithin(ps[i].alts) }

  lemma {:induction false} ProdsFit(ps: seq<ProdTree>)
    requires ShallowProds(ps) && BuildProds(ps).Some?
    ensures EachWithin(BuildProds(ps).value)
  {
    hide BuildAlts, ShallowAlts, AltsParens, NestAlts, AltsDepth;
    if ps != [] {
      AltsFit(0, ps[0].alts);
      AltsNest(ps[0].alts);
      ProdsFit(ps[1..]);
    }
  }

  lemma {:induction false} EachIsAll(ps: seq<Production>)
    ensures EachWithin(ps) <==> WithinLimits(ps)
  {
    hide NestAlts, AltsDepth;
    if ps != [] {
      EachIsAll(ps[1..]);
      if EachWithin(ps[1..]) && AltsWithin(ps[0].alts) {
        forall i | 0 <= i < |ps| ensures AltsWithin(ps[i].alts) { if i > 0 { assert ps[i] == ps[1..][i - 1]; } }
      }
    }
  }

  /** Everything the Rust front-end hands on is within its limits. */
  lemma RustWithin(src: string)
    requires ParseGbnf(true, src).Ok?
    ensures WithinLimits(ParseGbnf(true, src).value)
  {
    hide Lex, ParseTokens, Check, PlacedProds, YieldProds, BuildProds, ShallowProds, AltsWithin, WithinLimits;
    var ts := Lex(src).value;
    var raw := ParseTokens(true, ts, |src|).value;
    TableBuilds(true, ts, |src|, raw);
    var trees :| PlacedProds(trees) && YieldProds(trees) == ts && BuildProds(trees) == Some(raw) && ShallowProds(trees);
    ProdsFit(trees);
    forall i | 0 <= i < |Dedupe(raw)| ensures AltsWithin(Dedupe(raw)[i].alts) {
      assert FirstNames(raw)[i] in FirstNames(raw);
      assert Dedupe(raw)[i] == LastOf(raw, FirstNames(raw)[i]);
    }
    EachIsAll(Dedupe(raw));
  }

  // ---- and a rendered grammar within the limits is read by it

  /** The Rust front-end reads a spelled derivation exactly when its value is within the limits. */
  lemma SpelledWithin(trees: seq<ProdTree>, v: seq<Production>)
    requires SpeltProds(trees) && StrictProds(trees) && BuildProds(trees) == Some(v)
    ensures ParseTokens(true, YieldProds(trees), |ProdsText(trees)|) == Ok(v) <==> WithinLimits(v)
  {
    hide Lex, ParseTokens, SpeltProds, BuildProds, YieldProds, ProdsText, PlacedProds, StrictProds, ShallowProds, ProdsParens;
    SpelledParses(trees, v);
    StrictPlaced(trees);
    ProdsShallow(trees);
    ProdsNest(trees);
    TableBuilds(true, YieldProds(trees), |ProdsText(trees)|, v);
    forall ps | PlacedProds(ps) && YieldProds(ps) == YieldProds(trees) ensures ps == trees { Unambiguous(ps, trees); }
  }

  /** The Rust front-end reads the text of a rendered grammar exactly when TypeScript does and what
      it is read as is within the limits; and then both read the same. */
  lemma RustReadsBack(cased: char -> bool, ps: seq<Production>, start: Option<string>)
    requires RenderGbnf(cased, ps, start).Ok?
    ensures var g := Rooted(ps, start); var text := RenderGbnf(cased, ps, start).value;
            && (ParseGbnf(true, text).Ok? <==> ParseGbnf(false, text).Ok? && WithinLimits(ReadProds(g)))
            && (ParseGbnf(true, text).Ok? ==> ParseGbnf(true, text) == Ok(ReadProds(g)))
  {
    hide RenderLines, Lex, ParseTokens, ProdsText, PlanProds, BuildProds, SpeltProds, StrictProds, ReadProds, Check, Dedupe,
      FindProds, Resolved, LegalName, Join, RenderGbnf, YieldProds, WithinLimits;
    var g := Rooted(ps, start);
    var n, text := ReadProds(g), ProdsText(PlanProds(g));
    RenderedLines(cased, ps, start);
    RenderedText(cased, ps, start);
    ReadsExactly(cased, ps, start);
    ProdsRead(cased, g);
    if Legible(g) {
      SpelledParses(PlanProds(g), n);
      SpelledWithin(PlanProds(g), n);
      DedupeDistinct(n);
      ReadChecks(cased, g);
      if ParseGbnf(true, text).Ok? {
        RustSame(PlanProds(g), n);
        RustWithin(text);
      }
    } else {
      SpelledRefused(true, PlanProds(g));
    }
  }

  /** What Rust builds from a spelled derivation is its value. */
  lemma RustSame(trees: seq<ProdTree>, v: seq<Production>)
    requires SpeltProds(trees) && StrictProds(trees) && BuildProds(trees) == Some(v)
    requires ParseTokens(true, YieldProds(trees), |ProdsText(trees)|).Ok?
    ensures ParseTokens(true, YieldProds(trees), |ProdsText(trees)|) == Ok(v)
  {
    hide Lex, ParseTokens, SpeltProds, BuildProds, YieldProds, ProdsText, PlacedProds, StrictProds, ShallowProds;
    var r := ParseTokens(true, YieldProds(trees), |ProdsText(trees)|).value;
    SpelledParses(trees, v);
    TableBuilds(true, YieldProds(trees), |ProdsText(trees)|, r);
    var ps :| PlacedProds(ps) && YieldProds(ps) == YieldProds(trees) && BuildProds(ps) == Some(r);
    StrictPlaced(trees);
    Unambiguous(ps, trees);
  }

  // ---- the fixed point holds for the Rust front-end too

  lemma {:induction false} TightNest(el: Element)
    ensures Nest(TightOf(el)) == Nest(el) && ElementDepth(TightOf(el)) == ElementDepth(el)
    decreases el, 0
  {
    hide ReadClassPattern, EmitClass;
    match el
    case Group(alts) => TightAltsNest(alts);
    case Opt(inner) => TightNest(inner);
    case Star(inner) => TightNest(inner);
    case Plus(inner) => TightNest(inner);
    case Rep(_, _, inner) => TightNest(inner);
    case _ =>
  }

  lemma {:induction false} TightSeqNest(els: seq<Element>)
    ensures NestSeq(TightSeq(els)) == NestSeq(els) && SeqDepth(TightSeq(els)) == SeqDepth(els)
    decreases els, 1
  {
    hide TightOf, Nest, ElementDepth;
    if els != [] {
      TightNest(els[0]);
      TightSeqNest(els[1..]);
      assert TightSeq(els)[1..] == TightSeq(els[1..]);
    }
  }

  lemma {:induction false} TightAltsNest(alts: seq<Sequence>)
    ensures NestAlts(TightAlts(alts)) == NestAlts(alts) && AltsDepth(TightAlts(alts)) == AltsDepth(alts)
    decreases alts, 2
  {
    hide TightSeq, NestSeq, SeqDepth;
    if alts != [] {
      TightSeqNest(alts[0].els);
      TightAltsNest(alts[1..]);
      assert TightAlts(alts)[1..] == TightAlts(alts[1..]);
    }
  }

  lemma {:induction false} TightProdsNest(ps: seq<Production>)
    ensures WithinLimits(TightProds(ps)) <==> WithinLimits(ps)
    ensures NestProds(TightProds(ps)) == NestProds(ps) && ProdsDepth(TightProds(ps)) == ProdsDepth(ps)
  {
    hide TightAlts, NestAlts, AltsDepth;
    if ps != [] {
      TightAltsNest(ps[0].alts);
      TightProdsNest(ps[1..]);
      assert TightProds(ps)[1..] == TightProds(ps[1..]);
    }
  }

  /** What the Rust front-end reads, it reads again from the rendered text: the limits never
      refuse a grammar that passed them once. */
  lemma RustFixedPoint(cased: char -> bool, src: string, start: Option<string>)
    requires ParseGbnf(true, src).Ok?
    ensures var g := ParseGbnf(true, src).value; var text := RenderGbnf(cased, g, start);
            text.Ok? && ParseGbnf(true, text.value) == Ok(TightProds(g))
  {
    hide ParseGbnf, RenderGbnf, TightProds, CanonicalProds, Check, WithinLimits, ReadProds, Doubled;
    var g := ParseGbnf(true, src).value;
    ParsesCanonical(true, src);
    ParsedFixed(cased, g, start);
    ParsedRenders(cased, g, start);
    ReadsExactly(cased, g, start);
    RustWithin(src);
    TightProdsNest(g);
    RustReadsBack(cased, g, start);
  }
}
