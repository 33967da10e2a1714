/** What parsing can produce: the canonical grammars, and exactly when the normal form of a
    rendered grammar is one of them. */
module Image {
  import opened Text
  import opened Ir
  import opened Terminals
  import opened Spelling
  import opened Postfix
  import opened Lexer
  import opened Derivation
  import opened Table
  import opened TableProof
  import opened Build
  import opened Render
  import opened Validate
  import opened FrontEnd
  import opened Plan
  import opened Reading
  import opened Normal
  import opened RoundTrip

  // ---- canonical grammars

  /** A class in the emitted spelling, with the flags the decoder sets. */
  predicate EmittedClass(pattern: string, flags: string) {
    match ReadClassPattern(pattern)
    case None => false
    case Some(c) => ScalarClass(c) && pattern == EmitClass(c) && flags == FlagsFor(c)
  }

  /** Bounds that the lowering writes as another element. */
  predicate Collapses(min: nat, max: Bound) {
    (min <= 1 && max == Infinity) || (min <= 1 && max == Finite(1))
  }

  predicate Canonical(el: Element)
    decreases el, 0
  {
    match el
    case Term(literal, caseSensitive) => literal != "" && caseSensitive
    case Ref(name) => LegalName(name)
    case Regex(pattern, flags) => (pattern == ANY_PATTERN && flags == "u") || EmittedClass(pattern, flags)
    case Group(alts) => CanonicalAlts(alts)
    case Opt(inner) => Canonical(inner)
    case Star(inner) => Canonical(inner)
    case Plus(inner) => Canonical(inner)
    case Rep(min, max, inner) => !Below(max, min) && !Collapses(min, max) && Canonical(inner)
    case TokTerm(_, _) => true
    case _ => false
  }

  predicate CanonicalSeq(els: seq<Element>)
    decreases els, 1
  {
    els == [] || (Canonical(els[0]) && CanonicalSeq(els[1..]))
  }

  predicate CanonicalAlts(alts: seq<Sequence>)
    decreases alts, 2
  {
    alts != [] && CanonicalSeq(alts[0].els) && (|alts| == 1 || CanonicalAlts(alts[1..]))
  }

  predicate CanonicalProds(ps: seq<Production>) {
    forall i :: 0 <= i < |ps| ==> LegalName(ps[i].name) && CanonicalAlts(ps[i].alts)
  }

  /** A grammar as the front-end hands it on: canonical, and passed by validation. */
  predicate Validated(ps: seq<Production>) {
    Distinct(Names(ps)) && CanonicalProds(ps) && Check(ps).None?
  }

  // ---- what is built is canonical

  /** The names among tokens are rule names. */
  predicate NamesLegal(ts: seq<Token>) {
    forall i :: 0 <= i < |ts| ==> (ts[i].NM? ==> LegalName(ts[i].src))
  }

  lemma NamesLegalConcat(a: seq<Token>, b: seq<Token>)
    ensures NamesLegal(a + b) <==> NamesLegal(a) && NamesLegal(b)
  {
    hide LegalName;
    var all := a + b;
    assert forall i :: 0 <= i < |a| ==> all[i] == a[i];
    assert forall i :: 0 <= i < |b| ==> all[|a| + i] == b[i];
  }

  lemma TokenName(t: string)
    requires LexToken(t).Some?
    ensures NamesLegal([LexToken(t).value.0])
  {
    hide RunExtent, Delimited;
    if IsWord(t[0]) {
      var n := RunLength(t, IsWord);
      assert forall i :: 0 <= i < n ==> t[..n][i] == t[i];
    }
  }

  lemma {:induction false} LexedNames(s: string)
    requires Lex(s).Some?
    ensures NamesLegal(Lex(s).value)
    decreases |s|
  {
    hide LexToken, Skipped, NamesLegal;
    if s == "" {
      NoTokens();
    } else if Skipped(s) > 0 {
      LexedNames(s[Skipped(s)..]);
    } else {
      var (tok, n) := LexToken(s).value;
      TokenName(s);
      LexedNames(s[n..]);
      NamesLegalConcat([tok], Lex(s[n..]).value);
    }
  }

  lemma NoTokens()
    ensures NamesLegal([])
  {
  }

  lemma LeafCanonical(tok: Token)
    requires BuildLeaf(tok).Some? && BuildLeaf(tok).value.Some? && NamesLegal([tok])
    ensures Canonical(BuildLeaf(tok).value.value)
  {
    hide DecodeString, DecodeClass, EmitClass, FlagsFor, ReadClassPattern, LegalName;
    assert [tok][0] == tok;
    if tok.CC? { EmittedReadsBack(DecodeClass(tok.src).value); }
  }

  lemma OpCanonical(item: Element, op: Op)
    requires Canonical(item) && ApplyOp(item, op).Some?
    ensures Canonical(ApplyOp(item, op).value)
  {
  }

  lemma {:induction false} LowerCanonical(item: Element, ops: seq<Op>)
    requires Canonical(item) && Lower(item, ops).Some?
    ensures Canonical(Lower(item, ops).value)
    decreases |ops|
  {
    hide Canonical, ApplyOp;
    if ops != [] {
      OpCanonical(item, ops[0]);
      LowerCanonical(ApplyOp(item, ops[0]).value, ops[1..]);
    }
  }

  lemma {:induction false} AtomCanonical(a: AtomTree)
    requires BuildAtom(a).Some? && BuildAtom(a).value.Some? && NamesLegal(YieldAtom(a))
    requires a.Paren? ==> PlacedAlts(a.alts, true)
    ensures Canonical(BuildAtom(a).value.value)
    decreases a, 0
  {
    hide NamesLegal, BuildAlts, YieldAlts, BuildLeaf, CanonicalAlts;
    match a
    case Leaf(tok) => LeafCanonical(tok);
    case Paren(alts, closed) =>
      var close := if closed then [RP] else [];
      NamesLegalConcat([LP] + YieldAlts(alts), close);
      NamesLegalConcat([LP], YieldAlts(alts));
      AltsCanonical(alts);
  }

  lemma {:induction false} ElemCanonical(e: ElemTree)
    requires BuildElem(e).Some? && BuildElem(e).value.Some? && NamesLegal(YieldElem(e))
    requires PlacedElem(e, true)
    ensures Canonical(BuildElem(e).value.value)
    decreases e, 1
  {
    hide NamesLegal, BuildAtom, YieldAtom, YieldPost, Canonical;
    NamesLegalConcat(YieldAtom(e.atom), YieldPost(e.post));
    if e.atom.Paren? && e.atom.closed { AltsMore(e.atom.alts); }
    AtomCanonical(e.atom);
    if e.post.Some? { LowerCanonical(BuildAtom(e.atom).value.value, Ops(e.post.value)); }
  }

  lemma {:induction false} SeqCanonical(els: seq<ElemTree>, tail: bool)
    requires BuildSeq(els).Some? && NamesLegal(YieldSeq(els)) && PlacedSeq(els, tail)
    ensures CanonicalSeq(BuildSeq(els).value)
    decreases els, 2
  {
    hide NamesLegal, BuildElem, YieldElem, Canonical, PlacedElem;
    if els != [] {
      var item := BuildElem(els[0]).value;
      var rest := BuildSeq(els[1..]).value;
      NamesLegalConcat(YieldElem(els[0]), YieldSeq(els[1..]));
      SeqCanonical(els[1..], tail);
      PlacedElemMore(els[0], tail && |els| == 1);
      if item.Some? {
        ElemCanonical(els[0]);
        assert ([item.value] + rest)[1..] == rest;
      } else {
        assert [] + rest == rest;
      }
    }
  }

  lemma {:induction false} AltsCanonical(alts: seq<SeqTree>)
    requires BuildAlts(alts).Some? && NamesLegal(YieldAlts(alts)) && PlacedAlts(alts, true)
    ensures CanonicalAlts(BuildAlts(alts).value)
    decreases alts, 3
  {
    hide NamesLegal, BuildSeq, YieldSeq, CanonicalSeq, PlacedSeq;
    var more := if |alts| == 1 then [] else [ALT] + YieldAlts(alts[1..]);
    NamesLegalConcat(YieldSeq(alts[0].els), more);
    SeqCanonical(alts[0].els, |alts| == 1);
    var head, rest := [Sequence(BuildSeq(alts[0].els).value)], BuildAlts(alts[1..]).value;
    assert (head + rest)[1..] == rest;
    if |alts| > 1 {
      NamesLegalConcat([ALT], YieldAlts(alts[1..]));
      AltsCanonical(alts[1..]);
    } else {
      assert alts[1..] == [] && rest == [];
    }
  }

  lemma {:induction false} ProdsCanonical(ps: seq<ProdTree>)
    requires BuildProds(ps).Some? && NamesLegal(YieldProds(ps)) && PlacedProds(ps)
    ensures CanonicalProds(BuildProds(ps).value)
  {
    hide NamesLegal, BuildAlts, YieldAlts, CanonicalAlts, PlacedAlts, LegalName;
    if ps != [] {
      var head := [NM(ps[0].name), DEF];
      NamesLegalConcat(head + YieldAlts(ps[0].alts), YieldProds(ps[1..]));
      NamesLegalConcat(head, YieldAlts(ps[0].alts));
      HeadName(ps[0].name);
      AltsCanonical(ps[0].alts);
      ProdsCanonical(ps[1..]);
    }
  }

  lemma HeadName(name: string)
    requires NamesLegal([NM(name), DEF])
    ensures LegalName(name)
  {
    assert [NM(name), DEF][0] == NM(name);
  }

  /** Whatever the front-end hands on is canonical and validated. */
  lemma ParsesCanonical(caps: bool, src: string)
    requires ParseGbnf(caps, src).Ok?
    ensures Validated(ParseGbnf(caps, src).value)
  {
    hide Lex, ParseTokens, Check, PlacedProds, YieldProds, BuildProds, ShallowProds, LegalName, CanonicalAlts, NamesLegal;
    var ts := Lex(src).value;
    var raw := ParseTokens(caps, ts, |src|).value;
    LexedNames(src);
    TableBuilds(caps, ts, |src|, raw);
    var trees :| PlacedProds(trees) && YieldProds(trees) == ts && BuildProds(trees) == Some(raw);
    ProdsCanonical(trees);
    forall i | 0 <= i < |Dedupe(raw)|
      ensures LegalName(Dedupe(raw)[i].name) && CanonicalAlts(Dedupe(raw)[i].alts)
    {
      assert FirstNames(raw)[i] in FirstNames(raw);
      assert Dedupe(raw)[i] == LastOf(raw, FirstNames(raw)[i]);
    }
  }

  // ---- a canonical normal form comes only from a grammar the notation can carry

  lemma WholeCanonical(els: seq<Element>)
    requires Canonical(Whole(els))
    ensures CanonicalSeq(els)
  {
    if |els| == 1 {
      assert els[1..] == [];
    } else {
      var alts := [Sequence(els)];
      assert CanonicalAlts(alts);
    }
  }

  lemma OpInvCanonical(whole: Element, op: Op)
    requires ApplyOp(whole, op).Some? && Canonical(ApplyOp(whole, op).value)
    ensures Canonical(whole)
  {
  }

  lemma {:induction false} CanonicalConcat(a: seq<Element>, b: seq<Element>)
    ensures CanonicalSeq(a + b) <==> CanonicalSeq(a) && CanonicalSeq(b)
  {
    hide Canonical;
    if a == [] {
      assert a + b == b;
    } else {
      assert (a + b)[1..] == a[1..] + b;
      CanonicalConcat(a[1..], b);
    }
  }

  lemma CanonicalOne(el: Element)
    ensures CanonicalSeq([el]) <==> Canonical(el)
  {
    hide Canonical;
    assert [el][1..] == [] && CanonicalSeq([]);
  }

  lemma ClassSane(pattern: string, c: Class)
    requires ReadClassPattern(pattern) == Some(c)
    requires Canonical(Regex(EmitClass(TightClass(c)), FlagsFor(TightClass(c))))
    ensures ScalarClass(c)
  {
    hide ReadClassPattern, EmitClass, FlagsFor;
    PatternReadable(pattern);
    EmittedReadsBack(TightClass(c));
    AnyIsNoClass();
    assert forall i :: 0 <= i < |c.items| ==> ScalarItem(TightClass(c).items[i]);
  }

  lemma AnyIsNoClass()
    ensures ReadClassPattern(ANY_PATTERN).None?
  {
    var t := ANY_PATTERN[1..];
    assert t[0] == '\\' && t[1] == 's';
    assert ReadOne(t).None?;
  }

  lemma {:induction false} NormSane(el: Element)
    requires CanonicalSeq(NormOf(el))
    ensures Sane(el)
    decreases el, 1
  {
    hide Canonical, CanonicalSeq, ReadClassPattern, EmitClass, FlagsFor, ApplyOp;
    match el
    case Regex(pattern, _) =>
      if pattern != ANY_PATTERN && ReadClassPattern(pattern).Some? {
        CanonicalOne(NormOf(el)[0]);
        ClassSane(pattern, ReadClassPattern(pattern).value);
      }
    case Group(alts) =>
      CanonicalOne(Group(NormAlts(alts)));
      GroupCanonical(NormAlts(alts));
      NormAltsSane(alts);
    case Opt(_) => NormOpSane(el);
    case Star(_) => NormOpSane(el);
    case Plus(_) => NormOpSane(el);
    case Rep(_, _, _) => NormOpSane(el);
    case _ =>
  }

  lemma GroupCanonical(alts: seq<Sequence>)
    ensures Canonical(Group(alts)) <==> CanonicalAlts(alts)
  {
  }

  lemma CrossedNotCanonical(el: Element)
    requires (el.Opt? || el.Star? || el.Plus? || el.Rep?) && Canonical(el)
    ensures ApplyOp(el, OperatorOf(el)).Some? && (el.Rep? ==> !Below(el.max, el.min))
  {
  }

  lemma SaneOperator(el: Element, whole: Element)
    requires (el.Opt? || el.Star? || el.Plus? || el.Rep?) && ApplyOp(whole, OperatorOf(el)).Some? && Sane(el.inner)
    ensures Sane(el)
  {
  }

  lemma CrossedAnyway(el: Element, a: Element, b: Element)
    requires el.Opt? || el.Star? || el.Plus? || el.Rep?
    ensures ApplyOp(a, OperatorOf(el)).Some? <==> ApplyOp(b, OperatorOf(el)).Some?
  {
  }

  lemma {:induction false} NormOpSane(el: Element)
    requires (el.Opt? || el.Star? || el.Plus? || el.Rep?) && CanonicalSeq(NormOf(el))
    ensures Sane(el)
    decreases el, 0
  {
    hide Canonical, CanonicalSeq, ApplyOp, Sane;
    var whole := Whole(NormOf(el.inner));
    CanonicalOne(NormOf(el)[0]);
    CrossedAnyway(el, whole, el);
    if ApplyOp(whole, OperatorOf(el)).None? {
      CrossedNotCanonical(el);
      assert false;
    } else {
      OpInvCanonical(whole, OperatorOf(el));
      WholeCanonical(NormOf(el.inner));
      NormSane(el.inner);
      SaneOperator(el, whole);
    }
  }

  lemma {:induction false} NormSeqSane(els: seq<Element>)
    requires CanonicalSeq(NormSeq(els))
    ensures SaneSeq(els)
    decreases els, 2
  {
    hide Canonical, CanonicalSeq, Sane, NormOf;
    if els != [] {
      CanonicalConcat(NormOf(els[0]), NormSeq(els[1..]));
      NormSane(els[0]);
      NormSeqSane(els[1..]);
    }
  }

  lemma {:induction false} NormAltsSane(alts: seq<Sequence>)
    requires CanonicalAlts(NormAlts(alts))
    ensures SaneAlts(alts)
    decreases alts, 3
  {
    hide CanonicalSeq, SaneSeq, NormSeq;
    NormSeqSane(alts[0].els);
    if |alts| > 1 {
      assert NormAlts(alts)[1..] == NormAlts(alts[1..]);
      NormAltsSane(alts[1..]);
    }
  }

  lemma {:induction false} NormProdsSane(ps: seq<Production>)
    requires CanonicalProds(NormProds(ps))
    ensures SaneProds(ps)
  {
    hide CanonicalAlts, SaneAlts, NormAlts, LegalName;
    if ps != [] {
      var ns := NormProds(ps);
      NormAltsSane(ps[0].alts);
      assert forall i :: 0 <= i < |ps| - 1 ==> NormProds(ps[1..])[i] == ns[i + 1];
      NormProdsSane(ps[1..]);
    }
  }

  /** The round trip is exact: the text of a grammar reads back as its normal form if and only if
      the notation can carry the grammar. */
  lemma RoundTripExact(cased: char -> bool, ps: seq<Production>, start: Option<string>)
    requires RenderGbnf(cased, ps, start).Ok?
    ensures ParseGbnf(false, RenderGbnf(cased, ps, start).value) == Ok(NormProds(Rooted(ps, start))) <==>
            Carried(Rooted(ps, start))
  {
    hide RenderGbnf, ParseGbnf, NormProds, SaneProds, Resolved, Legible, Check, CanonicalProds;
    var g, text := Rooted(ps, start), RenderGbnf(cased, ps, start).value;
    if ParseGbnf(false, text) == Ok(NormProds(g)) {
      ParsesCanonical(false, text);
      NormProdsSane(g);
      ReadsExactly(cased, ps, start);
    }
    if Carried(g) { RendersAndReads(cased, ps, start); }
  }
}
