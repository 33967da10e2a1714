/** What rendering and reading back makes of a grammar the notation can carry: its normal form. */
module Normal {
  import opened Text
  import opened Ir
  import opened Terminals
  import opened Spelling
  import opened Postfix
  import opened Render
  import opened Validate
  import opened Reading

  // ---- the normal form

  /** The elements an element comes back as: none for an empty literal, several for a folded one. */
  function NormOf(el: Element): (els: seq<Element>)
    decreases el, 0
  {
    match el
    case Term(literal, caseSensitive) =>
      if literal == "" then [] else if caseSensitive then [el] else PieceElements(Pieces(literal, ""))
    case Ref(_) => [el]
    case Regex(pattern, _) =>
      if pattern == ANY_PATTERN then [Regex(ANY_PATTERN, "u")]
      else (match ReadClassPattern(pattern)
        case None => [el]
        case Some(c) => [Regex(EmitClass(TightClass(c)), FlagsFor(TightClass(c)))])
    case Group(alts) => [Group(NormAlts(alts))]
    case TokTerm(_, _) => [el]
    case TokenRef(_) => [el]
    case Prose(_) => [el]
    case _ =>
      match ApplyOp(Whole(NormOf(el.inner)), OperatorOf(el))
      case None => [el]
      case Some(e) => [e]
  }

  function NormSeq(els: seq<Element>): (r: seq<Element>)
    decreases els, 1
  {
    if els == [] then [] else NormOf(els[0]) + NormSeq(els[1..])
  }

  function NormAlts(alts: seq<Sequence>): (r: seq<Sequence>)
    ensures |r| == |alts|
    decreases alts, 2
  {
    if alts == [] then [] else [Sequence(NormSeq(alts[0].els))] + NormAlts(alts[1..])
  }

  function NormProds(ps: seq<Production>): (r: seq<Production>)
    ensures |r| == |ps| && Names(r) == Names(ps)
  {
    if ps == [] then [] else [Production(ps[0].name, NormAlts(ps[0].alts))] + NormProds(ps[1..])
  }

  // ---- grammars the notation can carry

  /** Alternatives exist, classes name characters, and bounds do not cross. */
  predicate Sane(el: Element)
    decreases el, 0
  {
    match el
    case Regex(pattern, _) =>
      pattern == ANY_PATTERN || (ReadClassPattern(pattern).Some? ==> ScalarClass(ReadClassPattern(pattern).value))
    case Group(alts) => SaneAlts(alts)
    case Opt(inner) => Sane(inner)
    case Star(inner) => Sane(inner)
    case Plus(inner) => Sane(inner)
    case Rep(min, max, inner) => !Below(max, min) && Sane(inner)
    case _ => true
  }

  predicate SaneSeq(els: seq<Element>)
    decreases els, 1
  {
    els == [] || (Sane(els[0]) && SaneSeq(els[1..]))
  }

  predicate SaneAlts(alts: seq<Sequence>)
    decreases alts, 2
  {
    alts != [] && SaneSeq(alts[0].els) && (|alts| == 1 || SaneAlts(alts[1..]))
  }

  predicate SaneProds(ps: seq<Production>) {
    ps == [] || (SaneAlts(ps[0].alts) && SaneProds(ps[1..]))
  }

  // ---- what the notation can carry is read as its normal form

  lemma ClassNormal(pattern: string, flags: string)
    requires Sane(Regex(pattern, flags))
    ensures !Illegible(Regex(pattern, flags)) && ReadOf(Regex(pattern, flags)) == NormOf(Regex(pattern, flags))
  {
    hide ReadClassPattern, ClassText, DecodeClass, EmitClass, FlagsFor;
    if pattern != ANY_PATTERN && ReadClassPattern(pattern).Some? { RenderedClassDecodes(ReadClassPattern(pattern).value); }
  }

  lemma {:induction false} SaneReads(el: Element)
    requires Sane(el)
    ensures Find(el, Illegible).None? && ReadOf(el) == NormOf(el)
    decreases el, 0
  {
    hide ReadClassPattern, EmitClass, FlagsFor, ApplyOp, ReadRegex, Decoded;
    match el
    case Regex(pattern, flags) => ClassNormal(pattern, flags);
    case Group(alts) => SaneAltsRead(alts);
    case Opt(inner) => SaneReads(inner);
    case Star(inner) => SaneReads(inner);
    case Plus(inner) => SaneReads(inner);
    case Rep(_, _, inner) => SaneReads(inner);
    case _ =>
  }

  lemma {:induction false} SaneSeqReads(els: seq<Element>)
    requires SaneSeq(els)
    ensures FindSeq(els, Illegible).None? && ReadSeq(els) == NormSeq(els)
    decreases els, 1
  {
    hide Sane, Find, Illegible, ReadOf, NormOf;
    if els != [] {
      SaneReads(els[0]);
      SaneSeqReads(els[1..]);
    }
  }

  lemma {:induction false} SaneAltsRead(alts: seq<Sequence>)
    requires SaneAlts(alts)
    ensures FindAlts(alts, Illegible).None? && ReadAlts(alts) == NormAlts(alts)
    decreases alts, 2
  {
    hide SaneSeq, FindSeq, Illegible, ReadSeq, NormSeq;
    SaneSeqReads(alts[0].els);
    if |alts| > 1 {
      SaneAltsRead(alts[1..]);
    } else {
      assert alts[1..] == [] && FindAlts([], Illegible).None? && NormAlts([]) == [];
    }
  }

  lemma {:induction false} SaneProdsRead(ps: seq<Production>)
    requires SaneProds(ps)
    ensures FindProds(ps, Illegible).None? && ReadProds(ps) == NormProds(ps)
  {
    hide SaneAlts, FindAlts, Illegible, ReadAlts, NormAlts;
    if ps != [] {
      SaneAltsRead(ps[0].alts);
      SaneProdsRead(ps[1..]);
    }
  }
}
