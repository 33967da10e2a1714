/** The value of a derivation without registers or limits, how deep elements nest, and what the
    Rust front-end's two limits refuse. */
module Build {
  import opened Text
  import opened Ir
  import opened Terminals
  import opened Postfix
  import opened Lexer
  import opened Derivation
  import opened Table
  import opened TableProof

  // ---- the value of a derivation

  function BuildLeaf(tok: Token): (r: Option<Option<Element>>) {
    match tok
    case GS(src) =>
      (match DecodeString(src)
       case None => None
       case Some(text) => Some(if text == "" then None else Some(Term(text, true))))
    case CC(src) =>
      (match DecodeClass(src)
       case None => None
       case Some(c) => Some(Some(Regex(EmitClass(c), FlagsFor(c)))))
    case DOT => Some(Some(Regex(ANY_PATTERN, "u")))
    case TOK(src) => Some(Some(TokTerm(src, src != "" && src[0] == '!')))
    case NM(src) => Some(Some(Ref(src)))
    case _ => None
  }

  function BuildAtom(a: AtomTree): (r: Option<Option<Element>>)
    decreases a, 0
  {
    match a
    case Leaf(tok) => BuildLeaf(tok)
    case Paren(alts, closed) =>
      match BuildAlts(alts)
      case None => None
      case Some(inner) => Some(if closed then Some(Group(inner)) else None)
  }

  /** Operators applied to an element, or `None` for a count whose bounds cross. */
  function Lower(item: Element, ops: seq<Op>): (r: Option<Element>)
    decreases |ops|
  {
    if ops == [] then Some(item)
    else match ApplyOp(item, ops[0])
      case None => None
      case Some(next) => Lower(next, ops[1..])
  }

  function BuildPost(item: Option<Element>, post: Option<string>): (r: Option<Option<Element>>) {
    if item.None? || post.None? then Some(item)
    else match Lower(item.value, Ops(post.value))
      case None => None
      case Some(el) => Some(Some(el))
  }

  function BuildElem(e: ElemTree): (r: Option<Option<Element>>)
    decreases e, 1
  {
    match BuildAtom(e.atom)
    case None => None
    case Some(item) => BuildPost(item, e.post)
  }

  function BuildSeq(els: seq<ElemTree>): (r: Option<seq<Element>>)
    decreases els, 2
  {
    if els == [] then Some([])
    else match BuildElem(els[0])
      case None => None
      case Some(item) => Prepend(ItemSeq(item), BuildSeq(els[1..]))
  }

  function BuildAlts(alts: seq<SeqTree>): (r: Option<seq<Sequence>>)
    decreases alts, 3
  {
    if alts == [] then Some([])
    else match BuildSeq(alts[0].els)
      case None => None
      case Some(els) => Prepend([Sequence(els)], BuildAlts(alts[1..]))
  }

  function BuildProds(ps: seq<ProdTree>): (r: Option<seq<Production>>) {
    if ps == [] then Some([])
    else match BuildAlts(ps[0].alts)
      case None => None
      case Some(alts) => Prepend([Production(ps[0].name, alts)], BuildProds(ps[1..]))
  }

  // ---- nesting

  function Max(a: nat, b: nat): (m: nat) { if a < b then b else a }

  function ElementDepth(el: Element): (d: nat)
    ensures d >= 1
    decreases el, 0
  {
    match el
    case Group(alts) => 1 + AltsDepth(alts)
    case Opt(inner) => 1 + ElementDepth(inner)
    case Star(inner) => 1 + ElementDepth(inner)
    case Plus(inner) => 1 + ElementDepth(inner)
    case Rep(_, _, inner) => 1 + ElementDepth(inner)
    case _ => 1
  }

  function SeqDepth(els: seq<Element>): (d: nat)
    decreases els, 1
  {
    if els == [] then 0 else Max(ElementDepth(els[0]), SeqDepth(els[1..]))
  }

  function AltsDepth(alts: seq<Sequence>): (d: nat)
    decreases alts, 2
  {
    if alts == [] then 0 else Max(SeqDepth(alts[0].els), AltsDepth(alts[1..]))
  }

  lemma {:induction false} SeqDepthConcat(a: seq<Element>, b: seq<Element>)
    ensures SeqDepth(a + b) == Max(SeqDepth(a), SeqDepth(b))
  {
    if a == [] {
      assert a + b == b;
    } else {
      assert (a + b)[1..] == a[1..] + b;
      SeqDepthConcat(a[1..], b);
    }
  }

  lemma {:induction false} AltsDepthConcat(a: seq<Sequence>, b: seq<Sequence>)
    ensures AltsDepth(a + b) == Max(AltsDepth(a), AltsDepth(b))
  {
    if a == [] {
      assert a + b == b;
    } else {
      assert (a + b)[1..] == a[1..] + b;
      AltsDepthConcat(a[1..], b);
    }
  }

  lemma ItemSeqDepth(item: Option<Element>)
    ensures SeqDepth(ItemSeq(item)) == if item.Some? then ElementDepth(item.value) else 0
  {
    if item.Some? { assert [item.value][1..] == []; }
  }

  /** An operator that wraps adds one level; `{1}` adds none. */
  lemma ApplyOpDepth(item: Element, op: Op)
    requires ApplyOp(item, op).Some?
    ensures ElementDepth(ApplyOp(item, op).value) == ElementDepth(item) + if Wraps(op) then 1 else 0
  {
  }

  /** The depth a run of operators is charged is the depth it builds; with a limit, it is refused
      exactly when what it builds is deeper. */
  lemma {:induction false} ChargedDepth(item: Element, ops: seq<Op>, depth: nat, limit: Option<nat>)
    requires depth == ElementDepth(item) && (limit.Some? ==> depth <= limit.value)
    ensures var r := ApplyOps(item, ops, depth, limit); var b := Lower(item, ops);
            && (r.Ok? <==> b.Some? && (limit.Some? ==> ElementDepth(b.value) <= limit.value))
            && (r.Ok? ==> r.value == Lowered(b.value, ElementDepth(b.value)))
            && (b.Some? ==> ElementDepth(b.value) >= depth)
    decreases |ops|
  {
    if ops != [] && ApplyOp(item, ops[0]).Some? {
      var next := ApplyOp(item, ops[0]).value;
      ApplyOpDepth(item, ops[0]);
      var d := ElementDepth(next);
      if limit.Some? && limit.value < d {
        ChargedDepth(next, ops[1..], d, None);
      } else {
        ChargedDepth(next, ops[1..], d, limit);
      }
    }
  }

  /** What the first `k` operators build is deeper than the limit. */
  predicate DeepAt(item: Element, ops: seq<Op>, limit: nat, k: nat)
    requires k <= |ops|
  {
    Lower(item, ops[..k]).Some? && ElementDepth(Lower(item, ops[..k]).value) > limit
  }

  /** A run of operators is refused for its depth exactly when some prefix of it builds an element
      deeper than the limit: bounds that cross are refused first where they come first. */
  lemma {:induction false} TooDeepExact(item: Element, ops: seq<Op>, depth: nat, limit: nat)
    requires depth == ElementDepth(item) && depth <= limit
    ensures ApplyOps(item, ops, depth, Some(limit)) == Err(TooDeep) <==> exists k: nat :: k <= |ops| && DeepAt(item, ops, limit, k)
    decreases |ops|
  {
    hide ElementDepth, ApplyOp;
    if ops == [] || ApplyOp(item, ops[0]).None? {
      forall k: nat | k <= |ops| ensures !DeepAt(item, ops, limit, k) { PrefixStep(item, ops, k); }
    } else {
      var next := ApplyOp(item, ops[0]).value;
      ApplyOpDepth(item, ops[0]);
      forall k: nat | k <= |ops| ensures DeepAt(item, ops, limit, k) <==> k > 0 && DeepAt(next, ops[1..], limit, k - 1) {
        PrefixStep(item, ops, k);
      }
      if limit < ElementDepth(next) {
        PrefixStep(next, ops[1..], 0);
        assert DeepAt(next, ops[1..], limit, 0);
        assert DeepAt(item, ops, limit, 1);
      } else {
        TooDeepExact(next, ops[1..], ElementDepth(next), limit);
        if exists k: nat :: k <= |ops| - 1 && DeepAt(next, ops[1..], limit, k) {
          var k: nat :| k <= |ops| - 1 && DeepAt(next, ops[1..], limit, k);
          assert DeepAt(item, ops, limit, k + 1);
        }
      }
    }
  }

  lemma PrefixStep(item: Element, ops: seq<Op>, k: nat)
    requires k <= |ops|
    ensures Lower(item, ops[..k]) ==
            if k == 0 then Some(item)
            else match ApplyOp(item, ops[0]) case None => None case Some(next) => Lower(next, ops[1..][..k - 1])
  {
    if k > 0 { assert ops[..k][1..] == ops[1..][..k - 1]; }
  }

  // ---- what the two limits admit

  predicate ShallowElem(n: nat, e: ElemTree)
    decreases e, 0
  {
    && (e.atom.Paren? ==> n < 127 && ShallowAlts(n + 1, e.atom.alts))
    && (BuildElem(e).Some? && BuildElem(e).value.Some? ==> ElementDepth(BuildElem(e).value.value) <= MAX_NEST_DEPTH)
  }

  /** What the limits ask of a parenthesis: its place, its contents, and the group it builds. */
  predicate ShallowParen(n: nat, alts: seq<SeqTree>, item: Option<Element>) {
    n < 127 && ShallowAlts(n + 1, alts) && (item.Some? ==> ElementDepth(item.value) <= MAX_NEST_DEPTH)
  }

  predicate ShallowSeq(n: nat, els: seq<ElemTree>)
    decreases els, 1
  {
    els == [] || (ShallowElem(n, els[0]) && ShallowSeq(n, els[1..]))
  }

  predicate ShallowAlts(n: nat, alts: seq<SeqTree>)
    decreases alts, 2
  {
    alts == [] || (ShallowSeq(n, alts[0].els) && ShallowAlts(n, alts[1..]))
  }

  /** No parenthesis under 127 others, and no element built more than 130 deep. */
  predicate ShallowProds(ps: seq<ProdTree>) {
    ps == [] || (ShallowAlts(0, ps[0].alts) && ShallowProds(ps[1..]))
  }

  /** The registers after an element whose parentheses are all closed. */
  predicate Tracks(before: Registers, item: Option<Element>, after: Registers) {
    match item
    case None => after.level == before.level
    case Some(el) => after.nest == ElementDepth(el) && after.level == Max(before.level, ElementDepth(el))
  }

  lemma LeafBuilds(tok: Token, regs: Registers)
    ensures var r := EvalLeaf(tok, regs);
            && (r.Ok? <==> BuildLeaf(tok).Some?)
            && (r.Ok? ==> r.value.item == BuildLeaf(tok).value && r.value.regs == Registers(1, regs.level))
            && (r.Ok? && r.value.item.Some? ==> ElementDepth(r.value.item.value) == 1)
  {
    hide DecodeString, DecodeClass, EmitClass, FlagsFor;
  }

  lemma {:induction false} AtomBuilds(caps: bool, n: nat, a: AtomTree, regs: Registers)
    requires a.Paren? ==> PlacedAlts(a.alts, !a.closed)
    ensures var r := EvalAtom(caps, n, a, regs); var b := BuildAtom(a);
            && (r.Ok? <==> b.Some? && (caps && a.Paren? ==> ShallowParen(n, a.alts, b.value)))
            && (r.Ok? ==> r.value.item == b.value)
            && (r.Ok? && (a.Leaf? || a.closed) ==> r.value.regs.level == regs.level)
            && (r.Ok? && b.value.Some? ==> r.value.regs.nest == ElementDepth(b.value.value))
            && (a.Leaf? && b.Some? && b.value.Some? ==> ElementDepth(b.value.value) == 1)
    decreases a, 0
  {
    hide PlacedAlts, ShallowAlts, EvalAlts, BuildAlts, EvalLeaf, BuildLeaf;
    match a
    case Leaf(tok) => LeafBuilds(tok, regs);
    case Paren(alts, closed) => AltsBuild(caps, n + 1, alts, !closed, Registers(1, 0));
  }

  lemma {:induction false} ElemBuilds(caps: bool, n: nat, e: ElemTree, tail: bool, regs: Registers)
    requires PlacedElem(e, tail)
    ensures var r := EvalElem(caps, n, e, regs);
            && (r.Ok? <==> BuildElem(e).Some? && (caps ==> ShallowElem(n, e)))
            && (r.Ok? ==> r.value.item == BuildElem(e).value)
            && (r.Ok? && PlacedElem(e, false) ==> Tracks(regs, r.value.item, r.value.regs))
    decreases e, 1
  {
    hide PlacedAlts, ShallowAlts, EvalAtom, BuildAtom;
    AtomBuilds(caps, n, e.atom, regs);
    var b := BuildAtom(e.atom);
    if b.Some? && b.value.Some? {
      var d := ElementDepth(b.value.value);
      if e.post.Some? {
        ChargedDepth(b.value.value, Ops(e.post.value), d, None);
        if d <= MAX_NEST_DEPTH { ChargedDepth(b.value.value, Ops(e.post.value), d, Some(MAX_NEST_DEPTH)); }
      }
    }
  }

  lemma {:induction false} SeqBuilds(caps: bool, n: nat, els: seq<ElemTree>, tail: bool, regs: Registers)
    requires PlacedSeq(els, tail)
    ensures var r := EvalSeq(caps, n, els, regs); var b := BuildSeq(els);
            && (r.Ok? <==> b.Some? && (caps ==> ShallowSeq(n, els)))
            && (r.Ok? ==> r.value.0 == b.value)
            && (r.Ok? && PlacedSeq(els, false) ==> r.value.1.level == Max(regs.level, SeqDepth(b.value)))
    decreases els, 2
  {
    hide PlacedElem, ShallowElem, EvalElem, BuildElem, ElementDepth;
    if els != [] {
      ElemBuilds(caps, n, els[0], tail && |els| == 1, regs);
      if EvalElem(caps, n, els[0], regs).Ok? {
        var v := EvalElem(caps, n, els[0], regs).value;
        SeqBuilds(caps, n, els[1..], tail, v.regs);
        ItemSeqDepth(v.item);
        if BuildSeq(els[1..]).Some? { SeqDepthConcat(ItemSeq(v.item), BuildSeq(els[1..]).value); }
      }
    }
  }

  lemma {:induction false} AltsBuild(caps: bool, n: nat, alts: seq<SeqTree>, tail: bool, regs: Registers)
    requires PlacedAlts(alts, tail)
    ensures var r := EvalAlts(caps, n, alts, regs); var b := BuildAlts(alts);
            && (r.Ok? <==> b.Some? && (caps ==> ShallowAlts(n, alts)))
            && (r.Ok? ==> r.value.0 == b.value)
            && (r.Ok? && !tail ==> r.value.1.level == Max(regs.level, AltsDepth(b.value)))
    decreases alts, 3
  {
    hide PlacedSeq, ShallowSeq, EvalSeq, BuildSeq, SeqDepth;
    SeqBuilds(caps, n, alts[0].els, tail && |alts| == 1, regs);
    if EvalSeq(caps, n, alts[0].els, regs).Ok? {
      var (els, mid) := EvalSeq(caps, n, alts[0].els, regs).value;
      var one := Sequence(els);
      assert AltsDepth([one]) == SeqDepth(els) by { assert [one][1..] == []; }
      if |alts| == 1 {
        assert alts[1..] == [];
        assert EvalAlts(caps, n, [], mid) == Ok(([], mid)) && BuildAlts([]) == Some([]);
        assert [one] + [] == [one];
      } else {
        AltsBuild(caps, n, alts[1..], tail, mid);
        if BuildAlts(alts[1..]).Some? { AltsDepthConcat([one], BuildAlts(alts[1..]).value); }
      }
    }
  }

  lemma {:induction false} ProdsBuild(caps: bool, ps: seq<ProdTree>, regs: Registers)
    requires PlacedProds(ps)
    ensures var r := EvalProds(caps, ps, regs);
            && (r.Ok? <==> BuildProds(ps).Some? && (caps ==> ShallowProds(ps)))
            && (r.Ok? ==> r.value == BuildProds(ps).value)
  {
    hide PlacedAlts, ShallowAlts, EvalAlts, BuildAlts;
    if ps != [] {
      AltsBuild(caps, 0, ps[0].alts, true, regs);
      if EvalAlts(caps, 0, ps[0].alts, regs).Ok? {
        ProdsBuild(caps, ps[1..], EvalAlts(caps, 0, ps[0].alts, regs).value.1);
      }
    }
  }

  /** The TypeScript table accepts exactly the sequences that have a derivation whose terminals
      decode and whose counts are in order, and answers with its value. The Rust table accepts
      those of them that are shallow, with the same answer. */
  lemma TableBuilds(caps: bool, ts: seq<Token>, length: nat, v: seq<Production>)
    requires ZZ !in ts && |ts| <= length
    ensures ParseTokens(caps, ts, length) == Ok(v) <==>
            exists ps :: PlacedProds(ps) && YieldProds(ps) == ts && BuildProds(ps) == Some(v) && (caps ==> ShallowProds(ps))
  {
    hide ParseTokens, ParseProds, EvalProds, BuildProds, ShallowProds, PlacedProds, YieldProds;
    TableExact(caps, ts, length);
    if ParseProds(ts).Some? {
      ProdsSound(ts);
      ProdsBuild(caps, ParseProds(ts).value, ZERO);
    }
    forall ps | PlacedProds(ps) && YieldProds(ps) == ts ensures ParseProds(ts) == Some(ps) { ProdsComplete(ps); }
  }
}
