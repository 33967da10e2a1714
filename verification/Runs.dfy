/** What every step of the rule table keeps, over every run: the shape of the rule stack, the
    balance of parentheses, and, while none is abandoned, the exact meaning of the two depth
    registers. */
module Runs {
  import opened Text
  import opened Ir
  import opened Terminals
  import opened Postfix
  import opened Lexer
  import opened Derivation
  import opened Table
  import opened TableProof
  import opened Build

  // ---- how deep the elements of a node nest

  function ProdsDepth(ps: seq<Production>): (d: nat) {
    if ps == [] then 0 else Max(AltsDepth(ps[0].alts), ProdsDepth(ps[1..]))
  }

  lemma {:induction false} ProdsDepthAppend(ps: seq<Production>, p: Production)
    ensures ProdsDepth(ps + [p]) == Max(ProdsDepth(ps), AltsDepth(p.alts))
  {
    if ps == [] {
      assert [p][1..] == [] && ps + [p] == [p];
    } else {
      assert (ps + [p])[1..] == ps[1..] + [p];
      ProdsDepthAppend(ps[1..], p);
    }
  }

  function NodeDepth(n: Node): (d: nat) {
    match n
    case Undefined => 0
    case Prods(ps) => ProdsDepth(ps)
    case Alternatives(alts) => AltsDepth(alts)
    case Elements(els) => SeqDepth(els)
    case Single(el) => ElementDepth(el)
  }

  // ---- the shape of the rule stack

  /** A rule under way holds the kind of node its phase gives it. */
  predicate Formed(f: Frame) {
    if !f.closing then f == Fresh(f.rule)
    else match f.rule
      case Gbnf => f.node.Prods? && f == GbnfFrame(f.node.ps)
      case Prod => (f.child.Undefined? || f.child.Alternatives?) && f == ProdFrame(f.name, f.child)
      case Alts => f.node.Alternatives? && (f.child.Undefined? || f.child.Elements?) && f == AltsFrame(f.node.alts, f.child)
      case Seq => f.node.Elements? && f == SeqFrame(f.node.els)
      case Elem => (f.child.Undefined? || f.child.Single?) && f == ElemFrame(f.child)
      case Atom =>
        f == AtomFrame(f.node, f.child, f.grouped, f.outer) &&
        if f.grouped then f.node.Undefined? && (f.child.Undefined? || f.child.Alternatives?)
        else f.child.Undefined? && (f.node.Undefined? || f.node.Single?)
  }

  /** A rule about to close has what its last child left. */
  predicate Ready(f: Frame) {
    f.closing ==>
      (f.rule == Prod ==> f.child.Alternatives?) && (f.rule == Alts ==> f.child.Elements?) &&
      (f.grouped ==> f.child.Alternatives?)
  }

  /** Which rule may push which, and what its child slot still holds then. */
  predicate Holds(parent: Frame, rule: RuleName) {
    parent.closing &&
    match rule
    case Gbnf => false
    case Prod => parent.rule == Gbnf
    case Alts => parent.child.Undefined? && (parent.rule == Prod || (parent.rule == Atom && parent.grouped))
    case Seq => parent.rule == Alts && NodeDepth(parent.child) <= NodeDepth(parent.node)
    case Elem => parent.rule == Seq
    case Atom => parent.rule == Elem
  }

  predicate Shape(s: Stack) {
    s.Bottom? ||
    (Formed(s.top) && Shape(s.below) &&
     if s.below.Bottom? then s.top.rule == Gbnf else Holds(s.below.top, s.top.rule))
  }

  /** The parentheses open on the stack. */
  function Groups(s: Stack): (n: nat) {
    if s.Bottom? then 0 else (if s.top.grouped then 1 else 0) + Groups(s.below)
  }

  /** A parenthesis costs four rule levels, on every well-formed stack. */
  lemma {:induction false} DepthOfShape(s: Stack)
    requires Shape(s) && s.Rules?
    ensures match s.top.rule
            case Gbnf => Depth(s.below) == 0 && Groups(s) == 0
            case Prod => Depth(s.below) == 1 && Groups(s) == 0
            case Alts => Depth(s.below) == 4 * Groups(s.below) + 2
            case Seq => Depth(s.below) == 4 * Groups(s.below) + 3
            case Elem => Depth(s.below) == 4 * Groups(s.below) + 4
            case Atom => Depth(s.below) == 4 * Groups(s.below) + 5
    decreases s
  {
    assert Groups(Bottom) == 0 && Depth(Bottom) == 0;
    if s.below.Rules? { DepthOfShape(s.below); }
  }

  /** Whether the next step leaves a parenthesis without its `)`. */
  predicate Abandons(st: State) {
    st.Running? && st.stack.Rules? && st.stack.top.rule == Atom && st.stack.top.grouped && st.stack.top.closing &&
    (st.rest == [] || st.rest[0] != RP)
  }

  predicate Sound(st: State) {
    st.Running? ==> st.stack.Rules? && Shape(st.stack) && Ready(st.stack.top) && ZZ !in st.rest
  }

  function Balance(st: State): (n: int) {
    if st.Running? then Groups(st.stack) + Excess(st.rest) else 0
  }

  // ---- the depth registers

  /** The deepest element a rule has completed for its group level, what its child handed it included. */
  function Own(f: Frame): (d: nat) {
    match f.rule
    case Gbnf => NodeDepth(f.node)
    case Prod => NodeDepth(f.child)
    case Alts => Max(NodeDepth(f.node), NodeDepth(f.child))
    case Seq => NodeDepth(f.node)
    case Elem => 0
    case Atom => if f.grouped then NodeDepth(f.child) else 0
  }

  /** The deepest element completed at the current group level: down to the innermost open parenthesis. */
  function LevelOf(s: Stack): (d: nat) {
    if s.Bottom? then 0
    else if s.top.grouped then Own(s.top)
    else Max(Own(s.top), LevelOf(s.below))
  }

  /** Every open parenthesis saved the level around it. */
  predicate Saved(s: Stack) {
    s.Bottom? || (Saved(s.below) && (s.top.grouped ==> s.top.outer == LevelOf(s.below)))
  }

  /** The depth register holds the depth of the element just completed. */
  predicate Completed(caps: bool, f: Frame, regs: Registers) {
    && (f.rule == Elem && f.closing && f.child.Single? ==>
          regs.nest == ElementDepth(f.child.el) && (caps ==> regs.nest <= MAX_NEST_DEPTH))
    && (f.rule == Atom && f.closing && f.node.Single? ==>
          regs.nest == ElementDepth(f.node.el) && (caps ==> regs.nest <= MAX_NEST_DEPTH))
  }

  predicate Exact(caps: bool, st: State) {
    st.Running? && st.stack.Rules? ==>
      st.regs.level == LevelOf(st.stack) && Saved(st.stack) && Completed(caps, st.stack.top, st.regs)
  }

  // ---- one step keeps them

  /** What a step must keep, from one state to the next. */
  predicate Kept(caps: bool, st: State, next: State) {
    && Sound(next)
    && (next.Failed? || Balance(st) == Balance(next) + if Abandons(st) then 1 else 0)
    && (Exact(caps, st) && !Abandons(st) ==> Exact(caps, next))
  }

  /** The definitions, one rule of the stack at a time. */
  lemma Unfold(f: Frame, b: Stack)
    ensures Shape(Rules(f, b)) <==> Formed(f) && Shape(b) && if b.Bottom? then f.rule == Gbnf else Holds(b.top, f.rule)
    ensures Groups(Rules(f, b)) == (if f.grouped then 1 else 0) + Groups(b)
    ensures LevelOf(Rules(f, b)) == if f.grouped then Own(f) else Max(Own(f), LevelOf(b))
    ensures Saved(Rules(f, b)) <==> Saved(b) && (f.grouped ==> f.outer == LevelOf(b))
    ensures Shape(Bottom) && Groups(Bottom) == 0 && LevelOf(Bottom) == 0 && Saved(Bottom)
  {
  }

  /** The definitions for a stack and the two rules under its top. */
  lemma Unfolds(s: Stack)
    ensures s.Rules? ==> var b := s.below;
              (Shape(s) <==> Formed(s.top) && Shape(b) && if b.Bottom? then s.top.rule == Gbnf else Holds(b.top, s.top.rule)) &&
              Groups(s) == (if s.top.grouped then 1 else 0) + Groups(b) &&
              LevelOf(s) == (if s.top.grouped then Own(s.top) else Max(Own(s.top), LevelOf(b))) &&
              (Saved(s) <==> Saved(b) && (s.top.grouped ==> s.top.outer == LevelOf(b)))
    ensures s.Bottom? ==> Shape(s) && Groups(s) == 0 && LevelOf(s) == 0 && Saved(s)
  {
  }

  lemma KeepGbnf(caps: bool, st: State)
    requires Sound(st) && st.Running? && st.stack.top.rule == Gbnf
    ensures Kept(caps, st, Step(caps, st))
  {
    hide Step, Shape, Groups, LevelOf, Saved;
    var f := st.stack.top;
    Unfolds(st.stack);
    Unfolds(st.stack.below);
    if f.closing {
      GbnfCloseStep(caps, f.node.ps, st.rest, st.regs);
    } else {
      GbnfOpenStep(caps, st.rest, st.regs);
      Unfold(GbnfFrame([]), Bottom);
      Unfold(Fresh(Prod), Rules(GbnfFrame([]), Bottom));
    }
  }

  lemma KeepProdOpen(caps: bool, st: State)
    requires Sound(st) && st.Running? && st.stack.top == Fresh(Prod)
    ensures Kept(caps, st, Step(caps, st))
  {
    hide Step, Excess, Shape, Groups, LevelOf, Saved;
    var b, ts := st.stack.below, st.rest;
    ProdOpenStep(caps, b, ts, st.regs);
    Unfolds(st.stack);
    if StartsProduction(ts) {
      ExcessOfHead(ts);
      NoEndAfter(ts, ts[2..], ts[..2]);
      Unfold(ProdFrame(ts[0].src, Undefined), b);
      Unfold(Fresh(Alts), Rules(ProdFrame(ts[0].src, Undefined), b));
    }
  }

  lemma ExcessOfHead(ts: seq<Token>)
    requires StartsProduction(ts)
    ensures Excess(ts[2..]) == Excess(ts)
  {
    assert ts[1..][1..] == ts[2..];
  }

  lemma KeepProdClose(caps: bool, st: State)
    requires Sound(st) && st.Running? && st.stack.top.closing && st.stack.top.rule == Prod
    ensures Kept(caps, st, Step(caps, st))
  {
    hide Step, Excess, Shape, Groups, LevelOf, Saved;
    var f := st.stack.top;
    Unfolds(st.stack);
    Unfolds(st.stack.below);
    Unfolds(st.stack.below.below);
    var acc := st.stack.below.top.node.ps;
    var p := Production(f.name, f.child.alts);
    ProdCloseStep(caps, f.name, f.child.alts, acc, st.rest, st.regs);
    ProdsDepthAppend(acc, p);
    var home := Rules(GbnfFrame(acc + [p]), Bottom);
    Unfolds(home);
    Unfold(Fresh(Prod), home);
  }

  lemma KeepAlts(caps: bool, st: State)
    requires Sound(st) && st.Running? && st.stack.top.rule == Alts
    ensures Kept(caps, st, Step(caps, st))
  {
    hide Step, Shape, Groups, LevelOf, Saved, ElementDepth, SeqDepth;
    var f, b := st.stack.top, st.stack.below;
    Unfolds(st.stack);
    Unfolds(b);
    if f.closing {
      AltsCloseStep(caps, f.node.alts, f.child.els, b, st.rest, st.regs);
      var one := Sequence(f.child.els);
      AltsDepthConcat(f.node.alts, [one]);
      assert AltsDepth([one]) == SeqDepth(f.child.els) by { assert [one][1..] == []; }
      var more := f.node.alts + [one];
      Unfolds(Return(b, Alternatives(more)));
      Unfold(AltsFrame(more, f.child), b);
      Unfold(Fresh(Seq), Rules(AltsFrame(more, f.child), b));
    } else {
      AltsOpenStep(caps, b, st.rest, st.regs);
      Unfold(AltsFrame([], Undefined), b);
      Unfold(Fresh(Seq), Rules(AltsFrame([], Undefined), b));
    }
  }

  lemma KeepSeq(caps: bool, st: State)
    requires Sound(st) && st.Running? && st.stack.top.rule == Seq
    ensures Kept(caps, st, Step(caps, st))
  {
    hide Step, Excess, Boundary, Shape, Groups, LevelOf, Saved;
    var f, b := st.stack.top, st.stack.below;
    Unfolds(st.stack);
    Unfolds(b);
    var acc := if f.closing then f.node.els else [];
    SeqStep(caps, f, acc, b, st.rest, st.regs);
    Unfold(SeqFrame(acc), b);
    Unfold(Fresh(Elem), Rules(SeqFrame(acc), b));
    Unfolds(Return(b, Elements(acc)));
  }

  lemma KeepElemOpen(caps: bool, st: State)
    requires Sound(st) && st.Running? && st.stack.top == Fresh(Elem)
    ensures Kept(caps, st, Step(caps, st))
  {
    hide Step, Excess, Shape, Groups, LevelOf, Saved;
    var b := st.stack.below;
    Unfolds(st.stack);
    ElemOpenStep(caps, b, st.rest, st.regs);
    Unfold(ElemFrame(Undefined), b);
    Unfold(Fresh(Atom), Rules(ElemFrame(Undefined), b));
  }

  lemma KeepElemClose(caps: bool, st: State)
    requires Sound(st) && st.Running? && st.stack.top.closing && st.stack.top.rule == Elem
    ensures Kept(caps, st, Step(caps, st))
  {
    hide Step, EvalPost, Shape, Groups, LevelOf, Saved, ElementDepth, SeqDepth, AltsDepth, ProdsDepth;
    var f, up, ts := st.stack.top, st.stack.below, st.rest;
    Unfolds(st.stack);
    Unfolds(up);
    var item := if f.child.Single? then Some(f.child.el) else None;
    var v := AtomValue(item, st.regs);
    var acc := up.top.node.els;
    ElemCloseStep(caps, v, acc, up.below, ts);
    var post := if ts != [] && ts[0].POST? then Some(ts[0].src) else None;
    var r := EvalPost(caps, v, post);
    if r.Ok? {
      SeqDepthConcat(acc, ItemSeq(r.value.item));
      ItemSeqDepth(r.value.item);
      Unfold(SeqFrame(acc + ItemSeq(r.value.item)), up.below);
      if Exact(caps, st) { PostTracks(caps, v, post); }
    }
  }

  /** An operator run leaves the registers telling the depth of what it built. */
  lemma PostTracks(caps: bool, v: AtomValue, post: Option<string>)
    requires EvalPost(caps, v, post).Ok?
    requires v.item.Some? ==> v.regs.nest == ElementDepth(v.item.value) && (caps ==> v.regs.nest <= MAX_NEST_DEPTH)
    ensures Tracks(v.regs, EvalPost(caps, v, post).value.item, EvalPost(caps, v, post).value.regs)
  {
    if v.item.Some? && post.Some? {
      ChargedDepth(v.item.value, Ops(post.value), v.regs.nest, NestLimit(caps));
    }
  }

  lemma KeepAtomOpen(caps: bool, st: State)
    requires Sound(st) && st.Running? && st.stack.top == Fresh(Atom)
    ensures Kept(caps, st, Step(caps, st))
  {
    hide Step, EvalLeaf, Shape, Groups, LevelOf, Saved;
    var b, ts := st.stack.below, st.rest;
    Unfolds(st.stack);
    Unfolds(b);
    if ts != [] && IsLeaf(ts[0]) {
      AtomOpenStep(caps, b, ts, st.regs);
      LeafBuilds(ts[0], st.regs);
      if EvalLeaf(ts[0], st.regs).Ok? {
        Unfold(AtomFrame(Child(EvalLeaf(ts[0], st.regs).value.item), Undefined, false, 0), b);
      }
    } else if ts != [] && ts[0] == LP {
      AtomParenStep(caps, b, ts, st.regs);
      var atom := AtomFrame(Undefined, Undefined, true, st.regs.level);
      Unfold(atom, b);
      Unfold(Fresh(Alts), Rules(atom, b));
    } else {
      AtomFailStep(caps, b, ts, st.regs);
    }
  }

  lemma KeepAtomClose(caps: bool, st: State)
    requires Sound(st) && st.Running? && st.stack.top.closing && st.stack.top.rule == Atom
    ensures Kept(caps, st, Step(caps, st))
  {
    hide Step, Shape, Groups, LevelOf, Saved;
    var f, b, ts := st.stack.top, st.stack.below, st.rest;
    Unfolds(st.stack);
    Unfolds(b);
    if f.grouped && ts != [] && ts[0] == RP {
      GroupCloseStep(caps, f.child.alts, f.outer, b, ts, st.regs);
      Unfolds(Return(b, Single(Group(f.child.alts))));
    } else {
      AtomPopStep(caps, f, b, ts, st.regs);
      Unfolds(Return(b, f.node));
    }
  }

  lemma StepKeeps(caps: bool, st: State)
    requires Sound(st)
    ensures Kept(caps, st, Step(caps, st))
  {
    if !st.Running? { return; }
    hide Step, Kept;
    var f := st.stack.top;
    match f.rule
    case Gbnf => KeepGbnf(caps, st);
    case Prod => if f.closing { KeepProdClose(caps, st); } else { KeepProdOpen(caps, st); }
    case Alts => KeepAlts(caps, st);
    case Seq => KeepSeq(caps, st);
    case Elem => if f.closing { KeepElemClose(caps, st); } else { KeepElemOpen(caps, st); }
    case Atom => if f.closing { KeepAtomClose(caps, st); } else { KeepAtomOpen(caps, st); }
  }

  // ---- every run

  /** How many parentheses the first `n` steps leave without their `)`. */
  function Abandoned(caps: bool, st: State, n: nat): (k: nat)
    decreases n
  {
    if n == 0 then 0 else (if Abandons(st) then 1 else 0) + Abandoned(caps, Step(caps, st), n - 1)
  }

  lemma {:induction false} AbandonedAdd(caps: bool, st: State, m: nat, n: nat)
    ensures Abandoned(caps, st, m + n) == Abandoned(caps, st, m) + Abandoned(caps, Run(caps, st, m), n)
    decreases m
  {
    hide Step, Abandons;
    if m != 0 { AbandonedAdd(caps, Step(caps, st), m - 1, n); }
  }

  lemma {:induction false} RunKeeps(caps: bool, st: State, n: nat)
    requires Sound(st)
    ensures var end := Run(caps, st, n);
            && Sound(end)
            && (end.Failed? || Balance(st) == Balance(end) + Abandoned(caps, st, n))
            && (Exact(caps, st) && Abandoned(caps, st, n) == 0 ==> Exact(caps, end))
    decreases n
  {
    hide Step, Abandons, Sound, Exact, Balance;
    if n != 0 {
      var next := Step(caps, st);
      StepKeeps(caps, st);
      RunKeeps(caps, next, n - 1);
      if next.Failed? {
        RunSettled(caps, next, n - 1);
      }
    }
  }

  lemma StartSound(caps: bool, ts: seq<Token>)
    requires ZZ !in ts
    ensures Sound(Start(ts)) && Exact(caps, Start(ts)) && Balance(Start(ts)) == Excess(ts)
  {
    hide Excess;
    Unfold(Fresh(Gbnf), Bottom);
  }

  /** On every run, whatever surrounds it, the n-th nested parenthesis is opened at rule depth
      4n + 1; so the Rust limit of 512 levels refuses the 128th and admits the 127th. */
  lemma NestedParenthesis(ts: seq<Token>, n: nat)
    requires ZZ !in ts
    ensures var st := Run(true, Start(ts), n);
            st.Running? && st.stack.Rules? && st.stack.top == Fresh(Atom) && st.rest != [] && st.rest[0] == LP ==>
              var nth := Groups(st.stack) + 1;
              Depth(st.stack.below) == 4 * nth + 1 && (Step(true, st) == Failed(GroupTooDeep) <==> nth >= 128)
  {
    hide Run, Step;
    StartSound(true, ts);
    RunKeeps(true, Start(ts), n);
    var st := Run(true, Start(ts), n);
    if st.Running? && st.stack.Rules? && st.stack.top == Fresh(Atom) && st.rest != [] && st.rest[0] == LP {
      DepthOfShape(st.stack);
      AtomParenStep(true, st.stack.below, st.rest, st.regs);
    }
  }

  /** An accepted source has as many parentheses too many as its parse abandoned. */
  lemma AbandonedIsExcess(caps: bool, ts: seq<Token>, length: nat)
    requires ZZ !in ts && ParseTokens(caps, ts, length).Ok?
    ensures Abandoned(caps, Start(ts), Budget(length)) == Excess(ts)
  {
    hide Run, Step, Abandoned, Excess;
    StartSound(caps, ts);
    RunKeeps(caps, Start(ts), Budget(length));
  }

  /** In every state of an accepted parse whose parentheses balance, the nesting register is the
      depth of the element just completed, the level register the greatest depth completed at
      the current group level, and every open parenthesis holds the level around it. */
  lemma RegistersExact(caps: bool, ts: seq<Token>, length: nat, n: nat)
    requires ZZ !in ts && ParseTokens(caps, ts, length).Ok? && Excess(ts) == 0
    ensures Exact(caps, Run(caps, Start(ts), n))
  {
    hide Run, Step, Abandoned, Excess, Exact;
    AbandonedIsExcess(caps, ts, length);
    StartSound(caps, ts);
    var all := Budget(length);
    if n <= all {
      AbandonedAdd(caps, Start(ts), n, all - n);
      assert n + (all - n) == all;
      RunKeeps(caps, Start(ts), n);
    } else {
      RunAdd(caps, Start(ts), all, n - all);
      assert all + (n - all) == n;
      RunSettled(caps, Run(caps, Start(ts), all), n - all);
      ExactSettled(caps, Run(caps, Start(ts), n));
    }
  }

  lemma ExactSettled(caps: bool, st: State)
    requires !st.Running?
    ensures Exact(caps, st)
  {
  }

  // ---- what the nesting limit cuts, at every step

  lemma {:induction false} MatchIn(alts: seq<Alt>, rest: seq<Token>, grouped: bool)
    requires FirstMatch(alts, rest, grouped).Some?
    ensures FirstMatch(alts, rest, grouped).value in alts
  {
    hide Matches;
    if !Matches(alts[0], rest, grouped) { MatchIn(alts[1..], rest, grouped); }
  }

  predicate Charges(a: Action) { a == ElemPost || a == AtomGroupClose }

  lemma OthersChargeNothing(rule: RuleName, closing: bool)
    requires !(closing && (rule == Elem || rule == Atom))
    ensures forall alt <- (if closing then CloseAlts(rule) else OpenAlts(rule)) :: !Charges(alt.a)
  {
  }

  /** Only a run of operators and a closing parenthesis are charged depth. */
  lemma OnlyCharged(st: State)
    requires st.Running? && st.stack.Rules?
    requires !(st.stack.top.closing && (st.stack.top.rule == Elem || st.stack.top.rule == Atom))
    ensures Step(true, st) != Failed(NestTooDeep)
  {
    hide FirstMatch, OpenAlts, CloseAlts, DecodeString, DecodeClass, EmitClass, FlagsFor;
    var f := st.stack.top;
    var alts := if f.closing then CloseAlts(f.rule) else OpenAlts(f.rule);
    OthersChargeNothing(f.rule, f.closing);
    if FirstMatch(alts, st.rest, Hook(st.stack).top.grouped).Some? { MatchIn(alts, st.rest, Hook(st.stack).top.grouped); }
  }

  /** The group that the next step closes would be more than 130 deep. */
  predicate DeepGroup(st: State) {
    st.Running? && st.stack.Rules? && st.stack.top.rule == Atom && st.stack.top.grouped && st.stack.top.closing &&
    st.rest != [] && st.rest[0] == RP &&
    st.stack.top.child.Alternatives? && ElementDepth(Group(st.stack.top.child.alts)) > MAX_NEST_DEPTH
  }

  /** Some prefix of the operators that the next step applies builds an element more than 130 deep. */
  predicate DeepRun(st: State) {
    st.Running? && st.stack.Rules? && st.stack.top.rule == Elem && st.stack.top.closing && st.stack.top.child.Single? &&
    st.rest != [] && st.rest[0].POST? &&
    var ops := Ops(st.rest[0].src); exists k: nat :: k <= |ops| && DeepAt(st.stack.top.child.el, ops, MAX_NEST_DEPTH, k)
  }

  lemma NestAtAtom(st: State)
    requires Sound(st) && Exact(true, st) && st.Running? && st.stack.top.closing && st.stack.top.rule == Atom
    ensures Step(true, st) == Failed(NestTooDeep) <==> DeepGroup(st)
  {
    hide Step, Shape, Groups, LevelOf, Saved, AltsDepth;
    var f, b, ts := st.stack.top, st.stack.below, st.rest;
    Unfolds(st.stack);
    Unfolds(b);
    if f.grouped && ts != [] && ts[0] == RP {
      GroupCloseStep(true, f.child.alts, f.outer, b, ts, st.regs);
    } else {
      AtomPopStep(true, f, b, ts, st.regs);
    }
  }

  lemma NestAtElem(st: State)
    requires Sound(st) && Exact(true, st) && st.Running? && st.stack.top.closing && st.stack.top.rule == Elem
    ensures Step(true, st) == Failed(NestTooDeep) <==> DeepRun(st)
  {
    hide Step, Shape, Groups, LevelOf, Saved, ElementDepth, Ops, ApplyOps, DeepAt;
    var f, up, ts := st.stack.top, st.stack.below, st.rest;
    Unfolds(st.stack);
    Unfolds(up);
    var v := AtomValue(if f.child.Single? then Some(f.child.el) else None, st.regs);
    ElemCloseStep(true, v, up.top.node.els, up.below, ts);
    if v.item.Some? && ts != [] && ts[0].POST? {
      TooDeepExact(v.item.value, Ops(ts[0].src), st.regs.nest, MAX_NEST_DEPTH);
    }
  }

  /** The nesting refusal is exact on every run, whatever becomes of the source: until a parenthesis
      is abandoned, a step is refused for nesting exactly when the group it closes, or what some
      prefix of the operators it applies builds, is more than 130 deep. */
  lemma NestRefusal(ts: seq<Token>, n: nat)
    requires ZZ !in ts && Abandoned(true, Start(ts), n) == 0
    ensures var st := Run(true, Start(ts), n);
            st.Running? ==> (Step(true, st) == Failed(NestTooDeep) <==> DeepGroup(st) || DeepRun(st))
  {
    hide Run, Step, Abandoned, Excess, Exact, DeepGroup, DeepRun, Shape, Ready;
    var st := Run(true, Start(ts), n);
    StartSound(true, ts);
    RunKeeps(true, Start(ts), n);
    if st.Running? {
      var f := st.stack.top;
      DeepWhere(st);
      if f.closing && f.rule == Atom { NestAtAtom(st); }
      else if f.closing && f.rule == Elem { NestAtElem(st); }
      else { OnlyCharged(st); }
    }
  }

  lemma DeepWhere(st: State)
    requires st.Running? && st.stack.Rules?
    ensures DeepGroup(st) ==> st.stack.top.closing && st.stack.top.rule == Atom
    ensures DeepRun(st) ==> st.stack.top.closing && st.stack.top.rule == Elem
  {
  }

  // ---- what the Rust limits cut, read off the tokens and the answer

  /** How far parentheses nest in a derivation. */
  function ElemParens(e: ElemTree): (d: nat)
    decreases e, 0
  {
    if e.atom.Leaf? then 0 else 1 + AltsParens(e.atom.alts)
  }

  function SeqParens(els: seq<ElemTree>): (d: nat)
    decreases els, 1
  {
    if els == [] then 0 else Max(ElemParens(els[0]), SeqParens(els[1..]))
  }

  function AltsParens(alts: seq<SeqTree>): (d: nat)
    decreases alts, 2
  {
    if alts == [] then 0 else Max(SeqParens(alts[0].els), AltsParens(alts[1..]))
  }

  function ProdsParens(ps: seq<ProdTree>): (d: nat) {
    if ps == [] then 0 else Max(AltsParens(ps[0].alts), ProdsParens(ps[1..]))
  }

  /** The most parentheses open at once, from `open` of them on. */
  function MostOpen(ts: seq<Token>, open: int): (d: int)
    ensures d >= open
  {
    if ts == [] then open
    else
      var more := MostOpen(ts[1..], open + if ts[0] == LP then 1 else if ts[0] == RP then -1 else 0);
      if more < open then open else more
  }

  lemma {:induction false} MostOpenConcat(a: seq<Token>, b: seq<Token>, open: int)
    ensures MostOpen(a + b, open) ==
            if MostOpen(a, open) < MostOpen(b, open + Excess(a)) then MostOpen(b, open + Excess(a)) else MostOpen(a, open)
  {
    if a == [] {
      assert a + b == b;
    } else {
      assert (a + b)[1..] == a[1..] + b;
      MostOpenConcat(a[1..], b, open + if a[0] == LP then 1 else if a[0] == RP then -1 else 0);
    }
  }

  lemma MostOpenPlain(tok: Token, open: int)
    requires tok != LP && tok != RP
    ensures MostOpen([tok], open) == open && Excess([tok]) == 0
  {
    assert [tok][1..] == [];
  }

  lemma {:induction false} ElemOpens(e: ElemTree, open: int)
    requires PlacedElem(e, false)
    ensures MostOpen(YieldElem(e), open) == open + ElemParens(e) && Excess(YieldElem(e)) == 0
    decreases e, 1
  {
    hide MostOpen, Excess, YieldAlts, AltsParens, PlacedAlts;
    ElemExcess(e, false);
    var a := YieldAtom(e.atom);
    MostOpenConcat(a, YieldPost(e.post), open);
    ExcessConcat(a, YieldPost(e.post));
    NoneOpen(open);
    if e.post.Some? { MostOpenPlain(POST(e.post.value), open); }
    match e.atom
    case Leaf(tok) => MostOpenPlain(tok, open);
    case Paren(alts, _) =>
      var inner := YieldAlts(alts);
      assert a == [LP] + (inner + [RP]);
      AltsExcess(alts, false);
      AltsOpens(alts, open + 1);
      MostOpenConcat([LP], inner + [RP], open);
      MostOpenConcat(inner, [RP], open + 1);
      OnePair(open);
  }

  lemma NoneOpen(open: int)
    ensures MostOpen([], open) == open && Excess([]) == 0
  {
  }

  lemma OnePair(open: int)
    ensures MostOpen([LP], open) == open + 1 && Excess([LP]) == 1 && MostOpen([RP], open + 1) == open + 1
  {
    assert [LP][1..] == [] && [RP][1..] == [];
  }

  lemma {:induction false} SeqOpens(els: seq<ElemTree>, open: int)
    requires PlacedSeq(els, false)
    ensures MostOpen(YieldSeq(els), open) == open + SeqParens(els) && Excess(YieldSeq(els)) == 0
    decreases els, 2
  {
    hide YieldElem, ElemParens, PlacedElem;
    SeqExcess(els, false);
    if els != [] {
      ElemOpens(els[0], open);
      SeqOpens(els[1..], open);
      MostOpenConcat(YieldElem(els[0]), YieldSeq(els[1..]), open);
    }
  }

  lemma {:induction false} AltsOpens(alts: seq<SeqTree>, open: int)
    requires PlacedAlts(alts, false)
    ensures MostOpen(YieldAlts(alts), open) == open + AltsParens(alts) && Excess(YieldAlts(alts)) == 0
    decreases alts, 3
  {
    hide YieldSeq, SeqParens, PlacedSeq;
    AltsExcess(alts, false);
    SeqOpens(alts[0].els, open);
    if |alts| > 1 {
      var more := [ALT] + YieldAlts(alts[1..]);
      MostOpenConcat(YieldSeq(alts[0].els), more, open);
      MostOpenConcat([ALT], YieldAlts(alts[1..]), open);
      MostOpenPlain(ALT, open);
      AltsOpens(alts[1..], open);
    } else {
      assert YieldAlts(alts) == YieldSeq(alts[0].els) + [] == YieldSeq(alts[0].els);
      assert alts[1..] == [];
    }
  }

  lemma {:induction false} ProdsOpens(ps: seq<ProdTree>)
    requires StrictProds(ps)
    ensures MostOpen(YieldProds(ps), 0) == ProdsParens(ps)
  {
    if ps != [] {
      var head := [NM(ps[0].name)] + [DEF];
      var body, rest := YieldAlts(ps[0].alts), YieldProds(ps[1..]);
      assert YieldProds(ps) == head + (body + rest);
      MostOpenConcat([NM(ps[0].name)], [DEF], 0);
      ExcessConcat([NM(ps[0].name)], [DEF]);
      MostOpenPlain(NM(ps[0].name), 0);
      MostOpenPlain(DEF, 0);
      MostOpenConcat(head, body + rest, 0);
      MostOpenConcat(body, rest, 0);
      AltsOpens(ps[0].alts, 0);
      ProdsOpens(ps[1..]);
    }
  }

  lemma {:induction false} ElemShallow(n: nat, e: ElemTree)
    requires PlacedElem(e, false) && BuildElem(e).Some? && n <= 127
    ensures ShallowElem(n, e) <==>
            n + ElemParens(e) <= 127 && SeqDepth(ItemSeq(BuildElem(e).value)) <= MAX_NEST_DEPTH
    decreases e, 1
  {
    ItemSeqDepth(BuildElem(e).value);
    if e.atom.Paren? {
      var inner := BuildAlts(e.atom.alts).value;
      var group := Group(inner);
      if e.post.Some? { ChargedDepth(group, Ops(e.post.value), ElementDepth(group), None); }
      if n < 127 { AltsShallow(n + 1, e.atom.alts); }
    }
  }

  lemma {:induction false} SeqShallow(n: nat, els: seq<ElemTree>)
    requires PlacedSeq(els, false) && BuildSeq(els).Some? && n <= 127
    ensures ShallowSeq(n, els) <==> n + SeqParens(els) <= 127 && SeqDepth(BuildSeq(els).value) <= MAX_NEST_DEPTH
    decreases els, 2
  {
    hide BuildElem, PlacedElem, ShallowElem, ElemParens, ElementDepth;
    if els != [] {
      ElemShallow(n, els[0]);
      SeqShallow(n, els[1..]);
      SeqDepthConcat(ItemSeq(BuildElem(els[0]).value), BuildSeq(els[1..]).value);
    }
  }

  lemma {:induction false} AltsShallow(n: nat, alts: seq<SeqTree>)
    requires PlacedAlts(alts, false) && BuildAlts(alts).Some? && n <= 127
    ensures ShallowAlts(n, alts) <==> n + AltsParens(alts) <= 127 && AltsDepth(BuildAlts(alts).value) <= MAX_NEST_DEPTH
    decreases alts, 3
  {
    hide BuildSeq, PlacedSeq, ShallowSeq, SeqParens, SeqDepth;
    SeqShallow(n, alts[0].els);
    var one := Sequence(BuildSeq(alts[0].els).value);
    assert AltsDepth([one]) == SeqDepth(one.els) by { assert [one][1..] == []; }
    if |alts| > 1 { AltsShallow(n, alts[1..]); } else { assert alts[1..] == []; }
    AltsDepthConcat([one], BuildAlts(alts[1..]).value);
  }

  lemma {:induction false} ProdsShallow(ps: seq<ProdTree>)
    requires StrictProds(ps) && BuildProds(ps).Some?
    ensures ShallowProds(ps) <==> ProdsParens(ps) <= 127 && ProdsDepth(BuildProds(ps).value) <= MAX_NEST_DEPTH
  {
    hide BuildAlts, PlacedAlts, ShallowAlts, AltsParens, AltsDepth;
    if ps != [] {
      AltsShallow(0, ps[0].alts);
      ProdsShallow(ps[1..]);
      var p := Production(ps[0].name, BuildAlts(ps[0].alts).value);
      assert ([p] + BuildProds(ps[1..]).value)[1..] == BuildProds(ps[1..]).value;
    }
  }

  /** On balanced sources the Rust front-end differs from the TypeScript one in exactly two
      refusals: more than 127 parentheses open at once, and an answer with an element nested
      more than 130 deep. */
  lemma RustLimits(ts: seq<Token>, length: nat, v: seq<Production>)
    requires ZZ !in ts && |ts| <= length && Excess(ts) == 0
    ensures ParseTokens(true, ts, length) == Ok(v) <==>
            ParseTokens(false, ts, length) == Ok(v) && MostOpen(ts, 0) <= 127 && ProdsDepth(v) <= MAX_NEST_DEPTH
  {
    hide ParseTokens, BuildProds, ShallowProds, PlacedProds, YieldProds, StrictProds, ProdsParens, ProdsDepth, MostOpen, Excess;
    TableBuilds(true, ts, length, v);
    TableBuilds(false, ts, length, v);
    forall ps | PlacedProds(ps) && YieldProds(ps) == ts && BuildProds(ps) == Some(v)
      ensures ShallowProds(ps) <==> MostOpen(ts, 0) <= 127 && ProdsDepth(v) <= MAX_NEST_DEPTH
    {
      ProdsExcess(ps);
      ProdsOpens(ps);
      ProdsShallow(ps);
    }
  }
}
